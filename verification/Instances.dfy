/** Public keys and registered instances, shared by registration, handshakes and request signatures. */
module Instances {
  import opened Foundations

  datatype PublicKey = PublicKey(serviceId: Uuid, instanceId: Uuid, keyId: Uuid, key: Bytes32)

  datatype RegisteredInstance = RegisteredInstance(
    publicKey: PublicKey, endpoint: string, registeredAt: i64, leaseExpiresAt: i64, leaseRevision: i64,
    revokedAt: Option<i64>)

  predicate EligibleAt(i: RegisteredInstance, now: i64) {
    i.revokedAt.None? && i.registeredAt <= now < i.leaseExpiresAt
  }
}
