/** Length-prefixed byte messages: what they determine, and why no two protocols share one. */
module FieldEncoding {
  import opened Foundations
  import opened Text
  import opened ServiceRequests

  // ---- Fixed-width big-endian integers ----

  function Pow256(width: nat): nat { if width == 0 then 1 else 256 * Pow256(width - 1) }

  /** The low `width` bytes of `n`, most significant first. */
  function BigEndian(n: nat, width: nat): (b: Bytes)
    ensures |b| == width
  {
    if width == 0 then [] else BigEndian(n / 256, width - 1) + [(n % 256) as byte]
  }

  function ReadBigEndian(b: Bytes): nat {
    if b == [] then 0 else 256 * ReadBigEndian(b[..|b| - 1]) + b[|b| - 1] as int
  }

  lemma {:induction false} BigEndianReadsBack(n: nat, width: nat)
    requires n < Pow256(width)
    ensures ReadBigEndian(BigEndian(n, width)) == n
  {
    if width > 0 {
      BigEndianReadsBack(n / 256, width - 1);
      assert BigEndian(n, width)[..width - 1] == BigEndian(n / 256, width - 1);
    }
  }

  const TWO_32: nat := 0x1_0000_0000
  const TWO_64: nat := 0x1_0000_0000_0000_0000

  lemma Widths()
    ensures Pow256(4) == TWO_32 && Pow256(8) == TWO_64
  {
    assert Pow256(2) == 0x1_0000;
    assert Pow256(4) == 256 * (256 * Pow256(2));
    assert Pow256(6) == 256 * (256 * Pow256(4));
    assert Pow256(8) == 256 * (256 * Pow256(6));
  }

  /** `(n as u32).to_be_bytes()`, which drops everything above 32 bits. */
  function U32Bytes(n: nat): Bytes { BigEndian(n % TWO_32, 4) }

  function U64Bytes(n: nat): Bytes { BigEndian(n % TWO_64, 8) }

  /** Two's complement. */
  function I64Bytes(n: i64): Bytes { U64Bytes(if n < 0 then n + TWO_64 else n) }

  lemma BigEndianRecovered(n: nat, m: nat, width: nat)
    requires n < Pow256(width) && m < Pow256(width) && BigEndian(n, width) == BigEndian(m, width)
    ensures n == m
  {
    BigEndianReadsBack(n, width);
    BigEndianReadsBack(m, width);
  }

  lemma U32Recovered(n: nat, m: nat)
    requires n < TWO_32 && m < TWO_32 && U32Bytes(n) == U32Bytes(m)
    ensures n == m
  {
    Widths();
    assert n % TWO_32 == n && m % TWO_32 == m;
    BigEndianRecovered(n, m, 4);
  }

  lemma U64Recovered(n: nat, m: nat)
    requires n < TWO_64 && m < TWO_64 && U64Bytes(n) == U64Bytes(m)
    ensures n == m
  {
    hide BigEndian, Pow256;
    Widths();
    assert n % TWO_64 == n && m % TWO_64 == m;
    BigEndianRecovered(n, m, 8);
  }

  lemma I64Recovered(n: i64, m: i64)
    requires I64Bytes(n) == I64Bytes(m)
    ensures n == m
  {
    U64Recovered(if n < 0 then n + TWO_64 else n, if m < 0 then m + TWO_64 else m);
  }

  // ---- Field lists ----

  function EncodeFields(fields: seq<Bytes>): Bytes {
    if fields == [] then []
    else EncodeFields(fields[..|fields| - 1]) + (U32Bytes(|fields[|fields| - 1]|) + fields[|fields| - 1])
  }

  method EncodeFieldList(fields: seq<Bytes>) returns (message: Bytes)
    ensures message == EncodeFields(fields)
  {
    message := [];
    for i := 0 to |fields|
      invariant message == EncodeFields(fields[..i])
    {
      message := message + U32Bytes(|fields[i]|);
      message := message + fields[i];
      assert fields[..i + 1][..i] == fields[..i];
    }
    assert fields[..|fields|] == fields;
  }

  predicate Encodable(fields: seq<Bytes>) { forall i | 0 <= i < |fields| :: |fields[i]| < TWO_32 }

  lemma Reassociate(p: Bytes, f: Bytes, x: Bytes, l: Bytes)
    ensures (p + (f + x)) + l == p + (f + (x + l))
  {
  }

  lemma {:induction false} EncodeFirst(fields: seq<Bytes>)
    requires fields != []
    ensures EncodeFields(fields) == U32Bytes(|fields[0]|) + (fields[0] + EncodeFields(fields[1..]))
  {
    var n := |fields| - 1;
    if n == 0 {
      assert EncodeFields(fields[..0]) == [] && EncodeFields(fields[1..]) == [];
    } else {
      var front, rest, last := fields[..n], fields[1..], U32Bytes(|fields[n]|) + fields[n];
      EncodeFirst(front);
      assert front[1..] == rest[..n - 1] && rest[n - 1] == fields[n];
      assert EncodeFields(rest) == EncodeFields(front[1..]) + last;
      Reassociate(U32Bytes(|fields[0]|), fields[0], EncodeFields(front[1..]), last);
    }
  }

  lemma HeadRecovered(f: Bytes, x: Bytes, g: Bytes, y: Bytes)
    requires |f| < TWO_32 && |g| < TWO_32
    requires U32Bytes(|f|) + (f + x) == U32Bytes(|g|) + (g + y)
    ensures f == g && x == y
  {
    var s, t := U32Bytes(|f|) + (f + x), U32Bytes(|g|) + (g + y);
    assert s[..4] == U32Bytes(|f|) && t[..4] == U32Bytes(|g|);
    U32Recovered(|f|, |g|);
    assert s[4..] == f + x && t[4..] == g + y;
    assert (f + x)[..|f|] == f && (g + y)[..|g|] == g;
    assert (f + x)[|f|..] == x && (g + y)[|g|..] == y;
  }

  /** The encoding determines the field list, whatever the number of fields on either side. */
  lemma {:induction false} EncodingInjective(a: seq<Bytes>, b: seq<Bytes>)
    requires Encodable(a) && Encodable(b) && EncodeFields(a) == EncodeFields(b)
    ensures a == b
  {
    if a == [] || b == [] {
      if a != [] { EncodeFirst(a); }
      if b != [] { EncodeFirst(b); }
    } else {
      EncodeFirst(a);
      EncodeFirst(b);
      HeadRecovered(a[0], EncodeFields(a[1..]), b[0], EncodeFields(b[1..]));
      EncodingInjective(a[1..], b[1..]);
      assert a == [a[0]] + a[1..] && b == [b[0]] + b[1..];
    }
  }

  lemma {:induction false} ZeroBytes(width: nat)
    ensures BigEndian(0, width) == seq(width, _ => 0 as byte)
  {
    if width > 0 { ZeroBytes(width - 1); }
  }

  lemma {:induction false} EmptyFieldsEncodeToZeros(n: nat)
    ensures EncodeFields(seq(n, _ => [])) == seq(4 * n, _ => 0 as byte)
  {
    var fields: seq<Bytes> := seq(n, _ => []);
    if n > 0 {
      EmptyFieldsEncodeToZeros(n - 1);
      ZeroBytes(4);
      assert fields[..n - 1] == seq(n - 1, _ => []);
    }
  }

  /** At 2^32 bytes the length prefix wraps to zero and the encoding stops determining the list. */
  lemma WrappedLengthCollides()
    ensures exists a: seq<Bytes>, b: seq<Bytes> ::
              a != b && EncodeFields(a) == EncodeFields(b) && Encodable(b) && |a| == 1 && |a[0]| == TWO_32
  {
    var field: Bytes := seq(TWO_32, _ => 0 as byte);
    var a := [field];
    var n := TWO_32 / 4 + 1;
    var b: seq<Bytes> := seq(n, _ => []);
    EncodeFirst(a);
    assert a[1..] == [];
    ZeroBytes(4);
    EmptyFieldsEncodeToZeros(n);
    assert EncodeFields(a) == BigEndian(0, 4) + field;
    assert EncodeFields(a) == EncodeFields(b);
    assert |a| != |b|;
  }

  // ---- The four messages an instance key signs ----

  const CHALLENGE_CONTEXT := "infernal-law/instance-handshake/challenge/v1"
  const RESPONSE_CONTEXT := "infernal-law/instance-handshake/response/v1"
  const PROOF_CONTEXT := "infernal-law/enrollment/v1"

  datatype Challenge = Challenge(
    nonce: Bytes32, kernelService: Uuid, kernelInstance: Uuid, kernelKeyId: Uuid, kernelKey: Bytes32,
    targetInstance: Uuid, targetKeyId: Uuid, issuedAt: i64, expiresAt: i64)

  datatype Response = Response(kernelInstance: Uuid, targetInstance: Uuid, targetKeyId: Uuid, challengeDigest: Bytes32)

  datatype Proof = Proof(
    challenge: Bytes32, serviceId: Uuid, instanceId: Uuid, keyId: Uuid, publicKey: Bytes32,
    endpoint: Bytes, podUid: Bytes, tokenDigest: Bytes32)

  function ChallengeFields(c: Challenge): seq<Bytes> {
    [Utf8(CHALLENGE_CONTEXT), c.nonce, c.kernelService, c.kernelInstance, c.kernelKeyId, c.kernelKey,
     c.targetInstance, c.targetKeyId, I64Bytes(c.issuedAt), I64Bytes(c.expiresAt)]
  }

  function ResponseFields(r: Response): seq<Bytes> {
    [Utf8(RESPONSE_CONTEXT), r.kernelInstance, r.targetInstance, r.targetKeyId, r.challengeDigest]
  }

  function ProofFields(p: Proof): seq<Bytes> {
    [Utf8(PROOF_CONTEXT), p.challenge, p.serviceId, p.instanceId, p.keyId, p.publicKey,
     p.endpoint, p.podUid, p.tokenDigest]
  }

  function ChallengeMessage(c: Challenge): Bytes { EncodeFields(ChallengeFields(c)) }

  function ResponseMessage(r: Response): Bytes { EncodeFields(ResponseFields(r)) }

  function ProofMessage(p: Proof): Bytes { EncodeFields(ProofFields(p)) }

  lemma AsciiJoined(a: string, b: string, c: string)
    requires IsAscii(a) && IsAscii(b) && IsAscii(c)
    ensures IsAscii(a + b + c)
  {
  }

  lemma ChallengeContextLength()
    ensures |Utf8(CHALLENGE_CONTEXT)| == 44
  {
    AsciiJoined("infernal-law/", "instance-hands", "hake/");
    AsciiJoined("infernal-law/" + "instance-hands" + "hake/", "challenge", "/v1");
    Utf8OfAscii(CHALLENGE_CONTEXT);
  }

  lemma ResponseContextLength()
    ensures |Utf8(RESPONSE_CONTEXT)| == 43
  {
    AsciiJoined("infernal-law/", "instance-hands", "hake/");
    AsciiJoined("infernal-law/" + "instance-hands" + "hake/", "response", "/v1");
    Utf8OfAscii(RESPONSE_CONTEXT);
  }

  lemma ContextLengths()
    ensures |Utf8(CHALLENGE_CONTEXT)| == 44 && |Utf8(RESPONSE_CONTEXT)| == 43 && |Utf8(PROOF_CONTEXT)| == 26
  {
    ChallengeContextLength();
    ResponseContextLength();
    AsciiJoined("infernal-law/", "enrollment", "/v1");
    Utf8OfAscii(PROOF_CONTEXT);
  }

  lemma ChallengeEncodable(c: Challenge)
    ensures Encodable(ChallengeFields(c))
  {
    ContextLengths();
  }

  lemma ResponseEncodable(r: Response)
    ensures Encodable(ResponseFields(r))
  {
    ContextLengths();
  }

  lemma ProofEncodable(p: Proof)
    requires |p.endpoint| < TWO_32 && |p.podUid| < TWO_32
    ensures Encodable(ProofFields(p))
  {
    ContextLengths();
  }

  /** A signed challenge determines every field of the challenge. */
  lemma ChallengeRecovered(c: Challenge, d: Challenge)
    requires ChallengeMessage(c) == ChallengeMessage(d)
    ensures c == d
  {
    ContextLengths();
    var x, y := ChallengeFields(c), ChallengeFields(d);
    EncodingInjective(x, y);
    assert x[1] == y[1] && x[2] == y[2] && x[3] == y[3] && x[4] == y[4] && x[5] == y[5];
    assert x[6] == y[6] && x[7] == y[7] && x[8] == y[8] && x[9] == y[9];
    I64Recovered(c.issuedAt, d.issuedAt);
    I64Recovered(c.expiresAt, d.expiresAt);
  }

  lemma ResponseRecovered(r: Response, s: Response)
    requires ResponseMessage(r) == ResponseMessage(s)
    ensures r == s
  {
    ContextLengths();
    var x, y := ResponseFields(r), ResponseFields(s);
    EncodingInjective(x, y);
    assert x[1] == y[1] && x[2] == y[2] && x[3] == y[3] && x[4] == y[4];
  }

  lemma ProofRecovered(p: Proof, q: Proof)
    requires |p.endpoint| < TWO_32 && |p.podUid| < TWO_32 && |q.endpoint| < TWO_32 && |q.podUid| < TWO_32
    requires ProofMessage(p) == ProofMessage(q)
    ensures p == q
  {
    ContextLengths();
    var x, y := ProofFields(p), ProofFields(q);
    EncodingInjective(x, y);
    assert x[1] == y[1] && x[2] == y[2] && x[3] == y[3] && x[4] == y[4];
    assert x[5] == y[5] && x[6] == y[6] && x[7] == y[7] && x[8] == y[8];
  }

  lemma {:induction false} Utf8StartsWithFirst(s: string)
    requires s != [] && s[0] as int < 128
    ensures Utf8(s) != [] && Utf8(s)[0] as int == s[0] as int
  {
    if |s| > 1 {
      Utf8StartsWithFirst(s[..|s| - 1]);
    } else {
      assert Utf8(s[..0]) == [];
    }
  }

  lemma SignatureBaseStartsWithQuote(parts: ServiceRequestParts, serviceId: Uuid, instanceId: Uuid,
                                     digest: string, parameters: string)
    ensures var message := Utf8(SignatureBase(parts, serviceId, instanceId, digest, parameters));
            message != [] && message[0] == 0x22
  {
    var base := SignatureBase(parts, serviceId, instanceId, digest, parameters);
    assert base[0] == '\"';
    Utf8StartsWithFirst(base);
  }

  lemma {:induction false} TopByteIsZero(n: nat, width: nat)
    requires n < Pow256(width)
    ensures BigEndian(n, width + 1)[0] == 0
  {
    if width > 0 {
      TopByteIsZero(n / 256, width - 1);
    }
  }

  lemma ShortLengthStartsWithZero(n: nat)
    requires n < 0x100_0000
    ensures U32Bytes(n)[0] == 0
  {
    assert n % TWO_32 == n;
    assert Pow256(3) == 256 * Pow256(2) == 0x100_0000;
    TopByteIsZero(n, 3);
  }

  lemma EncodingStartsWithLength(fields: seq<Bytes>)
    requires fields != [] && |fields[0]| < 0x100_0000
    ensures EncodeFields(fields) != [] && EncodeFields(fields)[0] == 0
  {
    EncodeFirst(fields);
    ShortLengthStartsWithZero(|fields[0]|);
    assert EncodeFields(fields)[0] == U32Bytes(|fields[0]|)[0];
  }

  /** No byte string is a message of two of the four protocols that share an instance's key. */
  lemma ProtocolsAreSeparate(c: Challenge, r: Response, p: Proof, parts: ServiceRequestParts,
                             serviceId: Uuid, instanceId: Uuid, digest: string, parameters: string)
    requires |p.endpoint| < TWO_32 && |p.podUid| < TWO_32
    ensures var s := Utf8(SignatureBase(parts, serviceId, instanceId, digest, parameters));
            ChallengeMessage(c) != ResponseMessage(r) && ChallengeMessage(c) != ProofMessage(p) &&
            ResponseMessage(r) != ProofMessage(p) &&
            s != ChallengeMessage(c) && s != ResponseMessage(r) && s != ProofMessage(p)
  {
    ContextLengths();
    ChallengeEncodable(c);
    ResponseEncodable(r);
    ProofEncodable(p);
    if ChallengeMessage(c) == ResponseMessage(r) { EncodingInjective(ChallengeFields(c), ResponseFields(r)); }
    if ChallengeMessage(c) == ProofMessage(p) { EncodingInjective(ChallengeFields(c), ProofFields(p)); }
    if ResponseMessage(r) == ProofMessage(p) { EncodingInjective(ResponseFields(r), ProofFields(p)); }
    SignatureBaseStartsWithQuote(parts, serviceId, instanceId, digest, parameters);
    EncodingStartsWithLength(ChallengeFields(c));
    EncodingStartsWithLength(ResponseFields(r));
    EncodingStartsWithLength(ProofFields(p));
  }

  // ---- The semantic fingerprint of an accepted request ----

  /** What is fed to the hasher: two fields carry a 64-bit length, three are fixed at 16 bytes. */
  function FingerprintPreimage(source: Uuid, action: Bytes, scope: Bytes, artifact: Uuid, policy: Uuid): Bytes {
    source + (U64Bytes(|action|) + (action + (U64Bytes(|scope|) + (scope + (artifact + policy)))))
  }

  /** A hasher known by the bytes it has been fed. */
  class Hasher {
    var fed: Bytes

    constructor ()
      ensures fed == []
    {
      fed := [];
    }

    method Update(bytes: Bytes)
      modifies this
      ensures fed == old(fed) + bytes
    {
      fed := fed + bytes;
    }

    method HashField(bytes: Bytes)
      modifies this
      ensures fed == old(fed) + (U64Bytes(|bytes|) + bytes)
    {
      Update(U64Bytes(|bytes|));
      Update(bytes);
    }
  }

  /** The semantic fingerprint: the digest of what the hasher was fed. */
  method Fingerprint(digest: Bytes -> Bytes32, source: Uuid, action: Bytes, scope: Bytes, artifact: Uuid, policy: Uuid)
    returns (fingerprint: Bytes32)
    ensures fingerprint == digest(FingerprintPreimage(source, action, scope, artifact, policy))
  {
    hide U64Bytes;
    var hasher := new Hasher();
    hasher.Update(source);
    hasher.HashField(action);
    hasher.HashField(scope);
    hasher.Update(artifact);
    hasher.Update(policy);
    assert hasher.fed == FingerprintPreimage(source, action, scope, artifact, policy);
    return digest(hasher.fed);
  }

  lemma FixedWidthRecovered(a: Bytes, x: Bytes, b: Bytes, y: Bytes)
    requires |a| == |b| && a + x == b + y
    ensures a == b && x == y
  {
    assert a == (a + x)[..|a|] && b == (b + y)[..|b|];
    assert x == (a + x)[|a|..] && y == (b + y)[|b|..];
  }

  lemma LongFieldRecovered(f: Bytes, x: Bytes, g: Bytes, y: Bytes)
    requires |f| < TWO_64 && |g| < TWO_64
    requires U64Bytes(|f|) + (f + x) == U64Bytes(|g|) + (g + y)
    ensures f == g && x == y
  {
    FixedWidthRecovered(U64Bytes(|f|), f + x, U64Bytes(|g|), g + y);
    U64Recovered(|f|, |g|);
    FixedWidthRecovered(f, x, g, y);
  }

  lemma FingerprintPreimageInjective(source: Uuid, action: Bytes, scope: Bytes, artifact: Uuid, policy: Uuid,
                                     source': Uuid, action': Bytes, scope': Bytes, artifact': Uuid, policy': Uuid)
    requires |action| < TWO_64 && |scope| < TWO_64 && |action'| < TWO_64 && |scope'| < TWO_64
    requires FingerprintPreimage(source, action, scope, artifact, policy) ==
             FingerprintPreimage(source', action', scope', artifact', policy')
    ensures source == source' && action == action' && scope == scope' && artifact == artifact' && policy == policy'
  {
    var tail, tail' := artifact + policy, artifact' + policy';
    var r, r' := U64Bytes(|scope|) + (scope + tail), U64Bytes(|scope'|) + (scope' + tail');
    FixedWidthRecovered(source, U64Bytes(|action|) + (action + r), source', U64Bytes(|action'|) + (action' + r'));
    LongFieldRecovered(action, r, action', r');
    LongFieldRecovered(scope, tail, scope', tail');
    FixedWidthRecovered(artifact, policy, artifact', policy');
  }

  // ---- The bytes themselves, written out ----

  /** Four bytes, most significant first. */
  function Four(n: int): Bytes
    requires 0 <= n < 0x1_0000_0000
  {
    [(n / 0x100_0000) as byte, (n / 0x1_0000 % 0x100) as byte, (n / 0x100 % 0x100) as byte, (n % 0x100) as byte]
  }

  /** The 64-bit two's complement of `n`, most significant byte first; division rounds down. */
  function Eight(n: int): Bytes { Four(n / 0x1_0000_0000 % 0x1_0000_0000) + Four(n % 0x1_0000_0000) }

  /** Each field after its length in four bytes. */
  function Frames(fields: seq<Bytes>): Bytes
    requires Encodable(fields)
  {
    if fields == [] then [] else Four(|fields[0]|) + (fields[0] + Frames(fields[1..]))
  }

  lemma FourBytes(n: nat)
    requires n < 0x1_0000_0000
    ensures BigEndian(n, 4) == Four(n)
  {
    assert BigEndian(n / 0x100 / 0x100 / 0x100, 1) == [(n / 0x100 / 0x100 / 0x100 % 0x100) as byte];
    assert n / 0x100 / 0x100 == n / 0x1_0000 && n / 0x100 / 0x100 / 0x100 == n / 0x100_0000;
    assert BigEndian(n / 0x100 / 0x100, 2) == [(n / 0x100_0000) as byte, (n / 0x1_0000 % 0x100) as byte];
  }

  lemma {:induction false} HighThenLow(n: nat, width: nat)
    ensures BigEndian(n, width + 4) == BigEndian(n / 0x1_0000_0000, width) + BigEndian(n % 0x1_0000_0000, 4)
  {
    var m := n % 0x1_0000_0000;
    assert n == 0x1_0000_0000 * (n / 0x1_0000_0000) + m;
    LowByte(n, width + 3);
    LowByte(n / 0x100, width + 2);
    LowByte(n / 0x1_0000, width + 1);
    LowByte(n / 0x100_0000, width);
    FourBytes(m);
    Quotients(n);
  }

  lemma LowByte(n: nat, width: nat)
    ensures BigEndian(n, width + 1) == BigEndian(n / 0x100, width) + [(n % 0x100) as byte]
  {
  }

  lemma Quotients(n: nat)
    ensures n / 0x100 / 0x100 == n / 0x1_0000 && n / 0x1_0000 / 0x100 == n / 0x100_0000
    ensures n / 0x100_0000 / 0x100 == n / 0x1_0000_0000
    ensures n % 0x1_0000_0000 / 0x100_0000 == n / 0x100_0000 % 0x100
    ensures n % 0x1_0000_0000 / 0x1_0000 % 0x100 == n / 0x1_0000 % 0x100
    ensures n % 0x1_0000_0000 / 0x100 % 0x100 == n / 0x100 % 0x100 && n % 0x1_0000_0000 % 0x100 == n % 0x100
  {
  }

  lemma Halves(n: int)
    requires -0x8000_0000_0000_0000 <= n < TWO_64
    ensures var m := if n < 0 then n + TWO_64 else n;
            0 <= m / 0x1_0000_0000 == n / 0x1_0000_0000 % 0x1_0000_0000 && m % 0x1_0000_0000 == n % 0x1_0000_0000
  {
  }

  lemma EightBytes(n: int)
    requires -0x8000_0000_0000_0000 <= n < TWO_64
    ensures BigEndian(if n < 0 then n + TWO_64 else n, 8) == Eight(n)
  {
    var m := if n < 0 then n + TWO_64 else n;
    HighThenLow(m, 4);
    Halves(n);
    FourBytes(m / 0x1_0000_0000);
    FourBytes(m % 0x1_0000_0000);
    hide BigEndian, Four;
  }

  lemma TimeBytes(n: i64)
    ensures I64Bytes(n) == Eight(n)
  {
    hide BigEndian, Eight;
    EightBytes(n);
  }

  /** The encoding is the frames in order. */
  lemma {:induction false} EncodingIsFrames(fields: seq<Bytes>)
    requires Encodable(fields)
    ensures EncodeFields(fields) == Frames(fields)
  {
    hide Four, BigEndian;
    if fields != [] {
      EncodeFirst(fields);
      FourBytes(|fields[0]|);
      EncodingIsFrames(fields[1..]);
      hide EncodeFields;
    }
  }

  /** What a kernel signs to challenge an instance. */
  lemma ChallengeMessageIs(c: Challenge)
    ensures var fields :=
              [Utf8("infernal-law/instance-handshake/challenge/v1"), c.nonce,
               c.kernelService, c.kernelInstance, c.kernelKeyId, c.kernelKey,
               c.targetInstance, c.targetKeyId, Eight(c.issuedAt), Eight(c.expiresAt)];
            Encodable(fields) && ChallengeMessage(c) == Frames(fields)
  {
    hide Utf8, I64Bytes, Frames, EncodeFields;
    TimeBytes(c.issuedAt);
    TimeBytes(c.expiresAt);
    ChallengeEncodable(c);
    EncodingIsFrames(ChallengeFields(c));
  }

  /** What an instance signs to answer. */
  lemma ResponseMessageIs(r: Response)
    ensures var fields :=
              [Utf8("infernal-law/instance-handshake/response/v1"),
               r.kernelInstance, r.targetInstance, r.targetKeyId, r.challengeDigest];
            Encodable(fields) && ResponseMessage(r) == Frames(fields)
  {
    hide Utf8, Frames, EncodeFields;
    ResponseEncodable(r);
    EncodingIsFrames(ResponseFields(r));
  }

  /** What an enrolling instance signs. */
  lemma ProofMessageIs(p: Proof)
    requires |p.endpoint| < TWO_32 && |p.podUid| < TWO_32
    ensures var fields :=
              [Utf8("infernal-law/enrollment/v1"), p.challenge, p.serviceId, p.instanceId, p.keyId, p.publicKey,
               p.endpoint, p.podUid, p.tokenDigest];
            Encodable(fields) && ProofMessage(p) == Frames(fields)
  {
    hide Utf8, Frames, EncodeFields;
    ProofEncodable(p);
    EncodingIsFrames(ProofFields(p));
  }

  /** What the semantic fingerprint is the digest of. */
  lemma FingerprintPreimageIs(source: Uuid, action: Bytes, scope: Bytes, artifact: Uuid, policy: Uuid)
    requires |action| < TWO_64 && |scope| < TWO_64
    ensures FingerprintPreimage(source, action, scope, artifact, policy) ==
            source + (Eight(|action|) + (action + (Eight(|scope|) + (scope + (artifact + policy)))))
  {
    hide BigEndian, Eight;
    EightBytes(|action|);
    EightBytes(|scope|);
  }
}
