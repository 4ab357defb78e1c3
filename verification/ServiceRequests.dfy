/** The signed-HTTP profile: what is signed, how its parameters are written and read, and when it verifies. */
module ServiceRequests {
  import opened Foundations
  import opened Instances
  import opened Text

  const SIGNATURE_LABEL := "sig1"
  const SIGNATURE_VALIDITY_SECONDS: i64 := 30
  const CLOCK_SKEW_SECONDS: i64 := 5
  const MIN_NONCE_LENGTH := 16
  const MAX_NONCE_LENGTH := 128
  const COVERED_COMPONENTS :=
    "(\"@method\"" + " \"@target-uri\"" + " \"content-digest\"" + " \"content-type\"" +
    " \"infernal-service-id\"" + " \"infernal-instance-id\"" + " \"infernal-request-id\")"

  datatype AuthenticationError =
    CredentialMismatch | InvalidContentDigest | InvalidSignature | Malformed | NotFresh | Registry

  /** SHA-256, Base64, the UUID reader and Ed25519 verification, known only by the laws below. */
  datatype Primitives = Primitives(
    sha256: Bytes -> Bytes,
    base64: Bytes -> string,
    unbase64: string -> Option<Bytes>,
    parseUuid: string -> Option<Uuid>,
    verifies: (PublicKey, Bytes, Bytes) -> bool)

  /** Section 4 of RFC 4648: decoding undoes encoding, over a printable alphabet. */
  ghost predicate Base64Laws(p: Primitives) {
    (forall b :: p.unbase64(p.base64(b)) == Some(b)) &&
    forall b :: IsAscii(p.base64(b)) && '\n' !in p.base64(b)
  }

  /** The reader accepts the canonical spelling, and no spelling it accepts holds a quotation mark. */
  ghost predicate UuidLaws(p: Primitives) {
    (forall u: Uuid :: p.parseUuid(PrintUuid(u)) == Some(u)) &&
    forall s | p.parseUuid(s).Some? :: '\"' !in s
  }

  ghost predicate Laws(p: Primitives) { Base64Laws(p) && UuidLaws(p) }

  ghost function Unhex(s: string): Option<Bytes> {
    if exists b: Bytes :: Hex(b) == s then var b: Bytes :| Hex(b) == s; Some(b) else None
  }

  ghost function UnprintUuid(s: string): Option<Uuid> {
    if exists u: Uuid :: PrintUuid(u) == s then var u: Uuid :| PrintUuid(u) == s; Some(u) else None
  }

  /** The laws can be met: hexadecimal meets those of Base64, and the canonical spelling alone those of the reader. */
  lemma LawsAreConsistent(sha256: Bytes -> Bytes, verifies: (PublicKey, Bytes, Bytes) -> bool)
    ensures Laws(Primitives(sha256, b => Hex(b), s => Unhex(s), s => UnprintUuid(s), verifies))
  {
    var p := Primitives(sha256, b => Hex(b), s => Unhex(s), s => UnprintUuid(s), verifies);
    forall b ensures p.unbase64(p.base64(b)) == Some(b) {
      HexInjective(Unhex(Hex(b)).value, b);
    }
    forall u: Uuid ensures p.parseUuid(PrintUuid(u)) == Some(u) {
      PrintedUuidIdentifies(UnprintUuid(PrintUuid(u)).value, u);
    }
  }

  // ---- Request parts ----

  datatype ServiceRequestParts = ServiceRequestParts(
    httpMethod: string, authority: string, pathAndQuery: string, contentType: string, body: Bytes, requestId: Uuid)

  predicate ValidUriValue(s: string) {
    s != [] && forall i | 0 <= i < |s| :: '!' <= s[i] <= '~'
  }

  predicate ValidHeaderValue(s: string) {
    s != [] && s[0] != ' ' && s[|s| - 1] != ' ' && forall i | 0 <= i < |s| :: ' ' <= s[i] <= '~'
  }

  predicate ValidParts(p: ServiceRequestParts) {
    p.httpMethod != [] && (forall i | 0 <= i < |p.httpMethod| :: 'A' <= p.httpMethod[i] <= 'Z') &&
    ValidUriValue(p.authority) &&
    '/' !in p.authority && '@' !in p.authority && '?' !in p.authority && '#' !in p.authority &&
    p.pathAndQuery != [] && p.pathAndQuery[0] == '/' && '#' !in p.pathAndQuery &&
    ValidUriValue(p.pathAndQuery) && ValidHeaderValue(p.contentType)
  }

  /** Visible ASCII, by code. */
  predicate Visible(c: char) { 33 <= c as int <= 126 }

  lemma UriValueIs(s: string)
    ensures ValidUriValue(s) <==> s != "" && forall c | c in s :: Visible(c)
  {
    assert forall i | 0 <= i < |s| :: s[i] in s;
    forall c | ValidUriValue(s) && c in s ensures Visible(c) {
      var i :| 0 <= i < |s| && s[i] == c;
    }
  }

  lemma HeaderValueIs(s: string)
    ensures ValidHeaderValue(s) <==>
            s != "" && s[0] as int != 32 && s[|s| - 1] as int != 32 && forall c | c in s :: Visible(c) || c as int == 32
  {
    assert forall i | 0 <= i < |s| :: s[i] in s;
    forall c | ValidHeaderValue(s) && c in s ensures Visible(c) || c as int == 32 {
      var i :| 0 <= i < |s| && s[i] == c;
    }
  }

  /** Which parts are accepted, by the codes of their characters. */
  lemma ValidPartsExactly(p: ServiceRequestParts)
    ensures ValidParts(p) <==>
            && (p.httpMethod != "" && forall c | c in p.httpMethod :: 65 <= c as int <= 90)
            && (p.authority != "" && forall c | c in p.authority ::
                  Visible(c) && c as int != 35 && c as int != 47 && c as int != 63 && c as int != 64)
            && (p.pathAndQuery != "" && p.pathAndQuery[0] as int == 47 &&
                forall c | c in p.pathAndQuery :: Visible(c) && c as int != 35)
            && (p.contentType != "" && p.contentType[0] as int != 32 && p.contentType[|p.contentType| - 1] as int != 32 &&
                forall c | c in p.contentType :: Visible(c) || c as int == 32)
  {
    var m := p.httpMethod;
    assert forall i | 0 <= i < |m| :: m[i] in m;
    UriValueIs(p.authority);
    UriValueIs(p.pathAndQuery);
    HeaderValueIs(p.contentType);
    hide ValidUriValue, ValidHeaderValue;
    assert ('#' as int, '/' as int, '?' as int, '@' as int) == (35, 47, 63, 64);
  }

  function TargetUri(p: ServiceRequestParts): string { "https://" + (p.authority + p.pathAndQuery) }

  /** The authority ends where the path's slash begins, so the URI text gives both back. */
  lemma TargetUriRecovered(a: ServiceRequestParts, b: ServiceRequestParts)
    requires ValidParts(a) && ValidParts(b) && TargetUri(a) == TargetUri(b)
    ensures a.authority == b.authority && a.pathAndQuery == b.pathAndQuery
  {
    PrefixRecovered("https://", a.authority + a.pathAndQuery, b.authority + b.pathAndQuery);
    var x, y := a.pathAndQuery[1..], b.pathAndQuery[1..];
    assert a.pathAndQuery == "/" + x && b.pathAndQuery == "/" + y;
    assert a.authority + "/" + x == a.authority + a.pathAndQuery;
    assert b.authority + "/" + y == b.authority + b.pathAndQuery;
    DelimiterRecovered(a.authority, x, b.authority, y, '/');
  }

  // ---- Signature parameters ----

  predicate NonceChar(c: char) {
    'a' <= c <= 'z' || 'A' <= c <= 'Z' || '0' <= c <= '9' || c == '-' || c == '_'
  }

  predicate ValidMetadata(created: i64, expires: i64, nonce: string) {
    !(created < 0 || expires <= created || expires - created > SIGNATURE_VALIDITY_SECONDS) &&
    MIN_NONCE_LENGTH <= |nonce| <= MAX_NONCE_LENGTH &&
    forall i | 0 <= i < |nonce| :: NonceChar(nonce[i])
  }

  /** Letters, digits, hyphen and underscore, by code. */
  predicate NonceCode(c: char) {
    var n := c as int;
    48 <= n <= 57 || 65 <= n <= 90 || 97 <= n <= 122 || n == 45 || n == 95
  }

  /** Thirty seconds at most, and a nonce of 16 to 128 such characters. */
  lemma ValidMetadataExactly(created: i64, expires: i64, nonce: string)
    ensures ValidMetadata(created, expires, nonce) <==>
            0 <= created < expires <= created + 30 && 16 <= |nonce| <= 128 && forall c | c in nonce :: NonceCode(c)
  {
    assert forall i | 0 <= i < |nonce| :: nonce[i] in nonce;
    forall c | c in nonce ensures NonceChar(c) <==> NonceCode(c) {}
  }

  datatype SignatureMetadata = SignatureMetadata(
    parameters: string, created: i64, expires: i64, nonce: string, keyId: Uuid)

  /** The parameter text for given spellings of the two times and of the key ID. */
  function ParameterText(created: string, expires: string, nonce: string, keyId: string): string {
    COVERED_COMPONENTS + (";created=" +
      (created + ";expires=" + (expires + ";nonce=\"" + (nonce + "\";keyid=\"" + (keyId + "\";alg=\"" + "ed25519\"")))))
  }

  function SignatureParameters(created: i64, expires: i64, nonce: string, keyId: Uuid): string {
    ParameterText(PrintInt(created), PrintInt(expires), nonce, PrintUuid(keyId))
  }

  function ParseTimestamp(s: string): Option<i64> {
    if s == [] || !AllDigits(s) || DigitsValue(s) > MAX_I64 then None else Some(DigitsValue(s))
  }

  /** The four texts between the fixed separators, if the fixed parts are all present. */
  function SplitParameters(parameters: string): Option<(string, string, string, string)> {
    match StripPrefix(parameters, COVERED_COMPONENTS)
    case None => None
    case Some(listed) =>
      match StripPrefix(listed, ";created=")
      case None => None
      case Some(r0) =>
        match SplitOnce(r0, ";expires=")
        case None => None
        case Some((created, r1)) =>
          match SplitOnce(r1, ";nonce=\"")
          case None => None
          case Some((expires, r2)) =>
            match SplitOnce(r2, "\";keyid=\"")
            case None => None
            case Some((nonce, r3)) =>
              match SplitOnce(r3, "\";alg=\"")
              case None => None
              case Some((keyId, algorithm)) =>
                if algorithm != "ed25519\"" then None else Some((created, expires, nonce, keyId))
  }

  function ParseSignatureInput(p: Primitives, value: string): Result<SignatureMetadata, AuthenticationError> {
    match StripPrefix(value, SIGNATURE_LABEL + "=")
    case None => Err(Malformed)
    case Some(parameters) =>
      match SplitParameters(parameters)
      case None => Err(Malformed)
      case Some((created, expires, nonce, keyId)) =>
        var c, e, k := ParseTimestamp(created), ParseTimestamp(expires), p.parseUuid(keyId);
        if c.None? || e.None? || !ValidMetadata(c.value, e.value, nonce) || k.None? then Err(Malformed)
        else Ok(SignatureMetadata(parameters, c.value, e.value, nonce, k.value))
  }

  lemma StripPrefixFinds(p: string, x: string)
    ensures StripPrefix(p + x, p) == Some(x)
  {
    assert (p + x)[..|p|] == p && (p + x)[|p|..] == x;
  }

  /** Every split of well-formed parameter text falls at the intended separator. */
  lemma ParameterTextSplits(created: string, expires: string, nonce: string, keyId: string)
    requires AllDigits(created) && AllDigits(expires) && '\"' !in nonce && '\"' !in keyId
    ensures SplitParameters(ParameterText(created, expires, nonce, keyId)) == Some((created, expires, nonce, keyId))
  {
    var r3 := keyId + "\";alg=\"" + "ed25519\"";
    var r2 := nonce + "\";keyid=\"" + r3;
    var r1 := expires + ";nonce=\"" + r2;
    var r0 := created + ";expires=" + r1;
    StripPrefixFinds(COVERED_COMPONENTS, ";created=" + r0);
    StripPrefixFinds(";created=", r0);
    SplitOnceFinds(created, ";expires=", r1);
    SplitOnceFinds(expires, ";nonce=\"", r2);
    SplitOnceFinds(nonce, "\";keyid=\"", r3);
    SplitOnceFinds(keyId, "\";alg=\"", "ed25519\"");
  }

  lemma SplitParametersRejoin(parameters: string)
    requires SplitParameters(parameters).Some?
    ensures var (created, expires, nonce, keyId) := SplitParameters(parameters).value;
            parameters == ParameterText(created, expires, nonce, keyId)
  {
    var listed := StripPrefix(parameters, COVERED_COMPONENTS).value;
    assert parameters == COVERED_COMPONENTS + listed;
    var r0 := StripPrefix(listed, ";created=").value;
    assert listed == ";created=" + r0;
    var r1 := SplitOnce(r0, ";expires=").value.1;
    var r2 := SplitOnce(r1, ";nonce=\"").value.1;
    var r3 := SplitOnce(r2, "\";keyid=\"").value.1;
    SplitOnceRejoins(r0, ";expires=");
    SplitOnceRejoins(r1, ";nonce=\"");
    SplitOnceRejoins(r2, "\";keyid=\"");
    SplitOnceRejoins(r3, "\";alg=\"");
  }

  /** What well-formed parameter text reads as, whatever spellings of the times and the key ID it uses. */
  lemma ParameterTextParses(p: Primitives, created: string, expires: string, nonce: string, keyId: string)
    requires '\"' !in keyId
    requires ParseTimestamp(created).Some? && ParseTimestamp(expires).Some? && p.parseUuid(keyId).Some?
    requires ValidMetadata(ParseTimestamp(created).value, ParseTimestamp(expires).value, nonce)
    ensures var text := ParameterText(created, expires, nonce, keyId);
            ParseSignatureInput(p, SIGNATURE_LABEL + "=" + text) ==
            Ok(SignatureMetadata(text, ParseTimestamp(created).value, ParseTimestamp(expires).value,
                                 nonce, p.parseUuid(keyId).value))
  {
    StripPrefixFinds(SIGNATURE_LABEL + "=", ParameterText(created, expires, nonce, keyId));
    assert forall i | 0 <= i < |nonce| :: NonceChar(nonce[i]) && nonce[i] != '\"';
    ParameterTextSplits(created, expires, nonce, keyId);
  }

  lemma PrintedTimestampParses(t: i64)
    requires t >= 0
    ensures ParseTimestamp(PrintInt(t)) == Some(t)
  {
    PrintedNatReadsBack(t);
  }

  /** Reading undoes printing, for every valid creation time, expiry, nonce and key ID. */
  lemma ParseUndoesPrint(p: Primitives, created: i64, expires: i64, nonce: string, keyId: Uuid)
    requires UuidLaws(p) && ValidMetadata(created, expires, nonce)
    ensures var text := SignatureParameters(created, expires, nonce, keyId);
            ParseSignatureInput(p, SIGNATURE_LABEL + "=" + text) ==
            Ok(SignatureMetadata(text, created, expires, nonce, keyId))
  {
    PrintedTimestampParses(created);
    PrintedTimestampParses(expires);
    ParameterTextParses(p, PrintInt(created), PrintInt(expires), nonce, PrintUuid(keyId));
  }

  /** `value` is the input for these four spellings, each of which reads as a valid value. */
  predicate Spells(p: Primitives, value: string, created: string, expires: string, nonce: string, keyId: string) {
    value == SIGNATURE_LABEL + "=" + ParameterText(created, expires, nonce, keyId) &&
    ParseTimestamp(created).Some? && ParseTimestamp(expires).Some? && p.parseUuid(keyId).Some? &&
    ValidMetadata(ParseTimestamp(created).value, ParseTimestamp(expires).value, nonce)
  }

  lemma AcceptedInputSpells(p: Primitives, value: string)
    requires ParseSignatureInput(p, value).Ok?
    ensures exists created, expires, nonce, keyId :: Spells(p, value, created, expires, nonce, keyId)
  {
    var parameters := StripPrefix(value, SIGNATURE_LABEL + "=").value;
    assert value == SIGNATURE_LABEL + "=" + parameters;
    SplitParametersRejoin(parameters);
    var (created, expires, nonce, keyId) := SplitParameters(parameters).value;
    assert Spells(p, value, created, expires, nonce, keyId);
  }

  /** The accepted language, exactly. */
  lemma AcceptedLanguage(p: Primitives, value: string)
    requires UuidLaws(p)
    ensures ParseSignatureInput(p, value).Ok? <==>
            exists created, expires, nonce, keyId :: Spells(p, value, created, expires, nonce, keyId)
  {
    if ParseSignatureInput(p, value).Ok? {
      AcceptedInputSpells(p, value);
    }
    if created, expires, nonce, keyId :| Spells(p, value, created, expires, nonce, keyId) {
      ParameterTextParses(p, created, expires, nonce, keyId);
    }
  }

  /** Printing what was read gives text that reads as the same four values. */
  lemma AcceptedInputReprints(p: Primitives, value: string)
    requires UuidLaws(p) && ParseSignatureInput(p, value).Ok?
    ensures var m := ParseSignatureInput(p, value).value;
            var text := SignatureParameters(m.created, m.expires, m.nonce, m.keyId);
            value == SIGNATURE_LABEL + "=" + m.parameters &&
            ParseSignatureInput(p, SIGNATURE_LABEL + "=" + text) == Ok(m.(parameters := text))
  {
    var m := ParseSignatureInput(p, value).value;
    ParseUndoesPrint(p, m.created, m.expires, m.nonce, m.keyId);
  }

  lemma {:induction false} LeadingZeroKeepsValue(s: string)
    requires AllDigits(s)
    ensures AllDigits("0" + s) && DigitsValue("0" + s) == DigitsValue(s)
  {
    if s != [] {
      LeadingZeroKeepsValue(s[..|s| - 1]);
      assert ("0" + s)[..|s|] == "0" + s[..|s| - 1];
    } else {
      assert DigitsValue("0") == 10 * DigitsValue("0"[..0]);
    }
  }

  /** The text itself need not match: a leading zero reads as the same values. */
  lemma AcceptedTextIsNotUnique(p: Primitives, created: i64, expires: i64, nonce: string, keyId: Uuid)
    requires UuidLaws(p) && ValidMetadata(created, expires, nonce)
    ensures var other := ParameterText("0" + PrintInt(created), PrintInt(expires), nonce, PrintUuid(keyId));
            other != SignatureParameters(created, expires, nonce, keyId) &&
            ParseSignatureInput(p, SIGNATURE_LABEL + "=" + other) ==
            Ok(SignatureMetadata(other, created, expires, nonce, keyId))
  {
    PrintedTimestampParses(created);
    PrintedTimestampParses(expires);
    LeadingZeroKeepsValue(PrintInt(created));
    ParameterTextParses(p, "0" + PrintInt(created), PrintInt(expires), nonce, PrintUuid(keyId));
    assert |ParameterText("0" + PrintInt(created), PrintInt(expires), nonce, PrintUuid(keyId))| ==
           |SignatureParameters(created, expires, nonce, keyId)| + 1;
  }

  // ---- The signature value ----

  function ParseSignature(p: Primitives, value: string): Result<Bytes, AuthenticationError> {
    match StripPrefix(value, SIGNATURE_LABEL + "=:")
    case None => Err(Malformed)
    case Some(rest) =>
      match StripSuffix(rest, ":")
      case None => Err(Malformed)
      case Some(encoded) =>
        match p.unbase64(encoded)
        case None => Err(Malformed)
        case Some(bytes) => if |bytes| != 64 || p.base64(bytes) != encoded then Err(Malformed) else Ok(bytes)
  }

  function PrintSignature(p: Primitives, bytes: Bytes): string {
    SIGNATURE_LABEL + "=:" + (p.base64(bytes) + ":")
  }

  /** Exactly one text is accepted for each 64-byte signature: the canonical one. */
  lemma SignatureTextIsCanonical(p: Primitives, value: string, bytes: Bytes)
    requires Base64Laws(p)
    ensures ParseSignature(p, value) == Ok(bytes) <==> |bytes| == 64 && value == PrintSignature(p, bytes)
  {
    var encoded := p.base64(bytes);
    StripPrefixFinds(SIGNATURE_LABEL + "=:", encoded + ":");
    assert (encoded + ":")[..|encoded|] == encoded && (encoded + ":")[|encoded|..] == ":";
    if ParseSignature(p, value) == Ok(bytes) {
      var rest := StripPrefix(value, SIGNATURE_LABEL + "=:").value;
      assert value == SIGNATURE_LABEL + "=:" + rest;
      assert rest == StripSuffix(rest, ":").value + ":";
    }
  }

  // ---- The signed text ----

  function Component(name: string, value: string): string { "\"" + name + "\": " + value }

  /** One component per line, with no newline after the last. */
  function Lines(names: seq<string>, values: seq<string>): string
    requires |names| == |values| > 0
  {
    if |names| == 1 then Component(names[0], values[0])
    else Component(names[0], values[0]) + "\n" + Lines(names[1..], values[1..])
  }

  predicate SingleLine(s: string) { '\n' !in s }

  predicate PlainNames(names: seq<string>) {
    forall i | 0 <= i < |names| :: SingleLine(names[i]) && IsAscii(names[i])
  }

  lemma ComponentRecovered(name: string, a: string, b: string)
    requires Component(name, a) == Component(name, b)
    ensures a == b
  {
    PrefixRecovered("\"" + name + "\": ", a, b);
  }

  /** Values none but the last of which holds a newline are recovered from their text. */
  lemma {:induction false} LinesInjective(names: seq<string>, a: seq<string>, b: seq<string>)
    requires PlainNames(names) && |names| == |a| == |b| > 0 && Lines(names, a) == Lines(names, b)
    requires forall i | 0 <= i < |a| - 1 :: SingleLine(a[i]) && SingleLine(b[i])
    ensures a == b
  {
    if |a| == 1 {
      ComponentRecovered(names[0], a[0], b[0]);
    } else {
      DelimiterRecovered(Component(names[0], a[0]), Lines(names[1..], a[1..]),
                         Component(names[0], b[0]), Lines(names[1..], b[1..]), '\n');
      ComponentRecovered(names[0], a[0], b[0]);
      LinesInjective(names[1..], a[1..], b[1..]);
      assert a == [a[0]] + a[1..] && b == [b[0]] + b[1..];
    }
  }

  lemma {:induction false} LinesAreAscii(names: seq<string>, values: seq<string>)
    requires |names| == |values| > 0 && PlainNames(names)
    requires forall i | 0 <= i < |values| :: IsAscii(values[i])
    ensures IsAscii(Lines(names, values))
  {
    if |names| > 1 { LinesAreAscii(names[1..], values[1..]); }
    assert IsAscii(Component(names[0], values[0]));
  }

  function ContentDigest(p: Primitives, body: Bytes): string {
    "sha-256=:" + p.base64(p.sha256(body)) + ":"
  }

  /** The five lines whose digest binds a request ID: no instance, request ID or parameters. */
  const BOUND_NAMES := ["@method", "@target-uri", "content-digest"] + ["content-type", "infernal-service-id"]
  const REMAINING_NAMES := ["infernal-instance-id", "infernal-request-id"] + ["@signature-params"]

  lemma PlainNamesJoined(a: seq<string>, b: seq<string>)
    requires PlainNames(a) && PlainNames(b)
    ensures PlainNames(a + b)
  {
  }

  lemma FirstNamesArePlain()
    ensures PlainNames(["@method", "@target-uri", "content-digest"])
  {
  }

  lemma LastBoundNamesArePlain()
    ensures PlainNames(["content-type", "infernal-service-id"])
  {
  }

  lemma RemainingNamesArePlain()
    ensures PlainNames(["infernal-instance-id", "infernal-request-id"])
    ensures PlainNames(["@signature-params"])
  {
  }

  lemma BoundNamesArePlain()
    ensures PlainNames(BOUND_NAMES)
  {
    FirstNamesArePlain();
    LastBoundNamesArePlain();
    hide PlainNames;
    PlainNamesJoined(["@method", "@target-uri", "content-digest"], ["content-type", "infernal-service-id"]);
  }

  lemma NamesArePlain()
    ensures PlainNames(BOUND_NAMES + REMAINING_NAMES)
  {
    BoundNamesArePlain();
    RemainingNamesArePlain();
    hide PlainNames;
    PlainNamesJoined(["infernal-instance-id", "infernal-request-id"], ["@signature-params"]);
    PlainNamesJoined(BOUND_NAMES, REMAINING_NAMES);
  }

  function SignedValues(parts: ServiceRequestParts, serviceId: Uuid, instanceId: Uuid,
                        digest: string, parameters: string): seq<string>
  {
    [parts.httpMethod, TargetUri(parts), digest, parts.contentType,
     PrintUuid(serviceId), PrintUuid(instanceId), PrintUuid(parts.requestId), parameters]
  }

  function SignatureBase(parts: ServiceRequestParts, serviceId: Uuid, instanceId: Uuid,
                         digest: string, parameters: string): string
  {
    Lines(BOUND_NAMES + REMAINING_NAMES, SignedValues(parts, serviceId, instanceId, digest, parameters))
  }

  function BoundValues(parts: ServiceRequestParts, serviceId: Uuid, digest: string): seq<string> {
    [parts.httpMethod, TargetUri(parts), digest, parts.contentType, PrintUuid(serviceId)]
  }

  function FingerprintText(parts: ServiceRequestParts, serviceId: Uuid, digest: string): string {
    Lines(BOUND_NAMES, BoundValues(parts, serviceId, digest))
  }

  // ---- The texts themselves, written out ----

  /** Each part on a line of its own. */
  function JoinLines(lines: seq<string>): string
    requires lines != []
  {
    if |lines| == 1 then lines[0] else lines[0] + "\n" + JoinLines(lines[1..])
  }

  /** The lines of the signed text (section 2.5 of RFC 9421). */
  function SignedLines(parts: ServiceRequestParts, serviceId: Uuid, instanceId: Uuid, digest: string, parameters: string)
    : seq<string>
  {
    ["\"@method\": " + parts.httpMethod,
     "\"@target-uri\": " + ("https://" + (parts.authority + parts.pathAndQuery)),
     "\"content-digest\": " + digest,
     "\"content-type\": " + parts.contentType,
     "\"infernal-service-id\": " + PrintUuid(serviceId),
     "\"infernal-instance-id\": " + PrintUuid(instanceId),
     "\"infernal-request-id\": " + PrintUuid(parts.requestId),
     "\"@signature-params\": " + parameters]
  }

  lemma OneMoreLine(names: seq<string>, values: seq<string>, lines: seq<string>)
    requires |names| == |values| == |lines| > 1
    requires lines[0] == "\"" + names[0] + "\": " + values[0]
    requires Lines(names[1..], values[1..]) == JoinLines(lines[1..])
    ensures Lines(names, values) == JoinLines(lines)
  {
  }

  lemma {:induction false} NamedLines(names: seq<string>, values: seq<string>, lines: seq<string>)
    requires |names| == |values| == |lines| > 0
    requires forall i | 0 <= i < |names| :: lines[i] == "\"" + names[i] + "\": " + values[i]
    ensures Lines(names, values) == JoinLines(lines)
  {
    if |names| > 1 {
      NamedLines(names[1..], values[1..], lines[1..]);
      OneMoreLine(names, values, lines);
    }
  }

  lemma BoundNamesAre()
    ensures |BOUND_NAMES| == 5
    ensures BOUND_NAMES[0] == "@method" && BOUND_NAMES[1] == "@target-uri" && BOUND_NAMES[2] == "content-digest"
    ensures BOUND_NAMES[3] == "content-type" && BOUND_NAMES[4] == "infernal-service-id"
  {
  }

  lemma RemainingNamesAre()
    ensures |REMAINING_NAMES| == 3
    ensures REMAINING_NAMES[0] == "infernal-instance-id" && REMAINING_NAMES[1] == "infernal-request-id"
    ensures REMAINING_NAMES[2] == "@signature-params"
  {
  }

  lemma FirstNamesQuoted()
    ensures "\"" + "@method" + "\": " == "\"@method\": "
    ensures "\"" + "@target-uri" + "\": " == "\"@target-uri\": "
    ensures "\"" + "content-digest" + "\": " == "\"content-digest\": "
    ensures "\"" + "content-type" + "\": " == "\"content-type\": "
  {
  }

  lemma ServiceNameQuoted()
    ensures "\"" + "infernal-service-id" + "\": " == "\"infernal-service-id\": "
  {
  }

  lemma InstanceNameQuoted()
    ensures "\"" + "infernal-instance-id" + "\": " == "\"infernal-instance-id\": "
  {
  }

  lemma LastNamesQuoted()
    ensures "\"" + "infernal-request-id" + "\": " == "\"infernal-request-id\": "
    ensures "\"" + "@signature-params" + "\": " == "\"@signature-params\": "
  {
  }

  lemma SignedLinesAreNamed(parts: ServiceRequestParts, serviceId: Uuid, instanceId: Uuid, digest: string, parameters: string)
    ensures var lines := SignedLines(parts, serviceId, instanceId, digest, parameters);
            var values := SignedValues(parts, serviceId, instanceId, digest, parameters);
            var names := BOUND_NAMES + REMAINING_NAMES;
            |lines| == |names| == |values| == 8 &&
            forall i | 0 <= i < 8 :: lines[i] == "\"" + names[i] + "\": " + values[i]
  {
    hide PrintUuid;
    BoundNamesAre();
    RemainingNamesAre();
    FirstNamesQuoted();
    ServiceNameQuoted();
    InstanceNameQuoted();
    LastNamesQuoted();
  }

  /** The signed text is these eight lines, and the replay fingerprint is over the first five of them. */
  lemma SignedTextIs(parts: ServiceRequestParts, serviceId: Uuid, instanceId: Uuid, digest: string, parameters: string)
    ensures var lines := SignedLines(parts, serviceId, instanceId, digest, parameters);
            |lines| == 8 &&
            SignatureBase(parts, serviceId, instanceId, digest, parameters) == JoinLines(lines) &&
            FingerprintText(parts, serviceId, digest) == JoinLines(lines[..5])
  {
    hide SignedLines, Lines, JoinLines, PrintUuid, TargetUri;
    BoundNamesAre();
    var lines := SignedLines(parts, serviceId, instanceId, digest, parameters);
    var names, values := BOUND_NAMES + REMAINING_NAMES, SignedValues(parts, serviceId, instanceId, digest, parameters);
    SignedLinesAreNamed(parts, serviceId, instanceId, digest, parameters);
    NamedLines(names, values, lines);
    assert names[..5] == BOUND_NAMES && values[..5] == BoundValues(parts, serviceId, digest);
    NamedLines(names[..5], values[..5], lines[..5]);
  }

  lemma {:induction false} JoinedLinesSplit(lines: seq<string>)
    requires lines != [] && forall i | 0 <= i < |lines| :: '\n' !in lines[i]
    ensures SplitOn(JoinLines(lines), "\n") == lines
  {
    if |lines| == 1 {
      NoNewlineNoSplit(lines[0]);
    } else {
      SplitOnceFinds(lines[0], "\n", JoinLines(lines[1..]));
      JoinedLinesSplit(lines[1..]);
    }
  }

  lemma NoNewlineNoSplit(s: string)
    requires '\n' !in s
    ensures SplitOn(s, "\n") == [s]
  {
    FindFromIsFirst(s, "\n", 0);
    forall i: int ensures !OccursAt(s, "\n", i) {
      if 0 <= i < |s| { assert s[i..i + 1] == [s[i]]; }
    }
  }

  /** Split at its newlines, the signed text of a valid request is exactly the eight lines. */
  lemma SignedTextSplits(parts: ServiceRequestParts, serviceId: Uuid, instanceId: Uuid, digest: string, parameters: string)
    requires ValidParts(parts) && SingleLine(digest) && SingleLine(parameters)
    ensures SplitOn(SignatureBase(parts, serviceId, instanceId, digest, parameters), "\n") ==
            SignedLines(parts, serviceId, instanceId, digest, parameters)
  {
    SignedTextIs(parts, serviceId, instanceId, digest, parameters);
    ValidPartsHaveNoNewline(parts);
    UuidTextIsSingleLine(serviceId);
    UuidTextIsSingleLine(instanceId);
    UuidTextIsSingleLine(parts.requestId);
    LinesAreSingle(parts, serviceId, instanceId, digest, parameters);
    hide SignatureBase, SignedLines;
    JoinedLinesSplit(SignedLines(parts, serviceId, instanceId, digest, parameters));
  }

  lemma LinesAreSingle(parts: ServiceRequestParts, serviceId: Uuid, instanceId: Uuid, digest: string, parameters: string)
    requires SingleLine(parts.httpMethod) && SingleLine(TargetUri(parts)) && SingleLine(parts.contentType)
    requires SingleLine(digest) && SingleLine(parameters) && SingleLine(PrintUuid(serviceId))
    requires SingleLine(PrintUuid(instanceId)) && SingleLine(PrintUuid(parts.requestId))
    ensures var lines := SignedLines(parts, serviceId, instanceId, digest, parameters);
            |lines| == 8 && forall i | 0 <= i < 8 :: '\n' !in lines[i]
  {
    hide PrintUuid;
  }

  lemma CoveredNames()
    ensures "(\"@method\"" == "(" + "\"@method\"" && " \"@target-uri\"" == " " + "\"@target-uri\""
    ensures " \"content-digest\"" == " " + "\"content-digest\"" && " \"content-type\"" == " " + "\"content-type\""
  {
  }

  lemma CoveredIdNames()
    ensures " \"infernal-service-id\"" == " " + "\"infernal-service-id\""
    ensures " \"infernal-instance-id\"" == " " + "\"infernal-instance-id\""
  {
  }

  /** The parameters list the components the first seven lines hold, in their order. */
  lemma CoveredComponentsAreTheLines()
    ensures COVERED_COMPONENTS ==
            ("(" + "\"@method\"") + (" " + "\"@target-uri\"") + (" " + "\"content-digest\"") +
            (" " + "\"content-type\"") + (" " + "\"infernal-service-id\"") + (" " + "\"infernal-instance-id\"") +
            " \"infernal-request-id\")"
  {
    CoveredNames();
    CoveredIdNames();
  }

  lemma ValidPartsHaveNoNewline(p: ServiceRequestParts)
    requires ValidParts(p)
    ensures SingleLine(p.httpMethod) && SingleLine(TargetUri(p)) && SingleLine(p.contentType)
    ensures IsAscii(p.httpMethod) && IsAscii(TargetUri(p)) && IsAscii(p.contentType)
  {
  }

  lemma UuidTextIsSingleLine(u: Uuid)
    ensures SingleLine(PrintUuid(u)) && IsAscii(PrintUuid(u))
  {
  }

  lemma SignedValuesAreSingle(parts: ServiceRequestParts, serviceId: Uuid, instanceId: Uuid,
                              digest: string, parameters: string)
    requires ValidParts(parts) && SingleLine(digest)
    ensures forall i | 0 <= i < 7 :: SingleLine(SignedValues(parts, serviceId, instanceId, digest, parameters)[i])
  {
    ValidPartsHaveNoNewline(parts);
    UuidTextIsSingleLine(serviceId);
    UuidTextIsSingleLine(instanceId);
    UuidTextIsSingleLine(parts.requestId);
  }

  lemma SignedValuesRecovered(names: seq<string>,
      a: ServiceRequestParts, serviceA: Uuid, instanceA: Uuid, digestA: string, parametersA: string,
      b: ServiceRequestParts, serviceB: Uuid, instanceB: Uuid, digestB: string, parametersB: string)
    requires |names| == 8 && PlainNames(names)
    requires ValidParts(a) && ValidParts(b) && SingleLine(digestA) && SingleLine(digestB)
    requires Lines(names, SignedValues(a, serviceA, instanceA, digestA, parametersA)) ==
             Lines(names, SignedValues(b, serviceB, instanceB, digestB, parametersB))
    ensures a.httpMethod == b.httpMethod && TargetUri(a) == TargetUri(b) && digestA == digestB
    ensures a.contentType == b.contentType && PrintUuid(a.requestId) == PrintUuid(b.requestId)
    ensures PrintUuid(serviceA) == PrintUuid(serviceB) && PrintUuid(instanceA) == PrintUuid(instanceB)
    ensures parametersA == parametersB
  {
    SignedValuesAreSingle(a, serviceA, instanceA, digestA, parametersA);
    SignedValuesAreSingle(b, serviceB, instanceB, digestB, parametersB);
    var x := SignedValues(a, serviceA, instanceA, digestA, parametersA);
    var y := SignedValues(b, serviceB, instanceB, digestB, parametersB);
    LinesInjective(names, x, y);
    assert x[0] == y[0] && x[1] == y[1] && x[2] == y[2] && x[3] == y[3];
    assert x[4] == y[4] && x[5] == y[5] && x[6] == y[6] && x[7] == y[7];
  }

  /** Equal signed text means every covered component and every parameter is equal. */
  lemma SignatureBaseInjective(
      a: ServiceRequestParts, serviceA: Uuid, instanceA: Uuid, digestA: string, parametersA: string,
      b: ServiceRequestParts, serviceB: Uuid, instanceB: Uuid, digestB: string, parametersB: string)
    requires ValidParts(a) && ValidParts(b) && SingleLine(digestA) && SingleLine(digestB)
    requires SignatureBase(a, serviceA, instanceA, digestA, parametersA) ==
             SignatureBase(b, serviceB, instanceB, digestB, parametersB)
    ensures a.httpMethod == b.httpMethod && a.authority == b.authority && a.pathAndQuery == b.pathAndQuery
    ensures a.contentType == b.contentType && a.requestId == b.requestId
    ensures digestA == digestB && serviceA == serviceB && instanceA == instanceB && parametersA == parametersB
  {
    NamesArePlain();
    SignedValuesRecovered(BOUND_NAMES + REMAINING_NAMES,
                          a, serviceA, instanceA, digestA, parametersA, b, serviceB, instanceB, digestB, parametersB);
    TargetUriRecovered(a, b);
    PrintedUuidIdentifies(serviceA, serviceB);
    PrintedUuidIdentifies(instanceA, instanceB);
    PrintedUuidIdentifies(a.requestId, b.requestId);
  }

  lemma FingerprintTextInjective(a: ServiceRequestParts, serviceA: Uuid, digestA: string,
                                 b: ServiceRequestParts, serviceB: Uuid, digestB: string)
    requires ValidParts(a) && ValidParts(b) && SingleLine(digestA) && SingleLine(digestB)
    requires FingerprintText(a, serviceA, digestA) == FingerprintText(b, serviceB, digestB)
    ensures a.httpMethod == b.httpMethod && a.authority == b.authority && a.pathAndQuery == b.pathAndQuery
    ensures a.contentType == b.contentType && digestA == digestB && serviceA == serviceB
  {
    ValidPartsHaveNoNewline(a);
    ValidPartsHaveNoNewline(b);
    BoundNamesArePlain();
    var x, y := BoundValues(a, serviceA, digestA), BoundValues(b, serviceB, digestB);
    LinesInjective(BOUND_NAMES, x, y);
    assert x[1] == y[1] && x[4] == y[4];
    TargetUriRecovered(a, b);
    PrintedUuidIdentifies(serviceA, serviceB);
    assert x[0] == y[0] && x[2] == y[2] && x[3] == y[3];
  }

  // ---- Signing and verifying ----

  datatype SignedServiceRequest = SignedServiceRequest(
    parts: ServiceRequestParts, serviceId: Uuid, instanceId: Uuid,
    contentDigest: string, signatureInput: string, signature: string)

  datatype VerifiedServiceRequest = VerifiedServiceRequest(
    serviceId: Uuid, instanceId: Uuid, keyId: Uuid, requestId: Uuid,
    created: i64, expires: i64, nonceDigest: Bytes, requestFingerprint: Bytes)

  predicate IsStale(created: i64, expires: i64, now: i64) {
    now < 0 || created > SaturatingAdd(now, CLOCK_SKEW_SECONDS) || SaturatingAdd(expires, CLOCK_SKEW_SECONDS) < now
  }

  function RequestFingerprint(p: Primitives, r: SignedServiceRequest): Bytes {
    p.sha256(Utf8(FingerprintText(r.parts, r.serviceId, r.contentDigest)))
  }

  /** `find` answers the registry's eligibility lookup for an instance at a time. */
  function Verify(p: Primitives, find: (Uuid, i64) -> Option<PublicKey>, r: SignedServiceRequest, now: i64)
    : Result<VerifiedServiceRequest, AuthenticationError>
  {
    match ParseSignatureInput(p, r.signatureInput)
    case Err(e) => Err(e)
    case Ok(m) =>
      if IsStale(m.created, m.expires, now) then Err(NotFresh) else
      match find(r.instanceId, now)
      case None => Err(Registry)
      case Some(key) =>
        if key.serviceId != r.serviceId || key.instanceId != r.instanceId || key.keyId != m.keyId then
          Err(CredentialMismatch)
        else if ContentDigest(p, r.parts.body) != r.contentDigest then Err(InvalidContentDigest)
        else
          match ParseSignature(p, r.signature)
          case Err(e) => Err(e)
          case Ok(signature) =>
            var base := SignatureBase(r.parts, r.serviceId, r.instanceId, r.contentDigest, m.parameters);
            if !p.verifies(key, Utf8(base), signature) then Err(InvalidSignature)
            else Ok(VerifiedServiceRequest(
                      r.serviceId, r.instanceId, m.keyId, r.parts.requestId, m.created, m.expires,
                      p.sha256(Utf8(m.nonce)), RequestFingerprint(p, r)))
  }

  function Sign(p: Primitives, parts: ServiceRequestParts, key: PublicKey, sign: Bytes -> Bytes,
                created: i64, expires: i64, nonce: string): Result<SignedServiceRequest, AuthenticationError>
  {
    if !ValidMetadata(created, expires, nonce) then Err(Malformed)
    else
      var digest := ContentDigest(p, parts.body);
      var parameters := SignatureParameters(created, expires, nonce, key.keyId);
      var base := SignatureBase(parts, key.serviceId, key.instanceId, digest, parameters);
      Ok(SignedServiceRequest(parts, key.serviceId, key.instanceId, digest,
                              SIGNATURE_LABEL + "=" + parameters, PrintSignature(p, sign(Utf8(base)))))
  }

  lemma StaleOutsideWindow(created: i64, expires: i64, now: i64)
    ensures IsStale(created, expires, now) <==> !(0 <= now && created - 5 <= now <= expires + 5)
  {
  }

  lemma SignedRequestParses(p: Primitives, parts: ServiceRequestParts, key: PublicKey, sign: Bytes -> Bytes,
                            created: i64, expires: i64, nonce: string)
    requires Laws(p) && ValidMetadata(created, expires, nonce) && forall m :: |sign(m)| == 64
    ensures var r := Sign(p, parts, key, sign, created, expires, nonce).value;
            var parameters := SignatureParameters(created, expires, nonce, key.keyId);
            ParseSignatureInput(p, r.signatureInput) ==
              Ok(SignatureMetadata(parameters, created, expires, nonce, key.keyId)) &&
            ParseSignature(p, r.signature) ==
              Ok(sign(Utf8(SignatureBase(parts, key.serviceId, key.instanceId, ContentDigest(p, parts.body), parameters))))
  {
    ParseUndoesPrint(p, created, expires, nonce, key.keyId);
    var base := SignatureBase(parts, key.serviceId, key.instanceId, ContentDigest(p, parts.body),
                              SignatureParameters(created, expires, nonce, key.keyId));
    SignatureTextIsCanonical(p, PrintSignature(p, sign(Utf8(base))), sign(Utf8(base)));
  }

  /**
   A request signed with a registered key verifies exactly from five seconds before its creation to five
   seconds after its expiry, and yields exactly what was signed.
   */
  lemma SignedRequestVerifies(p: Primitives, find: (Uuid, i64) -> Option<PublicKey>,
                              parts: ServiceRequestParts, key: PublicKey, sign: Bytes -> Bytes,
                              created: i64, expires: i64, nonce: string, now: i64)
    requires Laws(p)
    requires forall m :: |sign(m)| == 64 && p.verifies(key, m, sign(m))
    requires find(key.instanceId, now) == Some(key)
    requires ValidMetadata(created, expires, nonce)
    ensures var r := Sign(p, parts, key, sign, created, expires, nonce).value;
            Verify(p, find, r, now) ==
            if 0 <= now && created - 5 <= now <= expires + 5 then
              Ok(VerifiedServiceRequest(key.serviceId, key.instanceId, key.keyId, parts.requestId, created, expires,
                                        p.sha256(Utf8(nonce)), RequestFingerprint(p, r)))
            else Err(NotFresh)
  {
    hide Laws, IsStale, ParseSignatureInput, ParseSignature, PrintSignature, SignatureBase, SignatureParameters, ContentDigest,
      RequestFingerprint;
    SignedRequestParses(p, parts, key, sign, created, expires, nonce);
    StaleOutsideWindow(created, expires, now);
  }

  lemma ParsedParametersAreTheInput(p: Primitives, value: string)
    requires ParseSignatureInput(p, value).Ok?
    ensures value == SIGNATURE_LABEL + "=" + ParseSignatureInput(p, value).value.parameters
  {
    var prefix := SIGNATURE_LABEL + "=";
    assert value == value[..|prefix|] + value[|prefix|..];
  }

  /** What a request that verified is known to satisfy. */
  lemma VerifiedMeans(p: Primitives, find: (Uuid, i64) -> Option<PublicKey>, r: SignedServiceRequest, now: i64)
    requires Verify(p, find, r, now).Ok?
    ensures ParseSignatureInput(p, r.signatureInput).Ok?
    ensures var m := ParseSignatureInput(p, r.signatureInput).value;
            r.contentDigest == ContentDigest(p, r.parts.body) &&
            Verify(p, find, r, now) ==
              Ok(VerifiedServiceRequest(r.serviceId, r.instanceId, m.keyId, r.parts.requestId, m.created, m.expires,
                                        p.sha256(Utf8(m.nonce)), RequestFingerprint(p, r)))
  {
    hide ParseSignatureInput, ParseSignature, SignatureBase, RequestFingerprint, IsStale, ContentDigest;
  }

  /** Everything a genuine request needs: a current signature, by the registered key it names, over this very request. */
  ghost predicate Genuine(p: Primitives, find: (Uuid, i64) -> Option<PublicKey>, r: SignedServiceRequest, now: i64,
                          m: SignatureMetadata, key: PublicKey, signature: Bytes)
  {
    ParseSignatureInput(p, r.signatureInput) == Ok(m) &&
    0 <= now && m.created - 5 <= now <= m.expires + 5 &&
    find(r.instanceId, now) == Some(key) &&
    key.serviceId == r.serviceId && key.instanceId == r.instanceId && key.keyId == m.keyId &&
    r.contentDigest == "sha-256=:" + p.base64(p.sha256(r.parts.body)) + ":" &&
    |signature| == 64 && r.signature == "sig1=:" + (p.base64(signature) + ":") &&
    p.verifies(key, Utf8(JoinLines(SignedLines(r.parts, r.serviceId, r.instanceId, r.contentDigest, m.parameters))), signature)
  }

  /** What is known of a genuine request. */
  function Known(p: Primitives, r: SignedServiceRequest, m: SignatureMetadata): VerifiedServiceRequest {
    VerifiedServiceRequest(
      r.serviceId, r.instanceId, m.keyId, r.parts.requestId, m.created, m.expires, p.sha256(Utf8(m.nonce)),
      p.sha256(Utf8(JoinLines(SignedLines(r.parts, r.serviceId, r.instanceId, r.contentDigest, m.parameters)[..5]))))
  }

  lemma SignatureTextIs(p: Primitives, signature: Bytes)
    ensures PrintSignature(p, signature) == "sig1=:" + (p.base64(signature) + ":")
  {
    assert "sig1" + "=:" == "sig1=:";
  }

  lemma GenuineVerifies(p: Primitives, find: (Uuid, i64) -> Option<PublicKey>, r: SignedServiceRequest, now: i64,
                        m: SignatureMetadata, key: PublicKey, signature: Bytes)
    requires Base64Laws(p) && Genuine(p, find, r, now, m, key, signature)
    ensures Verify(p, find, r, now) == Ok(Known(p, r, m))
  {
    hide ParseSignatureInput, ParseSignature, SignatureBase, SignedLines, JoinLines, PrintSignature, IsStale, Base64Laws,
      FingerprintText;
    StaleOutsideWindow(m.created, m.expires, now);
    SignatureTextIs(p, signature);
    SignatureTextIsCanonical(p, r.signature, signature);
    SignedTextIs(r.parts, r.serviceId, r.instanceId, r.contentDigest, m.parameters);
  }

  lemma VerifiedIsGenuine(p: Primitives, find: (Uuid, i64) -> Option<PublicKey>, r: SignedServiceRequest, now: i64)
    requires Base64Laws(p) && Verify(p, find, r, now).Ok?
    ensures ParseSignatureInput(p, r.signatureInput).Ok? && find(r.instanceId, now).Some? && ParseSignature(p, r.signature).Ok?
    ensures Genuine(p, find, r, now, ParseSignatureInput(p, r.signatureInput).value, find(r.instanceId, now).value,
                    ParseSignature(p, r.signature).value)
  {
    hide ParseSignatureInput, ParseSignature, SignatureBase, SignedLines, JoinLines, PrintSignature, IsStale, Base64Laws,
      FingerprintText;
    var m, signature := ParseSignatureInput(p, r.signatureInput).value, ParseSignature(p, r.signature).value;
    StaleOutsideWindow(m.created, m.expires, now);
    SignatureTextIs(p, signature);
    SignatureTextIsCanonical(p, r.signature, signature);
    SignedTextIs(r.parts, r.serviceId, r.instanceId, r.contentDigest, m.parameters);
  }

  /** A request verifies exactly when it is genuine, and then as exactly what is known of it. */
  lemma VerifiesExactly(p: Primitives, find: (Uuid, i64) -> Option<PublicKey>, r: SignedServiceRequest, now: i64)
    requires Base64Laws(p)
    ensures Verify(p, find, r, now).Ok? <==> exists m, key, signature :: Genuine(p, find, r, now, m, key, signature)
    ensures forall m, key, signature | Genuine(p, find, r, now, m, key, signature) ::
              Verify(p, find, r, now) == Ok(Known(p, r, m))
  {
    hide Genuine, Verify, Base64Laws, ParseSignatureInput, ParseSignature, Known;
    forall m, key, signature | Genuine(p, find, r, now, m, key, signature)
      ensures Verify(p, find, r, now) == Ok(Known(p, r, m))
    {
      GenuineVerifies(p, find, r, now, m, key, signature);
    }
    if Verify(p, find, r, now).Ok? { VerifiedIsGenuine(p, find, r, now); }
  }

  lemma {:induction false} ParseErrors(p: Primitives, value: string)
    ensures ParseSignatureInput(p, value).Err? ==> ParseSignatureInput(p, value) == Err(Malformed)
    ensures ParseSignature(p, value).Err? ==> ParseSignature(p, value) == Err(Malformed)
  {
    hide SplitParameters;
  }

  /** Why a request is refused: the first of the checks it fails. */
  lemma RefusedExactly(p: Primitives, find: (Uuid, i64) -> Option<PublicKey>, r: SignedServiceRequest, now: i64)
    requires Verify(p, find, r, now).Err?
    ensures Verify(p, find, r, now).error ==
            match ParseSignatureInput(p, r.signatureInput)
            case Err(_) => Malformed
            case Ok(m) =>
              if !(0 <= now && m.created - 5 <= now <= m.expires + 5) then NotFresh
              else if find(r.instanceId, now).None? then Registry
              else
                var key := find(r.instanceId, now).value;
                if key.serviceId != r.serviceId || key.instanceId != r.instanceId || key.keyId != m.keyId then
                  CredentialMismatch
                else if r.contentDigest != "sha-256=:" + p.base64(p.sha256(r.parts.body)) + ":" then InvalidContentDigest
                else if ParseSignature(p, r.signature).Err? then Malformed
                else InvalidSignature
  {
    hide ParseSignatureInput, ParseSignature, SignatureBase, RequestFingerprint, IsStale;
    ParseErrors(p, r.signatureInput);
    ParseErrors(p, r.signature);
    if ParseSignatureInput(p, r.signatureInput).Ok? {
      var m := ParseSignatureInput(p, r.signatureInput).value;
      StaleOutsideWindow(m.created, m.expires, now);
    }
  }

  /** What a signer sends, written out. */
  lemma SignsTheseTexts(p: Primitives, parts: ServiceRequestParts, key: PublicKey, sign: Bytes -> Bytes,
                        created: i64, expires: i64, nonce: string)
    ensures var parameters := COVERED_COMPONENTS + (";created=" + (PrintInt(created) + (";expires=" + (PrintInt(expires) +
                              (";nonce=\"" + (nonce + ("\";keyid=\"" + (PrintUuid(key.keyId) + "\";alg=\"ed25519\""))))))));
            var digest := "sha-256=:" + p.base64(p.sha256(parts.body)) + ":";
            Sign(p, parts, key, sign, created, expires, nonce) ==
            if !ValidMetadata(created, expires, nonce) then Err(Malformed)
            else Ok(SignedServiceRequest(
                      parts, key.serviceId, key.instanceId, digest, "sig1=" + parameters,
                      "sig1=:" + (p.base64(sign(Utf8(JoinLines(
                        SignedLines(parts, key.serviceId, key.instanceId, digest, parameters))))) + ":")))
  {
    hide ValidMetadata, PrintInt, PrintUuid, SignatureBase, SignedLines, JoinLines;
    var parameters := SignatureParameters(created, expires, nonce, key.keyId);
    ParametersAre(created, expires, nonce, key.keyId);
    SignatureTextIs(p, sign(Utf8(SignatureBase(parts, key.serviceId, key.instanceId, ContentDigest(p, parts.body), parameters))));
    SignedTextIs(parts, key.serviceId, key.instanceId, ContentDigest(p, parts.body), parameters);
    assert "sig1" + "=" == "sig1=";
  }

  lemma ParametersAre(created: i64, expires: i64, nonce: string, keyId: Uuid)
    ensures SignatureParameters(created, expires, nonce, keyId) ==
            COVERED_COMPONENTS + (";created=" + (PrintInt(created) + (";expires=" + (PrintInt(expires) +
            (";nonce=\"" + (nonce + ("\";keyid=\"" + (PrintUuid(keyId) + "\";alg=\"ed25519\""))))))))
  {
    hide PrintInt, PrintUuid;
    assert "\";alg=\"" + "ed25519\"" == "\";alg=\"ed25519\"";
    ParameterTail(PrintInt(created), PrintInt(expires), nonce, PrintUuid(keyId));
  }

  lemma ParameterTail(c: string, e: string, n: string, k: string)
    ensures ParameterText(c, e, n, k) ==
            COVERED_COMPONENTS + (";created=" + (c + (";expires=" + (e +
            (";nonce=\"" + (n + ("\";keyid=\"" + (k + ("\";alg=\"" + "ed25519\"")))))))))
  {
    var a4 := k + "\";alg=\"" + "ed25519\"";
    assert a4 == k + ("\";alg=\"" + "ed25519\"");
    var a3 := n + "\";keyid=\"" + a4;
    assert a3 == n + ("\";keyid=\"" + a4);
    var a2 := e + ";nonce=\"" + a3;
    assert a2 == e + (";nonce=\"" + a3);
    var a1 := c + ";expires=" + a2;
    assert a1 == c + (";expires=" + a2);
  }

  lemma DigestIsPlain(p: Primitives, body: Bytes)
    requires Base64Laws(p)
    ensures IsAscii(ContentDigest(p, body)) && SingleLine(ContentDigest(p, body))
  {
    var digest := p.base64(p.sha256(body));
    assert IsAscii(digest) && '\n' !in digest;
  }

  lemma DigestRecovered(p: Primitives, a: Bytes, b: Bytes)
    requires Base64Laws(p) && ContentDigest(p, a) == ContentDigest(p, b)
    ensures p.sha256(a) == p.sha256(b)
  {
    var x, y := p.base64(p.sha256(a)), p.base64(p.sha256(b));
    assert ContentDigest(p, a)[9..|ContentDigest(p, a)| - 1] == x;
    assert ContentDigest(p, b)[9..|ContentDigest(p, b)| - 1] == y;
    assert p.unbase64(x) == Some(p.sha256(a)) && p.unbase64(y) == Some(p.sha256(b));
  }

  /** Two verified requests over the same signed text are the same request, up to a digest collision. */
  lemma SignatureCoversRequest(p: Primitives,
      findR: (Uuid, i64) -> Option<PublicKey>, r: SignedServiceRequest, nowR: i64,
      findS: (Uuid, i64) -> Option<PublicKey>, s: SignedServiceRequest, nowS: i64)
    requires Laws(p) && ValidParts(r.parts) && ValidParts(s.parts)
    requires Verify(p, findR, r, nowR).Ok? && Verify(p, findS, s, nowS).Ok?
    requires p.sha256(r.parts.body) == p.sha256(s.parts.body) ==> r.parts.body == s.parts.body
    requires ParseSignatureInput(p, r.signatureInput).Ok? && ParseSignatureInput(p, s.signatureInput).Ok?
    requires SignatureBase(r.parts, r.serviceId, r.instanceId, r.contentDigest,
                           ParseSignatureInput(p, r.signatureInput).value.parameters) ==
             SignatureBase(s.parts, s.serviceId, s.instanceId, s.contentDigest,
                           ParseSignatureInput(p, s.signatureInput).value.parameters)
    ensures r.parts == s.parts && r.signatureInput == s.signatureInput
    ensures Verify(p, findR, r, nowR) == Verify(p, findS, s, nowS)
  {
    VerifiedMeans(p, findR, r, nowR);
    VerifiedMeans(p, findS, s, nowS);
    ParsedParametersAreTheInput(p, r.signatureInput);
    ParsedParametersAreTheInput(p, s.signatureInput);
    DigestIsPlain(p, r.parts.body);
    DigestIsPlain(p, s.parts.body);
    SignatureBaseInjective(
      r.parts, r.serviceId, r.instanceId, r.contentDigest, ParseSignatureInput(p, r.signatureInput).value.parameters,
      s.parts, s.serviceId, s.instanceId, s.contentDigest, ParseSignatureInput(p, s.signatureInput).value.parameters);
    DigestRecovered(p, r.parts.body, s.parts.body);
  }

  /** The digest function tells apart the fingerprint texts of these two requests, and their bodies. */
  ghost predicate NoCollision(p: Primitives, r: SignedServiceRequest, s: SignedServiceRequest) {
    var x, y := Utf8(FingerprintText(r.parts, r.serviceId, r.contentDigest)),
                Utf8(FingerprintText(s.parts, s.serviceId, s.contentDigest));
    (p.sha256(x) == p.sha256(y) ==> x == y) &&
    (p.sha256(r.parts.body) == p.sha256(s.parts.body) ==> r.parts.body == s.parts.body)
  }

  lemma FingerprintTextIsAscii(p: Primitives, parts: ServiceRequestParts, serviceId: Uuid)
    requires Base64Laws(p) && ValidParts(parts)
    ensures IsAscii(FingerprintText(parts, serviceId, ContentDigest(p, parts.body)))
  {
    ValidPartsHaveNoNewline(parts);
    DigestIsPlain(p, parts.body);
    BoundNamesArePlain();
    LinesAreAscii(BOUND_NAMES, BoundValues(parts, serviceId, ContentDigest(p, parts.body)));
  }

  /**
   Two verified requests with one fingerprint carry the same method, URI, content type and body: they
   differ at most in instance, request ID and signature.
   */
  lemma FingerprintBindsBody(p: Primitives,
      findR: (Uuid, i64) -> Option<PublicKey>, r: SignedServiceRequest, nowR: i64,
      findS: (Uuid, i64) -> Option<PublicKey>, s: SignedServiceRequest, nowS: i64)
    requires Laws(p) && ValidParts(r.parts) && ValidParts(s.parts)
    requires Verify(p, findR, r, nowR).Ok? && Verify(p, findS, s, nowS).Ok?
    requires RequestFingerprint(p, r) == RequestFingerprint(p, s)
    requires NoCollision(p, r, s)
    ensures r.serviceId == s.serviceId && r.parts.(requestId := s.parts.requestId) == s.parts
  {
    VerifiedMeans(p, findR, r, nowR);
    VerifiedMeans(p, findS, s, nowS);
    FingerprintTextIsAscii(p, r.parts, r.serviceId);
    FingerprintTextIsAscii(p, s.parts, s.serviceId);
    DigestIsPlain(p, r.parts.body);
    DigestIsPlain(p, s.parts.body);
    Utf8InjectiveOnAscii(FingerprintText(r.parts, r.serviceId, r.contentDigest),
                         FingerprintText(s.parts, s.serviceId, s.contentDigest));
    FingerprintTextInjective(r.parts, r.serviceId, r.contentDigest, s.parts, s.serviceId, s.contentDigest);
    DigestRecovered(p, r.parts.body, s.parts.body);
  }
}
