/** The head of an HTTP request: request line and header fields, from the text before the blank line. */
module HttpHead {
  import opened Foundations
  import opened Text

  datatype ReadError = Malformed | PayloadTooLarge

  const MAX_BODY_BYTES := 40 * 1024
  const MAX_USIZE: nat := 0xFFFF_FFFF_FFFF_FFFF

  /** UTF-8 validation and the whitespace class, left open. */
  datatype Charset = Charset(decode: Bytes -> Option<string>, whitespace: char -> bool)

  datatype Slot =
    ContentLength | ContentType | Host | ContentDigest | ServiceId | InstanceId | RequestId | SignatureInput | Signature

  datatype Head = Head(verb: string, path: string, headers: map<Slot, string>, contentLength: nat)

  // ---- Lexical functions ----

  /** The maximal runs without whitespace. */
  function Words(s: string, p: char -> bool): seq<string>
    decreases |s|
  {
    var t := SkipWhile(s, p);
    if t == [] then []
    else
      var rest := SkipWhile(t, c => !p(c));
      assert |rest| < |t| by { assert SkipWhile(t, c => !p(c)) == SkipWhile(t[1..], c => !p(c)); }
      [t[..|t| - |rest|]] + Words(rest, p)
  }

  function LowerChar(c: char): char { if 'A' <= c <= 'Z' then 'a' + (c - 'A') else c }

  function Lower(s: string): string { seq(|s|, i requires 0 <= i < |s| => LowerChar(s[i])) }

  predicate NameChar(c: char) {
    'a' <= c <= 'z' || 'A' <= c <= 'Z' || '0' <= c <= '9' || c in "!#$%&'*+-.^_`|~"
  }

  predicate ValidName(s: string) { s != [] && forall i | 0 <= i < |s| :: NameChar(s[i]) }

  /** `str::parse::<usize>`: an optional plus sign, then digits. */
  function ParseUsize(s: string): Option<nat> {
    var digits := if s != [] && s[0] == '+' then s[1..] else s;
    if digits == [] || !AllDigits(digits) || DigitsValue(digits) > MAX_USIZE then None else Some(DigitsValue(digits))
  }

  function SlotNamed(lower: string): Option<Slot> {
    if lower == "content-length" then Some(ContentLength)
    else if lower == "content-type" then Some(ContentType)
    else if lower == "host" then Some(Host)
    else if lower == "content-digest" then Some(ContentDigest)
    else if lower == "infernal-service-id" then Some(ServiceId)
    else if lower == "infernal-instance-id" then Some(InstanceId)
    else if lower == "infernal-request-id" then Some(RequestId)
    else if lower == "signature-input" then Some(SignatureInput)
    else if lower == "signature" then Some(Signature)
    else None
  }

  // ---- One field line ----

  datatype Field = Field(name: string, value: string)

  function FieldOf(cs: Charset, line: string): Option<Field> {
    match SplitOnce(line, ":")
    case None => None
    case Some((name, value)) => if ValidName(name) then Some(Field(Lower(name), Trim(value, cs.whitespace))) else None
  }

  /** A line the reader can take on its own: well-formed, not a transfer coding, a usable value if recognised. */
  predicate Usable(cs: Charset, line: string) {
    var f := FieldOf(cs, line);
    f.Some? && f.value.name != "transfer-encoding" &&
    match SlotNamed(f.value.name)
    case None => true
    case Some(ContentLength) => ParseUsize(f.value.value).Some?
    case Some(_) => f.value.value != []
  }

  function SlotOf(cs: Charset, line: string): Option<Slot>
    requires Usable(cs, line)
  {
    SlotNamed(FieldOf(cs, line).value.name)
  }

  function ValueOf(cs: Charset, line: string): string
    requires Usable(cs, line)
  {
    FieldOf(cs, line).value.value
  }

  // ---- All field lines ----

  /** What the header section must look like: every line usable, no recognised field twice. */
  ghost predicate WellFormed(cs: Charset, lines: seq<string>) {
    (forall i | 0 <= i < |lines| :: Usable(cs, lines[i])) &&
    forall i, j | 0 <= i < j < |lines| && SlotOf(cs, lines[i]).Some? :: SlotOf(cs, lines[i]) != SlotOf(cs, lines[j])
  }

  /** `slots` holds the value of each recognised field present, and nothing else. */
  ghost predicate Holds(cs: Charset, slots: map<Slot, string>, lines: seq<string>)
    requires WellFormed(cs, lines)
  {
    (forall s :: s in slots ==> exists i | 0 <= i < |lines| :: SlotOf(cs, lines[i]) == Some(s)) &&
    forall i | 0 <= i < |lines| && SlotOf(cs, lines[i]).Some? ::
      SlotOf(cs, lines[i]).value in slots && slots[SlotOf(cs, lines[i]).value] == ValueOf(cs, lines[i])
  }

  function Collect(cs: Charset, lines: seq<string>): Result<map<Slot, string>, ReadError> {
    if lines == [] then Ok(map[])
    else
      var n := |lines| - 1;
      match Collect(cs, lines[..n])
      case Err(e) => Err(e)
      case Ok(slots) =>
        if !Usable(cs, lines[n]) then Err(Malformed)
        else
          match SlotOf(cs, lines[n])
          case None => Ok(slots)
          case Some(slot) => if slot in slots then Err(Malformed) else Ok(slots[slot := ValueOf(cs, lines[n])])
  }

  /** A slot takes one value: parsed as a length for the content length, not empty for the others. */
  predicate Settable(slots: map<Slot, string>, slot: Slot, value: string) {
    slot !in slots && if slot == ContentLength then ParseUsize(value).Some? else value != []
  }

  method SetSlot(slots: map<Slot, string>, slot: Slot, value: string) returns (r: Result<map<Slot, string>, ReadError>)
    ensures r == if Settable(slots, slot, value) then Ok(slots[slot := value]) else Err(Malformed)
  {
    if slot in slots { return Err(Malformed); }
    if slot == ContentLength {
      if ParseUsize(value).None? { return Err(Malformed); }
    } else if value == [] {
      return Err(Malformed);
    }
    return Ok(slots[slot := value]);
  }

  method ReadFields(cs: Charset, lines: seq<string>) returns (r: Result<map<Slot, string>, ReadError>)
    ensures r == Collect(cs, lines)
  {
    hide FieldOf, ParseUsize;
    var slots: map<Slot, string> := map[];
    for i := 0 to |lines|
      invariant Collect(cs, lines[..i]) == Ok(slots)
    {
      assert lines[..i + 1][..i] == lines[..i];
      var field := FieldOf(cs, lines[i]);
      if field.None? {
        CollectStops(cs, lines, i + 1);
        return Err(Malformed);
      }
      var slot := SlotNamed(field.value.name);
      if slot.Some? {
        var next := SetSlot(slots, slot.value, field.value.value);
        if next.Err? {
          CollectStops(cs, lines, i + 1);
          return next;
        }
        slots := next.value;
      } else if field.value.name == "transfer-encoding" {
        CollectStops(cs, lines, i + 1);
        return Err(Malformed);
      }
    }
    assert lines[..|lines|] == lines;
    r := Ok(slots);
  }

  lemma {:induction false} CollectStops(cs: Charset, lines: seq<string>, i: nat)
    requires i <= |lines| && Collect(cs, lines[..i]).Err?
    ensures Collect(cs, lines) == Err(Malformed)
    decreases |lines|
  {
    if i < |lines| {
      var n := |lines| - 1;
      assert lines[..n][..i] == lines[..i];
      CollectStops(cs, lines[..n], i);
    } else {
      CollectFailsOneWay(cs, lines);
      assert lines[..i] == lines;
    }
  }

  lemma {:induction false} CollectFailsOneWay(cs: Charset, lines: seq<string>)
    ensures Collect(cs, lines).Err? ==> Collect(cs, lines) == Err(Malformed)
  {
    if lines != [] { CollectFailsOneWay(cs, lines[..|lines| - 1]); }
  }

  /** The header section is accepted exactly when it is well-formed, with exactly the values it gives. */
  lemma {:induction false} CollectMeans(cs: Charset, lines: seq<string>)
    ensures Collect(cs, lines).Ok? <==> WellFormed(cs, lines)
    ensures Collect(cs, lines).Ok? ==> Holds(cs, Collect(cs, lines).value, lines)
  {
    if lines != [] {
      var n := |lines| - 1;
      var front := lines[..n];
      CollectMeans(cs, front);
      assert forall i | 0 <= i < n :: front[i] == lines[i];
      if WellFormed(cs, front) && Usable(cs, lines[n]) {
        OneMoreLine(cs, lines, Collect(cs, front).value);
      }
    }
  }

  lemma OneMoreLine(cs: Charset, lines: seq<string>, slots: map<Slot, string>)
    requires lines != [] && WellFormed(cs, lines[..|lines| - 1]) && Holds(cs, slots, lines[..|lines| - 1])
    requires Usable(cs, lines[|lines| - 1])
    ensures var slot := SlotOf(cs, lines[|lines| - 1]);
            (WellFormed(cs, lines) <==> !(slot.Some? && slot.value in slots)) &&
            (WellFormed(cs, lines) ==>
               Holds(cs, if slot.Some? then slots[slot.value := ValueOf(cs, lines[|lines| - 1])] else slots, lines))
  {
    hide FieldOf, SlotNamed, ParseUsize, Usable, SlotOf, ValueOf;
    var n := |lines| - 1;
    var front, slot := lines[..n], SlotOf(cs, lines[n]);
    assert forall i | 0 <= i < n :: front[i] == lines[i];
    if slot.Some? && slot.value in slots {
      var i :| 0 <= i < |front| && SlotOf(cs, front[i]) == slot;
      assert SlotOf(cs, lines[i]) == SlotOf(cs, lines[n]);
    }
  }

  // ---- The whole head ----

  function Finish(verb: string, path: string, slots: map<Slot, string>): Result<Head, ReadError> {
    var length := if ContentLength in slots && ParseUsize(slots[ContentLength]).Some?
                  then ParseUsize(slots[ContentLength]).value else 0;
    if verb == "POST" && path == "/v1/enrollments" && length == 0 then Err(Malformed)
    else if length > MAX_BODY_BYTES then Err(PayloadTooLarge)
    else Ok(Head(verb, path, slots - {ContentLength}, length))
  }

  function ParseHead(cs: Charset, bytes: Bytes): Result<Head, ReadError> {
    match cs.decode(bytes)
    case None => Err(Malformed)
    case Some(header) =>
      var lines := SplitOn(header, "\r\n");
      var words := Words(lines[0], cs.whitespace);
      if |words| != 3 || words[2] != "HTTP/1.1" || words[1] == [] || words[1][0] != '/' then Err(Malformed)
      else
        match Collect(cs, lines[1..])
        case Err(e) => Err(e)
        case Ok(slots) => Finish(words[0], words[1], slots)
  }

  // ---- Pieces of a written head ----

  function LinesText(lines: seq<string>): string {
    if lines == [] then "" else "\r\n" + (lines[0] + LinesText(lines[1..]))
  }

  lemma BodyFits(cs: Charset, bytes: Bytes)
    requires ParseHead(cs, bytes).Ok?
    ensures ParseHead(cs, bytes).value.contentLength <= MAX_BODY_BYTES
  {
  }
}
