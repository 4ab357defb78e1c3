/** Which requests the reader takes, and as what, said of the text alone. */
module HttpText {
  import opened Foundations
  import opened Text
  import opened HttpHead
  import opened HttpReader

  // ---- Letter case ----

  /** The text of `name`, each letter of which may be a capital. */
  predicate SpelledAs(spelling: string, name: string) {
    |spelling| == |name| &&
    forall i | 0 <= i < |name| ::
      spelling[i] == name[i] || ('a' <= name[i] <= 'z' && spelling[i] as int == name[i] as int - 32)
  }

  function NameOf(slot: Slot): string {
    match slot
    case ContentLength => "content-length"
    case ContentType => "content-type"
    case Host => "host"
    case ContentDigest => "content-digest"
    case ServiceId => "infernal-service-id"
    case InstanceId => "infernal-instance-id"
    case RequestId => "infernal-request-id"
    case SignatureInput => "signature-input"
    case Signature => "signature"
  }

  predicate NoCapital(s: string) { forall i | 0 <= i < |s| :: !('A' <= s[i] <= 'Z') }

  lemma LowerSpells(spelling: string, name: string)
    requires NoCapital(name)
    ensures Lower(spelling) == name <==> SpelledAs(spelling, name)
  {
    if SpelledAs(spelling, name) {
      assert forall i | 0 <= i < |name| :: Lower(spelling)[i] == name[i];
    }
    if Lower(spelling) == name {
      assert forall i | 0 <= i < |name| :: LowerChar(spelling[i]) == name[i];
    }
  }

  lemma NamesHaveNoCapital(slot: Slot)
    ensures NoCapital(NameOf(slot))
  {
  }

  lemma SlotIsNamed(lower: string, slot: Slot)
    ensures SlotNamed(lower) == Some(slot) <==> lower == NameOf(slot)
    ensures SlotNamed("transfer-encoding") == None
  {
  }

  /** A slot is filled under every spelling of its name and under no other name. */
  lemma SlotSpelled(spelling: string, slot: Slot)
    ensures SlotNamed(Lower(spelling)) == Some(slot) <==> SpelledAs(spelling, NameOf(slot))
    ensures Lower(spelling) == "transfer-encoding" <==> SpelledAs(spelling, "transfer-encoding")
  {
    NamesHaveNoCapital(slot);
    SlotIsNamed(Lower(spelling), slot);
    LowerSpells(spelling, NameOf(slot));
    LowerSpells(spelling, "transfer-encoding");
  }

  // ---- Lengths ----

  function Zeros(n: nat): string { seq(n, i => '0') }

  /** A decimal number, perhaps after a plus sign and leading zeros. */
  ghost predicate SpellsNumber(s: string, n: nat) {
    exists plus: bool, zeros: nat :: s == NumberText(plus, zeros, n)
  }

  function NumberText(plus: bool, zeros: nat, n: nat): string {
    (if plus then "+" else "") + (Zeros(zeros) + PrintNat(n))
  }

  lemma {:induction false} LeadingZeros(zeros: nat, s: string)
    requires AllDigits(s)
    ensures AllDigits(Zeros(zeros) + s) && DigitsValue(Zeros(zeros) + s) == DigitsValue(s)
    decreases |s|, zeros
  {
    var t := Zeros(zeros) + s;
    if s != "" {
      LeadingZeros(zeros, s[..|s| - 1]);
      assert t[..|t| - 1] == Zeros(zeros) + s[..|s| - 1];
    } else if zeros > 0 {
      LeadingZeros(zeros - 1, s);
      assert t[..|t| - 1] == Zeros(zeros - 1) + s;
    }
  }

  lemma PrintsOneMore(d: nat, last: nat)
    requires d > 0 && last < 10
    ensures PrintNat(10 * d + last) == PrintNat(d) + ['0' + last as char]
  {
    var n := 10 * d + last;
    assert n / 10 == d && n % 10 == last;
  }

  lemma LastDigit(s: string)
    requires s != "" && AllDigits(s)
    ensures var n := |s| - 1; var last := s[n] as int - 48;
            0 <= last < 10 && s[n] == '0' + last as char && DigitsValue(s) == 10 * DigitsValue(s[..n]) + last
  {
  }

  lemma {:induction false} DigitsArePrinted(s: string) returns (zeros: nat)
    requires s != "" && AllDigits(s)
    ensures s == Zeros(zeros) + PrintNat(DigitsValue(s))
  {
    LastDigit(s);
    var front, last := s[..|s| - 1], s[|s| - 1];
    assert s == front + [last];
    if front == "" {
      return 0;
    }
    zeros := DigitsArePrinted(front);
    if DigitsValue(front) > 0 {
      PrintsOneMore(DigitsValue(front), last as int - 48);
      hide PrintNat, DigitsValue;
    } else {
      hide DigitsValue;
      assert PrintNat(0) == "0" && front == Zeros(zeros + 1);
      zeros := zeros + 1;
    }
  }

  /** The lengths read are the numbers below 2^64, in these spellings. */
  lemma LengthExactly(s: string, n: nat)
    ensures ParseUsize(s) == Some(n) <==> n <= 0xFFFF_FFFF_FFFF_FFFF && SpellsNumber(s, n)
  {
    if ParseUsize(s) == Some(n) {
      var plus := s[0] == '+';
      var zeros := DigitsArePrinted(if plus then s[1..] else s);
      hide PrintNat, DigitsValue, AllDigits;
      assert s == NumberText(plus, zeros, n);
    }
    if n <= 0xFFFF_FFFF_FFFF_FFFF && SpellsNumber(s, n) {
      var plus: bool, zeros: nat :| s == NumberText(plus, zeros, n);
      NumberRead(plus, zeros, n);
    }
  }

  lemma NumberRead(plus: bool, zeros: nat, n: nat)
    requires n <= 0xFFFF_FFFF_FFFF_FFFF
    ensures ParseUsize(NumberText(plus, zeros, n)) == Some(n)
  {
    var s := NumberText(plus, zeros, n);
    LeadingZeros(zeros, PrintNat(n));
    PrintedNatReadsBack(n);
    hide PrintNat, DigitsValue;
    var digits := Zeros(zeros) + PrintNat(n);
    assert if plus then s[0] == '+' && s[1..] == digits else s == digits && IsDigit(s[0]);
  }

  // ---- One line ----

  datatype Line = Line(name: string, before: string, text: string, after: string)

  function LineText(l: Line): string { l.name + ":" + (l.before + (l.text + l.after)) }

  predicate Blank(cs: Charset, s: string) { forall i | 0 <= i < |s| :: cs.whitespace(s[i]) }

  predicate Bare(cs: Charset, s: string) { s != "" ==> !cs.whitespace(s[0]) && !cs.whitespace(s[|s| - 1]) }

  /** The characters of a token, section 5.6.2 of RFC 9110, by code. */
  predicate TokenCode(c: char) {
    var n := c as int;
    n == 33 || 35 <= n <= 39 || n == 42 || n == 43 || n == 45 || n == 46 || 48 <= n <= 57 || 65 <= n <= 90 ||
    94 <= n <= 122 || n == 124 || n == 126
  }

  predicate Token(s: string) { s != "" && forall i | 0 <= i < |s| :: TokenCode(s[i]) }

  /** A token, a colon, and a text with whitespace around it. */
  predicate FieldLine(cs: Charset, l: Line) {
    Token(l.name) && Blank(cs, l.before) && Bare(cs, l.text) && Blank(cs, l.after)
  }

  lemma TokenIsName(c: char)
    ensures NameChar(c) <==> TokenCode(c)
  {
  }

  lemma TrimSplits(cs: Charset, s: string) returns (before: string, text: string, after: string)
    ensures s == before + (text + after) && Blank(cs, before) && Bare(cs, text) && Blank(cs, after)
  {
    before := SkippedIsPrefix(s, cs.whitespace);
    var rest := SkipWhile(s, cs.whitespace);
    after := TrimmedIsSuffix(rest, cs.whitespace);
    text := TrimEnd(rest, cs.whitespace);
    assert text != "" ==> text[0] == rest[0];
  }

  lemma LineTaken(cs: Charset, l: Line)
    requires FieldLine(cs, l)
    ensures FieldOf(cs, LineText(l)) == Some(Field(Lower(l.name), l.text))
  {
    TrimFrees(cs.whitespace, l.before, l.text, l.after);
    forall i | 0 <= i < |l.name| ensures NameChar(l.name[i]) { TokenIsName(l.name[i]); }
    SplitOnceFinds(l.name, ":", l.before + (l.text + l.after));
  }

  lemma TakenIsLine(cs: Charset, line: string) returns (l: Line)
    requires FieldOf(cs, line).Some?
    ensures FieldLine(cs, l) && LineText(l) == line
  {
    var (name, value) := SplitOnce(line, ":").value;
    SplitOnceRejoins(line, ":");
    var before, text, after := TrimSplits(cs, value);
    l := Line(name, before, text, after);
    forall i | 0 <= i < |name| ensures TokenCode(name[i]) { TokenIsName(name[i]); }
  }

  predicate Fills(l: Line, slot: Slot) { SpelledAs(l.name, NameOf(slot)) }

  /** No transfer coding; a length below 2^64 for the content length; some text for every other slot. */
  ghost predicate Admissible(l: Line) {
    !SpelledAs(l.name, "transfer-encoding") &&
    (Fills(l, ContentLength) ==> exists n: nat :: n <= 0xFFFF_FFFF_FFFF_FFFF && SpellsNumber(l.text, n)) &&
    forall slot: Slot | slot != ContentLength && Fills(l, slot) :: l.text != ""
  }

  /** A line is usable exactly when admissible, and then fills the slot whose name it spells with its bare text. */
  lemma LineMeans(cs: Charset, l: Line)
    requires FieldLine(cs, l)
    ensures Usable(cs, LineText(l)) <==> Admissible(l)
    ensures Usable(cs, LineText(l)) ==> ValueOf(cs, LineText(l)) == l.text
    ensures Usable(cs, LineText(l)) ==>
              forall slot :: SlotOf(cs, LineText(l)) == Some(slot) <==> Fills(l, slot)
  {
    LineTaken(cs, l);
    forall slot ensures SlotNamed(Lower(l.name)) == Some(slot) <==> Fills(l, slot) { SlotSpelled(l.name, slot); }
    SlotSpelled(l.name, Host);
    forall n ensures ParseUsize(l.text) == Some(n) <==> n <= 0xFFFF_FFFF_FFFF_FFFF && SpellsNumber(l.text, n) {
      LengthExactly(l.text, n);
    }
    hide FieldOf, LineText, SlotNamed, Lower, SpelledAs, ParseUsize, SpellsNumber, FieldLine;
    assert ParseUsize(l.text).Some? ==> ParseUsize(l.text) == Some(ParseUsize(l.text).value);
  }

  // ---- All lines ----

  function Texts(ls: seq<Line>): seq<string> { seq(|ls|, i requires 0 <= i < |ls| => LineText(ls[i])) }

  ghost predicate FieldLines(cs: Charset, ls: seq<Line>) { forall i | 0 <= i < |ls| :: FieldLine(cs, ls[i]) }

  /** Every line admissible, and no slot filled twice. */
  ghost predicate Accepted(ls: seq<Line>) {
    (forall i | 0 <= i < |ls| :: Admissible(ls[i])) &&
    forall i, j, slot | 0 <= i < j < |ls| && Fills(ls[i], slot) :: !Fills(ls[j], slot)
  }

  /** The slots filled, each with the text of its line. */
  ghost predicate Filled(slots: map<Slot, string>, ls: seq<Line>) {
    (forall slot | slot in slots :: exists i | 0 <= i < |ls| :: Fills(ls[i], slot)) &&
    forall i, slot | 0 <= i < |ls| && Fills(ls[i], slot) :: slot in slots && slots[slot] == ls[i].text
  }

  lemma AcceptedIsWellFormed(cs: Charset, ls: seq<Line>)
    requires FieldLines(cs, ls)
    ensures WellFormed(cs, Texts(ls)) <==> Accepted(ls)
    ensures WellFormed(cs, Texts(ls)) ==> forall slots | Holds(cs, slots, Texts(ls)) :: Filled(slots, ls)
  {
    hide Usable, SlotOf, ValueOf, LineText, Admissible, Fills, FieldLine;
    var lines := Texts(ls);
    forall i | 0 <= i < |ls|
      ensures Usable(cs, lines[i]) <==> Admissible(ls[i])
      ensures Usable(cs, lines[i]) ==> ValueOf(cs, lines[i]) == ls[i].text
      ensures Usable(cs, lines[i]) ==> forall slot :: SlotOf(cs, lines[i]) == Some(slot) <==> Fills(ls[i], slot)
    {
      LineMeans(cs, ls[i]);
    }
    if WellFormed(cs, lines) {
      forall slots | Holds(cs, slots, lines) ensures Filled(slots, ls) {
        forall i, slot | 0 <= i < |ls| && Fills(ls[i], slot) ensures slot in slots && slots[slot] == ls[i].text {
          assert SlotOf(cs, lines[i]) == Some(slot);
        }
      }
      forall i, j, slot | 0 <= i < j < |ls| && Fills(ls[i], slot) ensures !Fills(ls[j], slot) {
        assert SlotOf(cs, lines[i]) == Some(slot);
      }
    }
    if Accepted(ls) {
      forall i, j | 0 <= i < j < |lines| && SlotOf(cs, lines[i]).Some?
        ensures SlotOf(cs, lines[i]) != SlotOf(cs, lines[j])
      {
        assert SlotOf(cs, lines[i]) == Some(SlotOf(cs, lines[i]).value);
      }
    }
  }

  lemma LinesRead(cs: Charset, ls: seq<Line>)
    requires FieldLines(cs, ls)
    ensures Collect(cs, Texts(ls)).Ok? <==> Accepted(ls)
    ensures Collect(cs, Texts(ls)).Ok? ==> Filled(Collect(cs, Texts(ls)).value, ls)
  {
    CollectMeans(cs, Texts(ls));
    AcceptedIsWellFormed(cs, ls);
  }

  lemma ReadLinesAreLines(cs: Charset, lines: seq<string>) returns (ls: seq<Line>)
    requires Collect(cs, lines).Ok?
    ensures FieldLines(cs, ls) && Texts(ls) == lines
  {
    CollectMeans(cs, lines);
    hide FieldOf, FieldLine, LineText;
    ls := [];
    for n := 0 to |lines|
      invariant FieldLines(cs, ls) && Texts(ls) == lines[..n]
    {
      assert Usable(cs, lines[n]);
      var l := TakenIsLine(cs, lines[n]);
      assert Texts(ls + [l]) == Texts(ls) + [LineText(l)];
      ls := ls + [l];
    }
  }

  // ---- Line breaks ----

  predicate NoBreak(s: string) { forall i | 0 <= i < |s| - 1 :: !(s[i] == '\r' && s[i + 1] == '\n') }

  lemma BreakIs(s: string, i: int)
    ensures OccursAt(s, "\r\n", i) <==> 0 <= i < |s| - 1 && s[i] == '\r' && s[i + 1] == '\n'
  {
    if 0 <= i < |s| - 1 { assert s[i..i + 2] == [s[i], s[i + 1]]; }
  }

  lemma BreakFound(a: string, b: string)
    requires NoBreak(a)
    ensures SplitOnce(a + "\r\n" + b, "\r\n") == Some((a, b))
  {
    var s := a + "\r\n" + b;
    FindFromIsFirst(s, "\r\n", 0);
    forall i: int ensures OccursAt(s, "\r\n", i) ==> i >= |a| && OccursAt(s, "\r\n", |a|) {
      BreakIs(s, i);
      BreakIs(s, |a|);
    }
    BreakIs(s, |a|);
    hide OccursAt;
    assert s[..|a|] == a && s[|a| + 2..] == b;
  }

  lemma NoBreakNoSplit(s: string)
    ensures SplitOnce(s, "\r\n") == None <==> NoBreak(s)
  {
    FindFromIsFirst(s, "\r\n", 0);
    var r := FindFrom(s, "\r\n", 0);
    if r.Some? {
      BreakIs(s, r.value);
    } else {
      forall i | 0 <= i < |s| - 1 ensures !(s[i] == '\r' && s[i + 1] == '\n') { BreakIs(s, i); }
    }
  }

  lemma {:induction false} LinesSplit(first: string, lines: seq<string>)
    requires NoBreak(first) && forall i | 0 <= i < |lines| :: NoBreak(lines[i])
    ensures SplitOn(first + LinesText(lines), "\r\n") == [first] + lines
    decreases |lines|
  {
    hide NoBreak, SplitOnce;
    if lines == [] {
      assert first + LinesText(lines) == first;
      NoBreakNoSplit(first);
    } else {
      var rest := lines[0] + LinesText(lines[1..]);
      assert first + LinesText(lines) == first + "\r\n" + rest;
      BreakFound(first, rest);
      LinesSplit(lines[0], lines[1..]);
    }
  }

  lemma FirstHasNoBreak(s: string)
    requires SplitOnce(s, "\r\n").Some?
    ensures NoBreak(SplitOnce(s, "\r\n").value.0)
  {
    FindFromIsFirst(s, "\r\n", 0);
    var a := SplitOnce(s, "\r\n").value.0;
    forall i | 0 <= i < |a| - 1 ensures !(a[i] == '\r' && a[i + 1] == '\n') { BreakIs(s, i); }
  }

  lemma {:induction false} SplitIsLines(s: string)
    ensures var r := SplitOn(s, "\r\n");
            s == r[0] + LinesText(r[1..]) && forall i | 0 <= i < |r| :: NoBreak(r[i])
    decreases |s|
  {
    NoBreakNoSplit(s);
    if SplitOnce(s, "\r\n").Some? {
      var (a, b) := SplitOnce(s, "\r\n").value;
      var rest := SplitOn(b, "\r\n");
      SplitOnceRejoins(s, "\r\n");
      FirstHasNoBreak(s);
      SplitIsLines(b);
      hide NoBreak, SplitOnce;
      assert ([a] + rest)[1..] == rest;
      assert s == a + ("\r\n" + (rest[0] + LinesText(rest[1..])));
    } else {
      assert s == s + LinesText([]);
    }
  }

  // ---- The request line ----

  predicate IsWord(cs: Charset, s: string) { s != "" && forall i | 0 <= i < |s| :: !cs.whitespace(s[i]) }

  lemma FirstWord(cs: Charset, pad: string, word: string, rest: string)
    requires Blank(cs, pad) && IsWord(cs, word) && (rest != "" ==> cs.whitespace(rest[0]))
    ensures Words(pad + (word + rest), cs.whitespace) == [word] + Words(rest, cs.whitespace)
  {
    SkipsAll(pad, word + rest, cs.whitespace);
    SkipsAll(word, rest, c => !cs.whitespace(c));
    assert (word + rest)[..|word|] == word;
  }

  lemma NoWord(cs: Charset, s: string)
    ensures Words(s, cs.whitespace) == [] <==> Blank(cs, s)
  {
    var before := SkippedIsPrefix(s, cs.whitespace);
    if Blank(cs, s) {
      SkipsAll(s, "", cs.whitespace);
      assert s + "" == s;
    }
  }

  lemma WordFound(cs: Charset, s: string) returns (pad: string, rest: string)
    requires Words(s, cs.whitespace) != []
    ensures var ws := Words(s, cs.whitespace);
            s == pad + (ws[0] + rest) && Blank(cs, pad) && IsWord(cs, ws[0]) &&
            (rest != "" ==> cs.whitespace(rest[0])) && Words(rest, cs.whitespace) == ws[1..]
  {
    pad := SkippedIsPrefix(s, cs.whitespace);
    var t := SkipWhile(s, cs.whitespace);
    var word := SkippedIsPrefix(t, c => !cs.whitespace(c));
    rest := SkipWhile(t, c => !cs.whitespace(c));
    assert t[..|t| - |rest|] == word;
    assert Words(s, cs.whitespace) == [word] + Words(rest, cs.whitespace);
  }

  /** A request line, with the whitespace around its three words. */
  datatype Start = Start(p0: string, verb: string, p1: string, path: string, p2: string, p3: string)

  function StartText(t: Start): string {
    t.p0 + (t.verb + (t.p1 + (t.path + (t.p2 + ("HTTP/1.1" + t.p3)))))
  }

  ghost predicate StartLine(cs: Charset, t: Start) {
    Blank(cs, t.p0) && Blank(cs, t.p1) && Blank(cs, t.p2) && Blank(cs, t.p3) && t.p1 != "" && t.p2 != "" &&
    IsWord(cs, t.verb) && IsWord(cs, t.path) && IsWord(cs, "HTTP/1.1") && t.path[0] == '/'
  }

  lemma StartRead(cs: Charset, t: Start)
    requires StartLine(cs, t)
    ensures Words(StartText(t), cs.whitespace) == [t.verb, t.path, "HTTP/1.1"]
  {
    hide Words;
    var r2 := "HTTP/1.1" + t.p3;
    FirstWord(cs, t.p0, t.verb, t.p1 + (t.path + (t.p2 + r2)));
    FirstWord(cs, t.p1, t.path, t.p2 + r2);
    FirstWord(cs, t.p2, "HTTP/1.1", t.p3);
    NoWord(cs, t.p3);
  }

  lemma ReadStartIsStart(cs: Charset, s: string) returns (t: Start)
    requires var ws := Words(s, cs.whitespace); |ws| == 3 && ws[2] == "HTTP/1.1" && ws[1] != "" && ws[1][0] == '/'
    ensures StartLine(cs, t) && StartText(t) == s
  {
    hide Words;
    var ws := Words(s, cs.whitespace);
    var p0, r0 := WordFound(cs, s);
    var p1, r1 := WordFound(cs, r0);
    var p2, p3 := WordFound(cs, r1);
    NoWord(cs, p3);
    t := Start(p0, ws[0], p1, ws[1], p2, p3);
    assert p1 != "" && p2 != "";
  }

  // ---- The whole head ----

  datatype Message = Message(start: Start, lines: seq<Line>)

  function MessageText(m: Message): string { StartText(m.start) + LinesText(Texts(m.lines)) }

  /** A request line and field lines, ended by the line breaks between them and by no others. */
  ghost predicate Shaped(cs: Charset, m: Message) {
    StartLine(cs, m.start) && NoBreak(StartText(m.start)) &&
    FieldLines(cs, m.lines) && forall i | 0 <= i < |m.lines| :: NoBreak(LineText(m.lines[i]))
  }

  /** The body length the lines declare; none is zero. */
  ghost predicate Declares(ls: seq<Line>, length: nat) {
    (exists i | 0 <= i < |ls| :: Fills(ls[i], ContentLength) && SpellsNumber(ls[i].text, length)) ||
    (length == 0 && forall i | 0 <= i < |ls| :: !Fills(ls[i], ContentLength))
  }

  /** Every slot but the content length, each with the text of the line that spells its name. */
  ghost predicate HeadersAre(headers: map<Slot, string>, ls: seq<Line>) {
    (forall slot | slot in headers :: slot != ContentLength && exists i | 0 <= i < |ls| :: Fills(ls[i], slot)) &&
    forall i, slot | 0 <= i < |ls| && Fills(ls[i], slot) && slot != ContentLength ::
      slot in headers && headers[slot] == ls[i].text
  }

  /** An enrollment without a body. */
  predicate EmptyEnrollment(m: Message, length: nat) {
    m.start.verb == "POST" && m.start.path == "/v1/enrollments" && length == 0
  }

  lemma AcceptedDeclares(ls: seq<Line>) returns (length: nat)
    requires Accepted(ls)
    ensures Declares(ls, length)
  {
    if i :| 0 <= i < |ls| && Fills(ls[i], ContentLength) {
      assert Admissible(ls[i]);
      length :| SpellsNumber(ls[i].text, length);
    } else {
      length := 0;
    }
  }

  lemma FinishMeans(m: Message, length: nat, slots: map<Slot, string>)
    requires Accepted(m.lines) && Filled(slots, m.lines) && Declares(m.lines, length)
    ensures var r := Finish(m.start.verb, m.start.path, slots);
            if EmptyEnrollment(m, length) then r == Err(Malformed)
            else if length > 40960 then r == Err(PayloadTooLarge)
            else r.Ok? && r.value.verb == m.start.verb && r.value.path == m.start.path &&
                 r.value.contentLength == length && HeadersAre(r.value.headers, m.lines)
  {
    hide ParseUsize, SpellsNumber, Fills;
    if i :| 0 <= i < |m.lines| && Fills(m.lines[i], ContentLength) && SpellsNumber(m.lines[i].text, length) {
      assert Admissible(m.lines[i]);
      assert slots[ContentLength] == m.lines[i].text;
      var n: nat :| n <= 0xFFFF_FFFF_FFFF_FFFF && SpellsNumber(m.lines[i].text, n);
      NumberIsUnique(m.lines[i].text, n, length);
      LengthExactly(m.lines[i].text, length);
    } else {
      assert ContentLength !in slots;
    }
  }

  lemma NumberIsUnique(s: string, m: nat, n: nat)
    requires SpellsNumber(s, m) && SpellsNumber(s, n)
    ensures m == n
  {
    var p: bool, y: nat :| s == NumberText(p, y, m);
    var q: bool, z: nat :| s == NumberText(q, z, n);
    LeadingZeros(y, PrintNat(m));
    LeadingZeros(z, PrintNat(n));
    PrintedNatReadsBack(m);
    PrintedNatReadsBack(n);
    hide PrintNat, DigitsValue;
    var a, b := Zeros(y) + PrintNat(m), Zeros(z) + PrintNat(n);
    assert IsDigit(a[0]) && IsDigit(b[0]);
    assert (if p then s[1..] else s) == a && (if q then s[1..] else s) == b;
  }

  lemma PartsRead(cs: Charset, bytes: Bytes, text: string, first: string, verb: string, path: string, lines: seq<string>)
    requires cs.decode(bytes) == Some(text) && SplitOn(text, "\r\n") == [first] + lines
    requires Words(first, cs.whitespace) == [verb, path, "HTTP/1.1"] && path != "" && path[0] == '/'
    ensures ParseHead(cs, bytes) ==
            (match Collect(cs, lines) case Err(e) => Err(e) case Ok(slots) => Finish(verb, path, slots))
  {
    hide Collect, Finish, Words, SplitOn;
    assert ([first] + lines)[1..] == lines;
  }

  /** What a head of this shape is read as. */
  lemma WrittenHeadReads(cs: Charset, bytes: Bytes, m: Message, length: nat)
    requires Shaped(cs, m) && cs.decode(bytes) == Some(MessageText(m))
    requires Accepted(m.lines) ==> Declares(m.lines, length)
    ensures var r := ParseHead(cs, bytes);
            if !Accepted(m.lines) || EmptyEnrollment(m, length) then r == Err(Malformed)
            else if length > 40960 then r == Err(PayloadTooLarge)
            else r.Ok? && r.value.verb == m.start.verb && r.value.path == m.start.path &&
                 r.value.contentLength == length && HeadersAre(r.value.headers, m.lines)
  {
    hide Words, SplitOn, Collect, Accepted, Declares, Finish, HeadersAre, LinesText, EmptyEnrollment, Filled, ParseHead, StartText;
    LinesSplit(StartText(m.start), Texts(m.lines));
    StartRead(cs, m.start);
    PartsRead(cs, bytes, MessageText(m), StartText(m.start), m.start.verb, m.start.path, Texts(m.lines));
    LinesRead(cs, m.lines);
    CollectFailsOneWay(cs, Texts(m.lines));
    if Accepted(m.lines) {
      FinishMeans(m, length, Collect(cs, Texts(m.lines)).value);
    }
  }

  lemma ReadHeadIsShaped(cs: Charset, bytes: Bytes) returns (m: Message)
    requires ParseHead(cs, bytes) != Err(Malformed)
    ensures Shaped(cs, m) && cs.decode(bytes) == Some(MessageText(m))
  {
    var lines := SplitOn(cs.decode(bytes).value, "\r\n");
    SplitIsLines(cs.decode(bytes).value);
    CollectFailsOneWay(cs, lines[1..]);
    hide Words, SplitOn, Collect, Finish, LinesText, StartText, NoBreak, LineText, StartLine, FieldLine;
    var t := ReadStartIsStart(cs, lines[0]);
    var ls := ReadLinesAreLines(cs, lines[1..]);
    forall i | 0 <= i < |ls| ensures NoBreak(LineText(ls[i])) {
      assert LineText(ls[i]) == Texts(ls)[i] == lines[1..][i] == lines[i + 1];
    }
    m := Message(t, ls);
  }

  /** No other head is read. */
  lemma OtherHeads(cs: Charset, bytes: Bytes)
    requires forall m | Shaped(cs, m) :: cs.decode(bytes) != Some(MessageText(m))
    ensures ParseHead(cs, bytes) == Err(Malformed)
  {
    if ParseHead(cs, bytes) != Err(Malformed) {
      var m := ReadHeadIsShaped(cs, bytes);
    }
  }

  // ---- The whole request ----

  const END: Bytes := [13, 10, 13, 10]

  /** The stream is this message, the blank line, and more bytes. */
  ghost predicate Carries(cs: Charset, whole: Bytes, m: Message, head: Bytes, rest: Bytes) {
    whole == head + (END + rest) && (forall i | 0 <= i < |head| :: !(END <= whole[i..])) &&
    Shaped(cs, m) && cs.decode(head) == Some(MessageText(m))
  }

  /** The answer to this message with these bytes after it. */
  ghost predicate ReadAs(r: Result<ParsedRequest, ReadError>, m: Message, length: nat, rest: Bytes) {
    if !Accepted(m.lines) || EmptyEnrollment(m, length) then r == Err(Malformed)
    else if length > 40960 then r == Err(PayloadTooLarge)
    else if |rest| < length then r == Err(Malformed)
    else r.Ok? && r.value.verb == m.start.verb && r.value.path == m.start.path &&
         HeadersAre(r.value.headers, m.lines) && r.value.body == rest[..length]
  }

  lemma EndIs(whole: Bytes, i: int)
    ensures EndsAt(whole, i) <==> 0 <= i <= |whole| && END <= whole[i..]
  {
    if 0 <= i <= |whole| - 4 { assert whole[i..][..4] == whole[i..i + 4]; }
  }

  lemma FirstEndIs(whole: Bytes, head: Bytes, rest: Bytes)
    requires whole == head + (END + rest) && forall i | 0 <= i < |head| :: !(END <= whole[i..])
    ensures FindHeaderEnd(whole) == Some(|head|) && whole[..|head|] == head
    ensures forall n: nat | n <= |rest| :: whole[|head| + 4..|head| + 4 + n] == rest[..n]
  {
    HeaderEndIsFirst(whole, 0);
    EndIs(whole, |head|);
    assert whole[|head|..] == END + rest;
    forall i: nat | i < |head| ensures !EndsAt(whole, i) { EndIs(whole, i); }
    forall n: nat | n <= |rest| ensures whole[|head| + 4..|head| + 4 + n] == rest[..n] {}
  }

  lemma OneShotRead(cs: Charset, whole: Bytes, m: Message, length: nat, head: Bytes, rest: Bytes)
    requires Carries(cs, whole, m, head, rest) && |head| <= 8192
    requires Accepted(m.lines) ==> Declares(m.lines, length)
    ensures ReadAs(OneShot(cs, whole), m, length, rest)
  {
    hide ParseHead, FindHeaderEnd, Accepted, Declares, HeadersAre, EmptyEnrollment, Shaped, MessageText;
    FirstEndIs(whole, head, rest);
    WrittenHeadReads(cs, head, m, length);
    var r := ParseHead(cs, head);
    assert OneShot(cs, whole) ==
           if r.Err? then Err(r.error)
           else if |rest| < r.value.contentLength then Err(Malformed)
           else Ok(ParsedRequest(r.value.verb, r.value.path, r.value.headers, rest[..r.value.contentLength])) by {
      hide Carries;
    }
  }

  /**
   * What a stream is read as: however it is cut into pieces while the head is at most 8189 bytes, and when handed
   * over without cutting it at most 8192.
   */
  lemma RequestRead(
    cs: Charset, whole: Bytes, schedule: seq<nat>, m: Message, length: nat, head: Bytes, rest: Bytes)
    requires Carries(cs, whole, m, head, rest) && |head| <= 8192 && (|head| <= 8189 || schedule == [])
    requires Accepted(m.lines) ==> Declares(m.lines, length)
    ensures ReadAs(Answer(cs, whole, schedule), m, length, rest)
  {
    FirstEndIs(whole, head, rest);
    OneShotRead(cs, whole, m, length, head, rest);
    hide Accepted, Declares, ReadAs, Shaped, MessageText, OneShot, Answer, Carries;
    if Borderline(whole) {
      BorderlineDependsOnPieces(cs, whole);
    } else {
      SplitIndependent(cs, whole, schedule);
    }
  }

  /** Every other stream is malformed. */
  lemma OtherStreams(cs: Charset, whole: Bytes, schedule: seq<nat>)
    requires forall m, head, rest | Carries(cs, whole, m, head, rest) :: |head| > 8192
    ensures Answer(cs, whole, schedule) == Err(Malformed)
  {
    HeaderEndIsFirst(whole, 0);
    var p := FindHeaderEnd(whole);
    if p.Some? && p.value <= 8192 {
      var head, rest := whole[..p.value], whole[p.value + 4..];
      EndIs(whole, p.value);
      assert whole == head + (END + rest);
      forall i | 0 <= i < |head| ensures !(END <= whole[i..]) { EndIs(whole, i); }
      forall m | Shaped(cs, m) ensures cs.decode(head) != Some(MessageText(m)) {
        assert Carries(cs, whole, m, head, rest) ==> |head| > 8192;
      }
      OtherHeads(cs, head);
    }
  }
}
