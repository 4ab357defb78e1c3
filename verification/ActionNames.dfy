/** Dotted names: the two recognisers in the kernel and the regular expressions stored beside them. */
module ActionNames {
  import opened Foundations
  import opened Text

  const MAX_ACTION_NAME_LENGTH: nat := 200
  const MAX_EVENT_TYPE_LENGTH: nat := 200

  // ---- The recognisers ----

  predicate Lowercase(c: char) { 'a' <= c <= 'z' }

  predicate SegmentChar(c: char) { Lowercase(c) || IsDigit(c) || c == '_' || c == '-' }

  predicate ValidSegment(s: string) {
    s != [] && Lowercase(s[0]) && forall i | 0 < i < |s| :: SegmentChar(s[i])
  }

  predicate AllValid(segments: seq<string>) { forall i | 0 <= i < |segments| :: ValidSegment(segments[i]) }

  function Segments(s: string): seq<string> { SplitOn(s, ".") }

  /** The length is taken in bytes. */
  predicate IsValidActionName(value: string) {
    value != [] && |Utf8(value)| <= MAX_ACTION_NAME_LENGTH &&
    var segments := Segments(value);
    |segments| >= 2 && ValidSegment(segments[0]) && ValidSegment(segments[1]) && AllValid(segments[2..])
  }

  /** The length is taken in characters; what counts as whitespace is left open. */
  function NewEventType(value: string, whitespace: char -> bool): Option<string> {
    var trimmed := Trim(value, whitespace);
    if trimmed == [] || |trimmed| > MAX_EVENT_TYPE_LENGTH || !AllValid(Segments(trimmed)) then None else Some(trimmed)
  }

  // ---- Regular expressions ----

  datatype Regex = Letter | Tail | Dot | Then(first: Regex, second: Regex) | Star(body: Regex)

  /** Which texts a pattern matches: a letter is a to z, a tail character also a digit, an underscore or a hyphen. */
  ghost predicate Matches(r: Regex, s: string)
    decreases r, |s|
  {
    match r
    case Letter => |s| == 1 && 97 <= s[0] as int <= 122
    case Tail =>
      |s| == 1 && (97 <= s[0] as int <= 122 || 48 <= s[0] as int <= 57 || s[0] as int == 95 || s[0] as int == 45)
    case Dot => s == "."
    case Then(a, b) => exists i | 0 <= i <= |s| :: Matches(a, s[..i]) && Matches(b, s[i..])
    case Star(a) => s == "" || exists i | 0 < i <= |s| :: Matches(a, s[..i]) && Matches(r, s[i..])
  }

  function Plus(r: Regex): Regex { Then(r, Star(r)) }

  const SEGMENT := Then(Letter, Star(Tail))
  const DOTTED := Then(Dot, SEGMENT)
  /** `^[a-z][a-z0-9_-]*(\.[a-z][a-z0-9_-]*)+$` */
  const ACTION := Then(SEGMENT, Plus(DOTTED))
  /** `^[a-z][a-z0-9_-]*(\.[a-z][a-z0-9_-]*)*$` */
  const EVENT := Then(SEGMENT, Star(DOTTED))

  lemma {:induction false} TailsMatch(s: string)
    ensures Matches(Star(Tail), s) <==> forall i | 0 <= i < |s| :: SegmentChar(s[i])
    decreases |s|
  {
    if s != "" {
      TailsMatch(s[1..]);
      if forall i | 0 <= i < |s| :: SegmentChar(s[i]) {
        assert Matches(Tail, s[..1]) && Matches(Star(Tail), s[1..]);
      }
      if Matches(Star(Tail), s) {
        var i :| 0 < i <= |s| && Matches(Tail, s[..i]) && Matches(Star(Tail), s[i..]);
        assert i == 1 && s[0] == s[..1][0];
        assert forall k | 0 < k < |s| :: s[k] == s[1..][k - 1];
      }
    }
  }

  lemma SegmentMatches(s: string)
    ensures Matches(SEGMENT, s) <==> ValidSegment(s)
  {
    if ValidSegment(s) {
      TailsMatch(s[1..]);
      assert Matches(Letter, s[..1]) && Matches(Star(Tail), s[1..]);
    }
    if Matches(SEGMENT, s) {
      var i :| 0 <= i <= |s| && Matches(Letter, s[..i]) && Matches(Star(Tail), s[i..]);
      TailsMatch(s[1..]);
      assert i == 1 && s[0] == s[..1][0];
      assert forall k | 0 < k < |s| :: s[k] == s[1..][k - 1];
    }
  }

  lemma DottedMatches(s: string)
    ensures Matches(DOTTED, s) <==> s != "" && s[0] == '.' && ValidSegment(s[1..])
  {
    if s != "" && s[0] == '.' && ValidSegment(s[1..]) {
      SegmentMatches(s[1..]);
      assert s[..1] == "." && Matches(Dot, s[..1]);
    }
    if Matches(DOTTED, s) {
      var i :| 0 <= i <= |s| && Matches(Dot, s[..i]) && Matches(SEGMENT, s[i..]);
      assert i == |s[..i]| == 1 && s[0] == s[..1][0];
      SegmentMatches(s[1..]);
    }
  }

  // ---- Splitting ----

  lemma NoDotNoSplit(s: string)
    requires '.' !in s
    ensures Segments(s) == [s]
  {
    FindFromIsFirst(s, ".", 0);
    forall i: int ensures !OccursAt(s, ".", i) {
      if 0 <= i < |s| { assert s[i..i + 1] == [s[i]]; }
    }
  }

  lemma SplitAtDot(a: string, b: string)
    requires '.' !in a
    ensures Segments(a + "." + b) == [a] + Segments(b)
  {
    SplitOnceFinds(a, ".", b);
  }

  lemma RestIsValid(segments: seq<string>)
    requires segments != [] && AllValid(segments)
    ensures AllValid(segments[1..])
  {
  }

  lemma ValidSegmentHasNoDot(s: string)
    requires ValidSegment(s)
    ensures '.' !in s
  {
  }

  /** The text up to the first dot, and whatever follows it. */
  lemma FirstSegment(s: string) returns (i: nat)
    ensures i <= |s| && '.' !in s[..i] && (i < |s| ==> s[i] == '.')
    ensures Segments(s) == [s[..i]] + (if i < |s| then Segments(s[i + 1..]) else [])
  {
    i := 0;
    while i < |s| && s[i] != '.'
      invariant i <= |s| && '.' !in s[..i]
    {
      i := i + 1;
    }
    if i < |s| {
      assert s == s[..i] + "." + s[i + 1..];
      SplitAtDot(s[..i], s[i + 1..]);
    } else {
      assert s[..i] == s;
      NoDotNoSplit(s);
    }
  }

  // ---- A list of segments is what the expressions describe ----

  ghost predicate DottedTail(s: string) { s == "" || (s[0] == '.' && AllValid(Segments(s[1..]))) }

  lemma {:induction false} DottedTailMatches(s: string)
    ensures Matches(Star(DOTTED), s) <==> DottedTail(s)
    decreases |s|
  {
    if s != "" {
      var rest := s[1..];
      var k := FirstSegment(rest);
      if DottedTail(s) {
        assert Segments(rest)[0] == rest[..k];
        assert s[..k + 1][1..] == rest[..k] && s[k + 1..] == rest[k..];
        DottedMatches(s[..k + 1]);
        DottedTailMatches(s[k + 1..]);
        if k < |rest| {
          assert s[k + 1..][1..] == rest[k + 1..];
          RestIsValid(Segments(rest));
          assert Segments(rest)[1..] == Segments(rest[k + 1..]);
        }
        assert Matches(DOTTED, s[..k + 1]) && Matches(Star(DOTTED), s[k + 1..]);
      }
      if Matches(Star(DOTTED), s) {
        var i :| 0 < i <= |s| && Matches(DOTTED, s[..i]) && Matches(Star(DOTTED), s[i..]);
        DottedMatches(s[..i]);
        DottedTailMatches(s[i..]);
        SplitAfterSegment(s, i);
      }
    }
  }

  lemma SplitAfterSegment(s: string, i: nat)
    requires 0 < i <= |s| && s[..i][0] == '.' && ValidSegment(s[..i][1..]) && DottedTail(s[i..])
    ensures DottedTail(s)
  {
    var segment, rest := s[..i][1..], s[1..];
    ValidSegmentHasNoDot(segment);
    if i == |s| {
      assert rest == segment;
      NoDotNoSplit(segment);
    } else {
      var after := s[i..][1..];
      assert rest == segment + "." + after by { assert s[i..][0] == '.'; }
      SplitAtDot(segment, after);
    }
  }

  lemma JoinedMatches(s: string, i: nat, tail: Regex)
    requires i <= |s| && ValidSegment(s[..i]) && Matches(tail, s[i..])
    ensures Matches(Then(SEGMENT, tail), s)
  {
    SegmentMatches(s[..i]);
  }

  /** A non-empty list of valid segments joined by dots, and nothing else. */
  lemma EventMatches(s: string)
    ensures Matches(EVENT, s) <==> AllValid(Segments(s))
  {
    var k := FirstSegment(s);
    DottedTailMatches(s[k..]);
    if AllValid(Segments(s)) {
      assert Segments(s)[0] == s[..k];
      if k < |s| {
        assert s[k..][1..] == s[k + 1..];
        RestIsValid(Segments(s));
        assert Segments(s)[1..] == Segments(s[k + 1..]);
      }
      JoinedMatches(s, k, Star(DOTTED));
    }
    if Matches(EVENT, s) {
      var i :| 0 <= i <= |s| && Matches(SEGMENT, s[..i]) && Matches(Star(DOTTED), s[i..]);
      SegmentMatches(s[..i]);
      DottedTailMatches(s[i..]);
      FirstThenTail(s, i);
    }
  }

  lemma FirstThenTail(s: string, i: nat)
    requires i <= |s| && ValidSegment(s[..i]) && DottedTail(s[i..])
    ensures AllValid(Segments(s)) && |Segments(s)| == 1 + (if i < |s| then |Segments(s[i + 1..])| else 0)
  {
    ValidSegmentHasNoDot(s[..i]);
    if i == |s| {
      assert s[..i] == s;
      NoDotNoSplit(s);
    } else {
      assert s[i..][0] == '.' && s[i..][1..] == s[i + 1..];
      assert s == s[..i] + "." + s[i + 1..];
      SplitAtDot(s[..i], s[i + 1..]);
    }
  }

  lemma PlusIsNonEmptyStar(r: Regex, s: string)
    requires !Matches(r, "")
    ensures Matches(Plus(r), s) <==> s != "" && Matches(Star(r), s)
  {
    if Matches(Plus(r), s) {
      var i :| 0 <= i <= |s| && Matches(r, s[..i]) && Matches(Star(r), s[i..]);
    }
    if s != "" && Matches(Star(r), s) {
      var i :| 0 < i <= |s| && Matches(r, s[..i]) && Matches(Star(r), s[i..]);
    }
  }

  /** Two or more. */
  lemma ActionMatches(s: string)
    ensures Matches(ACTION, s) <==> AllValid(Segments(s)) && |Segments(s)| >= 2
  {
    DottedMatches("");
    var k := FirstSegment(s);
    PlusIsNonEmptyStar(DOTTED, s[k..]);
    DottedTailMatches(s[k..]);
    if AllValid(Segments(s)) && |Segments(s)| >= 2 {
      assert Segments(s)[0] == s[..k];
      assert k < |s|;
      assert s[k..][1..] == s[k + 1..];
      RestIsValid(Segments(s));
      assert Segments(s)[1..] == Segments(s[k + 1..]);
      JoinedMatches(s, k, Plus(DOTTED));
    }
    if Matches(ACTION, s) {
      var i :| 0 <= i <= |s| && Matches(SEGMENT, s[..i]) && Matches(Plus(DOTTED), s[i..]);
      SegmentMatches(s[..i]);
      PlusIsNonEmptyStar(DOTTED, s[i..]);
      DottedTailMatches(s[i..]);
      FirstThenTail(s, i);
    }
  }

  // ---- Lengths in bytes and in characters ----

  ghost predicate OnlyNameChars(s: string) { forall i | 0 <= i < |s| :: SegmentChar(s[i]) || s[i] == '.' }

  lemma JoinedNames(s: string, k: nat)
    requires k < |s| && s[k] == '.' && OnlyNameChars(s[..k]) && OnlyNameChars(s[k + 1..])
    ensures OnlyNameChars(s)
  {
    forall i | 0 <= i < |s| ensures SegmentChar(s[i]) || s[i] == '.' {
      if i < k { assert s[i] == s[..k][i]; } else if i > k { assert s[i] == s[k + 1..][i - k - 1]; }
    }
  }

  lemma {:induction false} ValidSegmentsAreNames(s: string)
    requires AllValid(Segments(s))
    ensures OnlyNameChars(s)
    decreases |s|
  {
    var k := FirstSegment(s);
    assert ValidSegment(Segments(s)[0]) && Segments(s)[0] == s[..k];
    assert OnlyNameChars(s[..k]);
    if k < |s| {
      RestIsValid(Segments(s));
      assert Segments(s)[1..] == Segments(s[k + 1..]);
      hide ValidSegment, Segments, SegmentChar, OnlyNameChars;
      ValidSegmentsAreNames(s[k + 1..]);
      JoinedNames(s, k);
    } else {
      assert s[..k] == s;
    }
  }

  /** The recogniser accepts exactly the stored expression's language, up to 200 characters. */
  lemma ActionNameLanguage(value: string)
    ensures IsValidActionName(value) <==> Matches(ACTION, value) && |value| <= 200
  {
    ActionMatches(value);
    FirstTwoAndRest(Segments(value));
    if AllValid(Segments(value)) {
      ValidSegmentsAreNames(value);
      Utf8OfAscii(value);
    }
    hide Utf8, Matches, ValidSegment;
    if value == [] { NoDotNoSplit(value); }
  }

  lemma FirstTwoAndRest(segments: seq<string>)
    ensures |segments| >= 2 ==>
              (AllValid(segments) <==> ValidSegment(segments[0]) && ValidSegment(segments[1]) && AllValid(segments[2..]))
  {
    hide ValidSegment;
    if |segments| >= 2 {
      assert forall i | 2 <= i < |segments| :: segments[i] == segments[2..][i - 2];
    }
  }

  ghost predicate OutsideNames(whitespace: char -> bool) {
    forall c: char :: whitespace(c) ==> !SegmentChar(c) && c != '.'
  }

  /** An event type is the trimmed text, when that is in the other stored expression's language. */
  lemma EventTypeLanguage(value: string, whitespace: char -> bool)
    ensures var trimmed := Trim(value, whitespace);
            NewEventType(value, whitespace) ==
            if Matches(EVENT, trimmed) && |trimmed| <= 200 then Some(trimmed) else None
  {
    var trimmed := Trim(value, whitespace);
    EventMatches(trimmed);
    if trimmed == [] {
      NoDotNoSplit(trimmed);
      assert !ValidSegment(Segments(trimmed)[0]);
    }
  }

  lemma {:induction false} TrimOfNames(s: string, whitespace: char -> bool)
    requires forall i | 0 <= i < |s| :: !whitespace(s[i])
    ensures Trim(s, whitespace) == s
  {
  }

  /** Every action name is an event type, letter for letter. */
  lemma ActionNameIsEventType(value: string, whitespace: char -> bool)
    requires IsValidActionName(value) && OutsideNames(whitespace)
    ensures NewEventType(value, whitespace) == Some(value)
  {
    ActionNameLanguage(value);
    ActionMatches(value);
    ValidSegmentsAreNames(value);
    TrimOfNames(value, whitespace);
  }
}
