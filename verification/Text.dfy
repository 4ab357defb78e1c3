/** The string operations the signed-request profile is written with, and when they can be undone. */
module Text {
  import opened Foundations

  // ---- Concatenation with a delimiter ----

  /** A delimiter that occurs in neither left part can be found again. */
  lemma DelimiterRecovered(a: string, x: string, b: string, y: string, d: char)
    requires d !in a && d !in b
    requires a + [d] + x == b + [d] + y
    ensures a == b && x == y
  {
    var s, t := a + [d] + x, b + [d] + y;
    assert s[|a|] == d && t[|b|] == d;
    assert a == s[..|a|] && b == t[..|b|];
    assert x == s[|a| + 1..] && y == t[|b| + 1..];
  }

  lemma PrefixRecovered(p: string, x: string, y: string)
    requires p + x == p + y
    ensures x == y
  {
    assert x == (p + x)[|p|..] && y == (p + y)[|p|..];
  }

  // ---- str::strip_prefix, str::strip_suffix and str::split_once ----

  function StripPrefix(s: string, p: string): Option<string> {
    if |p| <= |s| && s[..|p|] == p then Some(s[|p|..]) else None
  }

  function StripSuffix(s: string, p: string): Option<string> {
    if |p| <= |s| && s[|s| - |p|..] == p then Some(s[..|s| - |p|]) else None
  }

  predicate OccursAt(s: string, pat: string, i: int) {
    0 <= i <= |s| - |pat| && s[i..i + |pat|] == pat
  }

  function FindFrom(s: string, pat: string, i: nat): Option<nat>
    requires i <= |s|
    decreases |s| - i
  {
    if OccursAt(s, pat, i) then Some(i)
    else if i == |s| then None
    else FindFrom(s, pat, i + 1)
  }

  lemma {:induction false} FindFromIsFirst(s: string, pat: string, i: nat)
    requires i <= |s|
    ensures var r := FindFrom(s, pat, i);
            (r.Some? ==> i <= r.value && OccursAt(s, pat, r.value)) &&
            forall j | i <= j < (if r.Some? then r.value else |s| + 1) :: !OccursAt(s, pat, j)
    decreases |s| - i
  {
    if !OccursAt(s, pat, i) && i < |s| { FindFromIsFirst(s, pat, i + 1); }
  }

  function SplitOnce(s: string, pat: string): (r: Option<(string, string)>)
    ensures r.Some? ==> |r.value.1| + |pat| <= |s|
  {
    match FindFrom(s, pat, 0)
    case Some(i) => if i + |pat| <= |s| then Some((s[..i], s[i + |pat|..])) else None
    case None => None
  }

  lemma SplitOnceRejoins(s: string, pat: string)
    requires SplitOnce(s, pat).Some?
    ensures var (a, b) := SplitOnce(s, pat).value; s == a + pat + b
  {
    FindFromIsFirst(s, pat, 0);
    var i := FindFrom(s, pat, 0).value;
    assert s == s[..i] + s[i..i + |pat|] + s[i + |pat|..];
  }

  /** When the left part lacks the pattern's first character, the split finds the intended place. */
  lemma SplitOnceFinds(a: string, pat: string, b: string)
    requires |pat| > 0 && pat[0] !in a
    ensures SplitOnce(a + pat + b, pat) == Some((a, b))
  {
    var s := a + pat + b;
    FindFromIsFirst(s, pat, 0);
    assert s[|a|..|a| + |pat|] == pat;
    assert OccursAt(s, pat, |a|);
    forall j | 0 <= j < |a|
      ensures !OccursAt(s, pat, j)
    {
      assert s[j] == a[j] != pat[0];
      assert j <= |s| - |pat| ==> s[j..j + |pat|][0] != pat[0];
    }
    assert s[..|a|] == a && s[|a| + |pat|..] == b;
  }

  // ---- str::split and str::trim ----

  function SplitOn(s: string, pat: string): (r: seq<string>)
    requires pat != []
    ensures r != []
    decreases |s|
  {
    match SplitOnce(s, pat)
    case None => [s]
    case Some((a, b)) => [a] + SplitOn(b, pat)
  }

  function SkipWhile(s: string, p: char -> bool): (r: string)
    ensures |r| <= |s| && (r != [] ==> !p(r[0]))
  {
    if s != [] && p(s[0]) then SkipWhile(s[1..], p) else s
  }

  function TrimEnd(s: string, p: char -> bool): string {
    if s != [] && p(s[|s| - 1]) then TrimEnd(s[..|s| - 1], p) else s
  }

  function Trim(s: string, p: char -> bool): string { TrimEnd(SkipWhile(s, p), p) }

  lemma {:induction false} SkipsAll(s: string, rest: string, p: char -> bool)
    requires forall i | 0 <= i < |s| :: p(s[i])
    requires rest != [] ==> !p(rest[0])
    ensures SkipWhile(s + rest, p) == rest
  {
    if s == [] {
      assert s + rest == rest;
    } else {
      assert (s + rest)[1..] == s[1..] + rest;
      SkipsAll(s[1..], rest, p);
    }
  }

  lemma {:induction false} TrimsEnd(s: string, after: string, p: char -> bool)
    requires s != "" ==> !p(s[|s| - 1])
    requires forall i | 0 <= i < |after| :: p(after[i])
    ensures TrimEnd(s + after, p) == s
  {
    if after == "" {
      assert s + after == s;
    } else {
      assert (s + after)[..|s| + |after| - 1] == s + after[..|after| - 1];
      TrimsEnd(s, after[..|after| - 1], p);
    }
  }

  /** Trimming frees a text of what surrounds it. */
  lemma TrimFrees(p: char -> bool, before: string, text: string, after: string)
    requires forall i | 0 <= i < |before| :: p(before[i])
    requires forall i | 0 <= i < |after| :: p(after[i])
    requires text != "" ==> !p(text[0]) && !p(text[|text| - 1])
    ensures Trim(before + (text + after), p) == text
  {
    if text != "" {
      SkipsAll(before, text + after, p);
      TrimsEnd(text, after, p);
    } else {
      assert before + (text + after) == before + after + "";
      SkipsAll(before + after, "", p);
    }
  }

  lemma {:induction false} SkippedIsPrefix(s: string, p: char -> bool) returns (before: string)
    ensures s == before + SkipWhile(s, p) && forall i | 0 <= i < |before| :: p(before[i])
  {
    before := "";
    if s != "" && p(s[0]) {
      var rest := SkippedIsPrefix(s[1..], p);
      before := [s[0]] + rest;
    }
  }

  lemma {:induction false} TrimmedIsSuffix(s: string, p: char -> bool) returns (after: string)
    ensures s == TrimEnd(s, p) + after && forall i | 0 <= i < |after| :: p(after[i])
    ensures var t := TrimEnd(s, p); t != "" ==> !p(t[|t| - 1])
  {
    after := "";
    if s != "" && p(s[|s| - 1]) {
      var rest := TrimmedIsSuffix(s[..|s| - 1], p);
      after := rest + [s[|s| - 1]];
    }
  }

  // ---- Decimal integers ----

  predicate IsDigit(c: char) { '0' <= c <= '9' }

  predicate AllDigits(s: string) { forall i | 0 <= i < |s| :: IsDigit(s[i]) }

  function PrintNat(n: nat): (s: string)
    ensures |s| > 0 && AllDigits(s)
  {
    var last := ['0' + (n % 10) as char];
    if n < 10 then last else PrintNat(n / 10) + last
  }

  /** `Display` for a signed integer. */
  function PrintInt(n: int): string {
    if n < 0 then "-" + PrintNat(-n) else PrintNat(n)
  }

  function DigitsValue(s: string): nat
    requires AllDigits(s)
  {
    if s == [] then 0 else 10 * DigitsValue(s[..|s| - 1]) + (s[|s| - 1] as int - '0' as int)
  }

  lemma {:induction false} PrintedNatReadsBack(n: nat)
    ensures DigitsValue(PrintNat(n)) == n
  {
    var s := PrintNat(n);
    if n < 10 {
      assert s[..|s| - 1] == "";
      assert DigitsValue(s) == 10 * DigitsValue("") + n;
    } else {
      PrintedNatReadsBack(n / 10);
      assert s[..|s| - 1] == PrintNat(n / 10);
    }
  }

  // ---- UTF-8 and UUID text ----

  predicate IsAscii(s: string) { forall i | 0 <= i < |s| :: s[i] as int < 128 }

  function EncodeScalar(c: char): Bytes {
    var n := c as int;
    if n < 0x80 then [n as byte]
    else if n < 0x800 then [(0xC0 + n / 0x40) as byte, (0x80 + n % 0x40) as byte]
    else if n < 0x10000 then
      [(0xE0 + n / 0x1000) as byte, (0x80 + n / 0x40 % 0x40) as byte, (0x80 + n % 0x40) as byte]
    else
      [(0xF0 + n / 0x40000) as byte, (0x80 + n / 0x1000 % 0x40) as byte,
       (0x80 + n / 0x40 % 0x40) as byte, (0x80 + n % 0x40) as byte]
  }

  function Utf8(s: string): Bytes {
    if s == [] then [] else Utf8(s[..|s| - 1]) + EncodeScalar(s[|s| - 1])
  }

  lemma {:induction false} Utf8OfAscii(s: string)
    requires IsAscii(s)
    ensures |Utf8(s)| == |s| && forall i | 0 <= i < |s| :: Utf8(s)[i] as int == s[i] as int
  {
    if s != [] { Utf8OfAscii(s[..|s| - 1]); }
  }

  lemma Utf8InjectiveOnAscii(s: string, t: string)
    requires IsAscii(s) && IsAscii(t) && Utf8(s) == Utf8(t)
    ensures s == t
  {
    Utf8OfAscii(s);
    Utf8OfAscii(t);
    assert forall i | 0 <= i < |s| :: s[i] as int == t[i] as int;
  }

  /** Which scalar the bytes encode (section 3 of RFC 3629), by the number and the ranges of the bytes. */
  function ReadScalar(b: Bytes): Option<int> {
    if |b| == 1 && b[0] < 0x80 then Some(b[0] as int)
    else if |b| == 2 && 0xC0 <= b[0] < 0xE0 && 0x80 <= b[1] < 0xC0 then
      Some(0x40 * (b[0] as int - 0xC0) + (b[1] as int - 0x80))
    else if |b| == 3 && 0xE0 <= b[0] < 0xF0 && 0x80 <= b[1] < 0xC0 && 0x80 <= b[2] < 0xC0 then
      Some(0x1000 * (b[0] as int - 0xE0) + 0x40 * (b[1] as int - 0x80) + (b[2] as int - 0x80))
    else if |b| == 4 && 0xF0 <= b[0] < 0xF8 && 0x80 <= b[1] < 0xC0 && 0x80 <= b[2] < 0xC0 && 0x80 <= b[3] < 0xC0 then
      Some(0x40000 * (b[0] as int - 0xF0) + 0x1000 * (b[1] as int - 0x80) + 0x40 * (b[2] as int - 0x80) + (b[3] as int - 0x80))
    else None
  }

  lemma SixBitDigits(n: nat)
    ensures n == 0x40 * (n / 0x40) + n % 0x40
    ensures n == 0x1000 * (n / 0x1000) + 0x40 * (n / 0x40 % 0x40) + n % 0x40
    ensures n == 0x40000 * (n / 0x40000) + 0x1000 * (n / 0x1000 % 0x40) + 0x40 * (n / 0x40 % 0x40) + n % 0x40
  {
    assert n / 0x1000 == n / 0x40 / 0x40 && n / 0x40000 == n / 0x1000 / 0x40;
  }

  lemma ReadTwo(x: nat, y: nat)
    requires x < 0x20 && y < 0x40
    ensures ReadScalar([(0xC0 + x) as byte, (0x80 + y) as byte]) == Some(0x40 * x + y)
  {
  }

  lemma ReadThree(w: nat, x: nat, y: nat)
    requires w < 0x10 && x < 0x40 && y < 0x40
    ensures ReadScalar([(0xE0 + w) as byte, (0x80 + x) as byte, (0x80 + y) as byte]) == Some(0x1000 * w + 0x40 * x + y)
  {
  }

  lemma ReadFour(v: nat, w: nat, x: nat, y: nat)
    requires v < 0x8 && w < 0x40 && x < 0x40 && y < 0x40
    ensures ReadScalar([(0xF0 + v) as byte, (0x80 + w) as byte, (0x80 + x) as byte, (0x80 + y) as byte]) ==
            Some(0x40000 * v + 0x1000 * w + 0x40 * x + y)
  {
  }

  lemma ScalarReadsBack(c: char)
    ensures ReadScalar(EncodeScalar(c)) == Some(c as int)
  {
    var n := c as int;
    SixBitDigits(n);
    if 0x80 <= n {
      hide ReadScalar;
      if n < 0x800 {
        ReadTwo(n / 0x40, n % 0x40);
      } else if n < 0x10000 {
        ReadThree(n / 0x1000, n / 0x40 % 0x40, n % 0x40);
      } else {
        ReadFour(n / 0x40000, n / 0x1000 % 0x40, n / 0x40 % 0x40, n % 0x40);
      }
    }
  }

  predicate IsHexDigit(c: char) { IsDigit(c) || 'a' <= c <= 'f' }

  function HexDigit(n: int): (c: char)
    requires 0 <= n < 16
    ensures IsHexDigit(c)
  {
    if n < 10 then '0' + n as char else 'a' + (n - 10) as char
  }

  function Hex(b: Bytes): (s: string)
    ensures |s| == 2 * |b|
    ensures forall i | 0 <= i < |s| :: IsHexDigit(s[i])
  {
    if b == [] then ""
    else Hex(b[..|b| - 1]) + [HexDigit(b[|b| - 1] as int / 16), HexDigit(b[|b| - 1] as int % 16)]
  }

  lemma PairRecovered(x: string, h: char, l: char, y: string, i: char, m: char)
    requires x + [h, l] == y + [i, m]
    ensures x == y && h == i && l == m
  {
    var s, t := x + [h, l], y + [i, m];
    assert s[|x|] == h && t[|y|] == i && s[|x| + 1] == l && t[|y| + 1] == m;
    assert s[..|x|] == x && t[..|y|] == y;
  }

  lemma HexDigitRecovered(m: int, n: int)
    requires 0 <= m < 16 && 0 <= n < 16 && HexDigit(m) == HexDigit(n)
    ensures m == n
  {
  }

  lemma HexByteRecovered(x: byte, y: byte)
    requires HexDigit(x as int / 16) == HexDigit(y as int / 16)
    requires HexDigit(x as int % 16) == HexDigit(y as int % 16)
    ensures x == y
  {
    HexDigitRecovered(x as int / 16, y as int / 16);
    HexDigitRecovered(x as int % 16, y as int % 16);
  }

  lemma {:induction false} HexInjective(a: Bytes, b: Bytes)
    requires Hex(a) == Hex(b)
    ensures a == b
  {
    if a != [] {
      var n := |a| - 1;
      var x, y := a[n] as int, b[n] as int;
      PairRecovered(Hex(a[..n]), HexDigit(x / 16), HexDigit(x % 16), Hex(b[..n]), HexDigit(y / 16), HexDigit(y % 16));
      HexByteRecovered(a[n], b[n]);
      HexInjective(a[..n], b[..n]);
      assert a == a[..n] + [a[n]] && b == b[..n] + [b[n]];
    }
  }

  /** `Display` for a UUID: lower-case hexadecimal in groups of 8, 4, 4, 4 and 12. */
  function PrintUuid(u: Uuid): (s: string)
    ensures |s| == 36 && forall i | 0 <= i < |s| :: IsHexDigit(s[i]) || s[i] == '-'
  {
    Hex(u[..4]) + "-" + (Hex(u[4..6]) + "-" + (Hex(u[6..8]) + "-" + (Hex(u[8..10]) + "-" + Hex(u[10..]))))
  }

  lemma HexGroupsRecovered(a: Bytes, x: string, b: Bytes, y: string)
    requires Hex(a) + "-" + x == Hex(b) + "-" + y
    ensures a == b && x == y
  {
    DelimiterRecovered(Hex(a), x, Hex(b), y, '-');
    HexInjective(a, b);
  }

  lemma GroupsDetermineUuid(u: Uuid, v: Uuid)
    requires u[..4] == v[..4] && u[4..6] == v[4..6] && u[6..8] == v[6..8] && u[8..10] == v[8..10] && u[10..] == v[10..]
    ensures u == v
  {
    assert u[..6] == u[..4] + u[4..6] && v[..6] == v[..4] + v[4..6];
    assert u[..8] == u[..6] + u[6..8] && v[..8] == v[..6] + v[6..8];
    assert u[..10] == u[..8] + u[8..10] && v[..10] == v[..8] + v[8..10];
    assert u == u[..10] + u[10..] && v == v[..10] + v[10..];
  }

  lemma PrintedUuidIdentifies(u: Uuid, v: Uuid)
    requires PrintUuid(u) == PrintUuid(v)
    ensures u == v
  {
    var u3, v3 := Hex(u[8..10]) + "-" + Hex(u[10..]), Hex(v[8..10]) + "-" + Hex(v[10..]);
    var u2, v2 := Hex(u[6..8]) + "-" + u3, Hex(v[6..8]) + "-" + v3;
    var u1, v1 := Hex(u[4..6]) + "-" + u2, Hex(v[4..6]) + "-" + v2;
    HexGroupsRecovered(u[..4], u1, v[..4], v1);
    HexGroupsRecovered(u[4..6], u2, v[4..6], v2);
    HexGroupsRecovered(u[6..8], u3, v[6..8], v3);
    HexGroupsRecovered(u[8..10], Hex(u[10..]), v[8..10], Hex(v[10..]));
    HexInjective(u[10..], v[10..]);
    GroupsDetermineUuid(u, v);
  }

  /** The digits are the hexadecimal ones, two a byte in order. */
  lemma {:induction false} HexDigitsAt(b: Bytes, k: nat)
    requires k < |b|
    ensures Hex(b)[2 * k] == "0123456789abcdef"[b[k] as int / 16]
    ensures Hex(b)[2 * k + 1] == "0123456789abcdef"[b[k] as int % 16]
    decreases |b|
  {
    var n := |b| - 1;
    if k < n {
      HexDigitsAt(b[..n], k);
    } else {
      HexDigitIs(b[k] as int / 16);
      HexDigitIs(b[k] as int % 16);
    }
  }

  lemma HexDigitIs(n: int)
    requires 0 <= n < 16
    ensures HexDigit(n) == "0123456789abcdef"[n]
  {
  }

  lemma {:induction false} HexJoins(a: Bytes, b: Bytes)
    ensures Hex(a + b) == Hex(a) + Hex(b)
    decreases |b|
  {
    if b == [] {
      assert a + b == a;
    } else {
      var n := |b| - 1;
      assert (a + b)[..|a| + n] == a + b[..n];
      HexJoins(a, b[..n]);
    }
  }

  /** A UUID's text is its 32 digits with hyphens after the 8th, 12th, 16th and 20th. */
  lemma PrintedUuidIs(u: Uuid)
    ensures var s, h := PrintUuid(u), Hex(u);
            |h| == 32 &&
            s == h[..8] + ("-" + (h[8..12] + ("-" + (h[12..16] + ("-" + (h[16..20] + ("-" + h[20..])))))))
  {
    var a, b, c, d, e := u[..4], u[4..6], u[6..8], u[8..10], u[10..];
    assert u == a + (b + (c + (d + e)));
    HexJoins(a, b + (c + (d + e)));
    HexJoins(b, c + (d + e));
    HexJoins(c, d + e);
    HexJoins(d, e);
    GroupsOf(Hex(a), Hex(b), Hex(c), Hex(d), Hex(e));
    hide Hex;
  }

  lemma GroupsOf(a: string, b: string, c: string, d: string, e: string)
    requires |a| == 8 && |b| == |c| == |d| == 4 && |e| == 12
    ensures var h := a + (b + (c + (d + e)));
            h[..8] == a && h[8..12] == b && h[12..16] == c && h[16..20] == d && h[20..] == e
    ensures a + "-" + (b + "-" + (c + "-" + (d + "-" + e))) == a + ("-" + (b + ("-" + (c + ("-" + (d + ("-" + e)))))))
  {
    var h := a + (b + (c + (d + e)));
    assert h[8..] == b + (c + (d + e));
    assert h[12..] == c + (d + e) && h[16..] == d + e;
    assert (d + "-" + e) == d + ("-" + e);
    assert (c + "-" + (d + "-" + e)) == c + ("-" + (d + "-" + e));
    assert (b + "-" + (c + "-" + (d + "-" + e))) == b + ("-" + (c + "-" + (d + "-" + e)));
  }
}
