/** String helpers that the session code relies on: Foundation's trimming character
    sets, prefix tests, decimal rendering of integers, splitting on newlines, removal
    of every occurrence of a pattern, and integer division truncating toward zero. */
module Text {

  import opened Wrappers

  /** The two Foundation character sets that the source trims with. */
  datatype CharSet = Whitespaces | WhitespacesAndNewlines

  /** `CharacterSet.whitespaces`: tab and the Unicode space separators. */
  predicate IsSpace(c: char) {
    c == ' ' || c == '\t' || c == '\U{00A0}' || c == '\U{1680}'
    || ('\U{2000}' <= c <= '\U{200A}') || c == '\U{202F}' || c == '\U{205F}' || c == '\U{3000}'
  }

  /** `CharacterSet.newlines`: U+000A to U+000D, U+0085, U+2028 and U+2029. */
  predicate IsNewline(c: char) {
    ('\n' <= c <= '\r') || c == '\U{0085}' || c == '\U{2028}' || c == '\U{2029}'
  }

  predicate InSet(c: char, cs: CharSet) {
    IsSpace(c) || (cs == WhitespacesAndNewlines && IsNewline(c))
  }

  predicate StartsWith(s: string, prefix: string) {
    |prefix| <= |s| && s[..|prefix|] == prefix
  }

  /** Drops the leading characters of `s` that belong to `cs`. */
  function TrimStart(s: string, cs: CharSet): (r: string)
    ensures |r| <= |s| && r == s[|s| - |r|..]
    ensures forall i :: 0 <= i < |s| - |r| ==> InSet(s[i], cs)
    ensures r != [] ==> !InSet(r[0], cs)
  {
    if s != [] && InSet(s[0], cs) then TrimStart(s[1..], cs) else s
  }

  /** Drops the trailing characters of `s` that belong to `cs`. */
  function TrimEnd(s: string, cs: CharSet): (r: string)
    ensures |r| <= |s| && r == s[..|r|]
    ensures forall i :: |r| <= i < |s| ==> InSet(s[i], cs)
    ensures r != [] ==> !InSet(r[|r| - 1], cs)
  {
    if s != [] && InSet(s[|s| - 1], cs) then TrimEnd(s[..|s| - 1], cs) else s
  }

  /** `trimmingCharacters(in: cs)`: the middle of `s` with neither end in `cs`. */
  function Trim(s: string, cs: CharSet): (r: string)
    ensures |r| <= |s|
    ensures r != [] ==> !InSet(r[0], cs) && !InSet(r[|r| - 1], cs)
  {
    TrimEnd(TrimStart(s, cs), cs)
  }

  /** Trimming a text padded on both sides by characters of `cs` gives back its middle. */
  lemma TrimPadded(a: string, m: string, b: string, cs: CharSet)
    requires forall i :: 0 <= i < |a| ==> InSet(a[i], cs)
    requires forall i :: 0 <= i < |b| ==> InSet(b[i], cs)
    requires m != [] ==> !InSet(m[0], cs) && !InSet(m[|m| - 1], cs)
    ensures Trim(a + m + b, cs) == m
  {
    if m == [] {
      var s := a + b;
      assert a + m + b == s + [];
      assert forall i :: 0 <= i < |s| ==> InSet(s[i], cs);
      TrimStartPadded(s, [], cs);
    } else {
      assert a + m + b == a + (m + b);
      TrimStartPadded(a, m + b, cs);
      TrimEndPadded(m, b, cs);
    }
  }

  /** Leading characters of `cs` in front of a text that starts outside `cs` are dropped. */
  lemma TrimStartPadded(a: string, r: string, cs: CharSet)
    requires forall i :: 0 <= i < |a| ==> InSet(a[i], cs)
    requires r != [] ==> !InSet(r[0], cs)
    ensures TrimStart(a + r, cs) == r
  {
    var s := a + r;
    var t := TrimStart(s, cs);
    assert t != [] ==> s[|s| - |t|] == t[0];
    assert r != [] ==> s[|a|] == r[0];
    assert s[|a|..] == r;
  }

  /** Trailing characters of `cs` behind a text that ends outside `cs` are dropped. */
  lemma TrimEndPadded(l: string, b: string, cs: CharSet)
    requires forall i :: 0 <= i < |b| ==> InSet(b[i], cs)
    requires l != [] ==> !InSet(l[|l| - 1], cs)
    ensures TrimEnd(l + b, cs) == l
  {
    var s := l + b;
    var t := TrimEnd(s, cs);
    assert t != [] ==> s[|t| - 1] == t[|t| - 1];
    assert l != [] ==> s[|l| - 1] == l[|l| - 1];
    assert s[..|l|] == l;
  }

  predicate IsDigit(c: char) {
    '0' <= c <= '9'
  }

  function DigitChar(d: nat): (c: char)
    requires d < 10
    ensures IsDigit(c) && DigitValue(c) == d
  {
    (48 + d) as char
  }

  function DigitValue(c: char): nat
    requires IsDigit(c)
  {
    (c as int) - 48
  }

  /** Swift's decimal rendering of a non-negative `Int` in string interpolation. */
  function NatToString(n: nat): (r: string)
    ensures r != [] && forall i :: 0 <= i < |r| ==> IsDigit(r[i])
    decreases n
  {
    if n < 10 then [DigitChar(n)] else NatToString(n / 10) + [DigitChar(n % 10)]
  }

  /** Swift's decimal rendering of an `Int`: a minus sign before a negative value. */
  function IntToString(i: int): (r: string)
    ensures r != [] && (IsDigit(r[0]) || r[0] == '-')
  {
    if i < 0 then "-" + NatToString(-i) else NatToString(i)
  }

  /** The value of a string of decimal digits, most significant first. */
  function DigitsValue(s: string): nat
    requires forall i :: 0 <= i < |s| ==> IsDigit(s[i])
  {
    if s == [] then 0 else DigitsValue(s[..|s| - 1]) * 10 + DigitValue(s[|s| - 1])
  }

  /** Reads back a non-negative decimal number; the inverse of NatToString. */
  function ParseNat(s: string): Option<nat> {
    if s != [] && forall i :: 0 <= i < |s| ==> IsDigit(s[i]) then Some(DigitsValue(s)) else None
  }

  lemma {:induction false} NatToStringValue(n: nat)
    ensures DigitsValue(NatToString(n)) == n
    decreases n
  {
    if n >= 10 {
      var p := NatToString(n / 10);
      var s := NatToString(n);
      assert s == p + [DigitChar(n % 10)];
      assert s[..|s| - 1] == p;
      NatToStringValue(n / 10);
    }
  }

  /** Decimal rendering round-trips: reading NatToString(n) back gives n. */
  lemma NatToStringRoundTrip(n: nat)
    ensures ParseNat(NatToString(n)) == Some(n)
  {
    NatToStringValue(n);
  }

  /** Index of the first `c` in `s`, or |s| when there is none. */
  function IndexOfChar(s: string, c: char): (k: nat)
    ensures k <= |s|
    ensures forall i :: 0 <= i < k ==> s[i] != c
    ensures k < |s| ==> s[k] == c
  {
    if s == [] || s[0] == c then 0 else 1 + IndexOfChar(s[1..], c)
  }

  /** `components(separatedBy: "\n")`: the pieces between newlines, possibly empty. */
  function Lines(s: string): (r: seq<string>)
    ensures |r| >= 1
    ensures forall i :: 0 <= i < |r| ==> '\n' !in r[i]
    decreases |s|
  {
    var k := IndexOfChar(s, '\n');
    if k == |s| then [s] else [s[..k]] + Lines(s[k + 1..])
  }

  /** Rejoins lines with '\n' between them. */
  function JoinLines(ls: seq<string>): string
    requires |ls| >= 1
  {
    if |ls| == 1 then ls[0] else ls[0] + "\n" + JoinLines(ls[1..])
  }

  /** Splitting on newlines loses nothing: joining the lines gives the text back. */
  lemma {:induction false} LinesRoundTrip(s: string)
    ensures JoinLines(Lines(s)) == s
    decreases |s|
  {
    var k := IndexOfChar(s, '\n');
    if k < |s| {
      LinesRoundTrip(s[k + 1..]);
      assert s == s[..k] + "\n" + s[k + 1..];
    }
  }

  /** `replacingOccurrences(of: pat, with: "")`: every non-overlapping occurrence of
      `pat`, found left to right, is deleted. */
  function RemoveAll(s: string, pat: string): (r: string)
    requires pat != []
    ensures |r| <= |s|
    decreases |s|
  {
    if |s| < |pat| then s
    else if s[..|pat|] == pat then RemoveAll(s[|pat|..], pat)
    else [s[0]] + RemoveAll(s[1..], pat)
  }

  /** True when `pat` occurs in `s` starting at index `i`. */
  predicate OccursAt(s: string, pat: string, i: int) {
    0 <= i <= |s| - |pat| && s[i..i + |pat|] == pat
  }

  /** True when `pat` occurs somewhere in `s`. */
  ghost predicate Contains(s: string, pat: string) {
    exists i :: OccursAt(s, pat, i)
  }

  /** A text without the pattern is left as it is. */
  lemma {:induction false} RemoveAllAbsent(s: string, pat: string)
    requires pat != [] && !Contains(s, pat)
    ensures RemoveAll(s, pat) == s
    decreases |s|
  {
    if |s| >= |pat| {
      assert !OccursAt(s, pat, 0);
      assert !Contains(s[1..], pat) by {
        forall i | 0 <= i <= |s| - 1 - |pat|
          ensures !OccursAt(s[1..], pat, i)
        {
          assert s[1..][i..i + |pat|] == s[i + 1..i + 1 + |pat|];
          assert !OccursAt(s, pat, i + 1);
        }
      }
      RemoveAllAbsent(s[1..], pat);
    }
  }

  /** Swift's `/` on `Int`: the quotient truncated toward zero. */
  function Quot(a: int, b: int): (q: int)
    requires b > 0
    ensures a >= 0 ==> q == a / b
    ensures a < 0 ==> q * b - b < a <= q * b
  {
    if a >= 0 then a / b else -((-a) / b)
  }
}
