/** The email check of the contact form: the regular expression
    `^[^\s@]+@[^\s@]+\.[^\s@]+$`, its meaning as a split of the string, an
    equivalent characterisation by simple string conditions, and a
    single-pass scanner that decides it. */
module EmailFormat {

  /** The code points ECMA-262 (2023 edition) lists for `\s`, one by one:
      the WhiteSpace code points of section 12.2 (TAB, VT, FF, ZWNBSP, and the
      seventeen code points of Unicode category Zs) and the LineTerminator
      code points of section 12.3 (LF, CR, LS, PS). */
  const RegexWhitespace: set<char> := {
    '\U{0009}', '\U{000B}', '\U{000C}', '\U{FEFF}',
    '\U{0020}', '\U{00A0}', '\U{1680}',
    '\U{2000}', '\U{2001}', '\U{2002}', '\U{2003}', '\U{2004}', '\U{2005}',
    '\U{2006}', '\U{2007}', '\U{2008}', '\U{2009}', '\U{200A}',
    '\U{202F}', '\U{205F}', '\U{3000}',
    '\U{000A}', '\U{000D}', '\U{2028}', '\U{2029}'
  }

  /** `\s` of an ECMAScript regular expression, as the scanner tests it. */
  predicate IsWs(c: char)
    ensures IsWs(c) ==> c != '@' && c != '.'
  {
    || c == '\U{0009}' || c == '\U{000B}' || c == '\U{000C}' || c == '\U{FEFF}'
    || c == '\U{0020}' || c == '\U{00A0}' || c == '\U{1680}'
    || ('\U{2000}' <= c <= '\U{200A}')
    || c == '\U{202F}' || c == '\U{205F}' || c == '\U{3000}'
    || c == '\U{000A}' || c == '\U{000D}' || c == '\U{2028}' || c == '\U{2029}'
  }

  /** The scanner's test is exactly the standard's list. */
  lemma IsWsStandard(c: char)
    ensures IsWs(c) <==> c in RegexWhitespace
  {
  }

  /** The character class `[^\s@]`. */
  predicate InClass(c: char) {
    !IsWs(c) && c != '@'
  }

  /** `[^\s@]+`: a non-empty run of class characters. */
  ghost predicate IsRun(t: string) {
    |t| > 0 && forall k :: 0 <= k < |t| ==> InClass(t[k])
  }

  /** What the anchored regex accepts: s splits as A + "@" + B + "." + C with
      A, B and C each a non-empty run of `[^\s@]`. The split points are the
      '@' at index i and the '.' at index j. */
  ghost predicate EmailPattern(s: string) {
    exists i, j :: 0 <= i < j < |s| && s[i] == '@' && s[j] == '.' &&
      IsRun(s[..i]) && IsRun(s[i + 1..j]) && IsRun(s[j + 1..])
  }

  /** Number of occurrences of c in s. */
  function Count(s: string, c: char): (n: nat)
    ensures n <= |s|
  {
    if s == [] then 0 else Count(s[..|s| - 1], c) + (if s[|s| - 1] == c then 1 else 0)
  }

  /** Index of the first occurrence of c in s, or |s| when there is none. */
  function IndexOf(s: string, c: char): (k: nat)
    ensures k <= |s|
    ensures k < |s| ==> s[k] == c
    ensures forall m :: 0 <= m < k ==> s[m] != c
  {
    if s == [] then 0 else if s[0] == c then 0 else 1 + IndexOf(s[1..], c)
  }

  predicate NoWhitespace(s: string) {
    forall k :: 0 <= k < |s| ==> !IsWs(s[k])
  }

  /** The domain holds a '.' that is neither its first nor its last character. */
  predicate HasInteriorDot(d: string) {
    exists j :: 0 < j < |d| - 1 && d[j] == '.'
  }

  /** The regex restated as string conditions: exactly one '@', no whitespace,
      a non-empty local part, and an interior '.' in the domain. */
  predicate ValidEmail(s: string) {
    && Count(s, '@') == 1
    && NoWhitespace(s)
    && var k := IndexOf(s, '@');
       0 < k < |s| && HasInteriorDot(s[k + 1..])
  }

  /** Some '.' stands at an index in [lo, hi). */
  ghost predicate DotIn(s: string, lo: int, hi: int) {
    exists m :: lo <= m < hi && 0 <= m < |s| && s[m] == '.'
  }

  /** Every index in [lo, hi) holds a class character. */
  ghost predicate ClassIn(s: string, lo: int, hi: int)
    requires 0 <= lo <= hi <= |s|
  {
    forall m :: lo <= m < hi ==> InClass(s[m])
  }

  lemma RunRange(s: string, lo: int, hi: int)
    requires 0 <= lo <= hi <= |s|
    ensures IsRun(s[lo..hi]) <==> lo < hi && ClassIn(s, lo, hi)
  {
    if lo < hi && ClassIn(s, lo, hi) {
      forall k | 0 <= k < hi - lo ensures InClass(s[lo..hi][k]) {
        assert s[lo..hi][k] == s[lo + k];
      }
    }
    if IsRun(s[lo..hi]) {
      forall m | lo <= m < hi ensures InClass(s[m]) {
        assert s[lo..hi][m - lo] == s[m];
      }
    }
  }

  lemma InteriorDotRange(s: string, k: int)
    requires 0 <= k < |s|
    ensures HasInteriorDot(s[k + 1..]) <==> DotIn(s, k + 2, |s| - 1)
  {
  }

  lemma {:induction false} CountZero(s: string, c: char)
    ensures Count(s, c) == 0 <==> forall k :: 0 <= k < |s| ==> s[k] != c
  {
    if s != [] {
      CountZero(s[..|s| - 1], c);
      assert forall k :: 0 <= k < |s| - 1 ==> s[..|s| - 1][k] == s[k];
    }
  }

  lemma DotInExtend(s: string, lo: int, hi: int)
    requires 0 <= hi < |s|
    ensures DotIn(s, lo, hi + 1) <==> DotIn(s, lo, hi) || (lo <= hi && s[hi] == '.')
  {
  }

  lemma CountSnoc(s: string, x: char, c: char)
    ensures Count(s + [x], c) == Count(s, c) + (if x == c then 1 else 0)
  {
  }

  lemma {:induction false} CountSplit(s: string, c: char, k: nat)
    requires k < |s|
    ensures Count(s, c) == Count(s[..k], c) + (if s[k] == c then 1 else 0) + Count(s[k + 1..], c)
    decreases |s|
  {
    if k < |s| - 1 {
      var p := s[..|s| - 1];
      CountSplit(p, c, k);
      assert p[..k] == s[..k];
      assert s[k + 1..] == p[k + 1..] + [s[|s| - 1]];
      CountSnoc(p[k + 1..], s[|s| - 1], c);
    } else {
      assert s[..k] == s[..|s| - 1];
      assert s[k + 1..] == [];
    }
  }

  lemma {:induction false} IndexOfSnoc(s: string, x: char, c: char)
    ensures IndexOf(s + [x], c) == if IndexOf(s, c) < |s| || x == c then IndexOf(s, c) else |s| + 1
  {
    if s != [] && s[0] != c {
      assert (s + [x])[1..] == s[1..] + [x];
      IndexOfSnoc(s[1..], x, c);
    }
  }

  /** A string made of three class runs around an '@' and a '.' has no
      whitespace and no '@' after the first one. */
  lemma RunsFacts(s: string, i: int, j: int)
    requires 0 <= i < j < |s| && s[i] == '@' && s[j] == '.'
    requires ClassIn(s, 0, i) && ClassIn(s, i + 1, j) && ClassIn(s, j + 1, |s|)
    ensures NoWhitespace(s)
    ensures forall m :: 0 <= m < i ==> s[m] != '@'
    ensures forall m :: i < m < |s| ==> s[m] != '@'
  {
  }

  /** No '@' after index i leaves a count of zero in the suffix. */
  lemma NoAtAfter(s: string, i: int)
    requires 0 <= i < |s|
    requires forall m :: i < m < |s| ==> s[m] != '@'
    ensures Count(s[i + 1..], '@') == 0
  {
    var d := s[i + 1..];
    CountZero(d, '@');
    forall k | 0 <= k < |d| ensures d[k] != '@' {
      assert d[k] == s[i + 1 + k];
    }
  }

  /** An '@' with no other '@' around it is the first and the only one. */
  lemma SoleAt(s: string, i: int)
    requires 0 <= i < |s| && s[i] == '@'
    requires forall m :: 0 <= m < i ==> s[m] != '@'
    requires forall m :: i < m < |s| ==> s[m] != '@'
    ensures Count(s, '@') == 1 && IndexOf(s, '@') == i
  {
    CountSplit(s, '@', i);
    CountZero(s[..i], '@');
    NoAtAfter(s, i);
  }

  lemma EmailPatternToValid(s: string)
    requires EmailPattern(s)
    ensures ValidEmail(s)
  {
    var i, j :| 0 <= i < j < |s| && s[i] == '@' && s[j] == '.' &&
      IsRun(s[..i]) && IsRun(s[i + 1..j]) && IsRun(s[j + 1..]);
    assert s[..i] == s[0..i];
    assert s[j + 1..] == s[j + 1..|s|];
    RunRange(s, 0, i);
    RunRange(s, i + 1, j);
    RunRange(s, j + 1, |s|);
    RunsFacts(s, i, j);
    SoleAt(s, i);
    InteriorDotRange(s, i);
  }

  lemma ValidToEmailPattern(s: string)
    requires ValidEmail(s)
    ensures EmailPattern(s)
  {
    var i := IndexOf(s, '@');
    InteriorDotRange(s, i);
    var j :| i + 2 <= j < |s| - 1 && s[j] == '.';
    CountSplit(s, '@', i);
    CountZero(s[..i], '@');
    CountZero(s[i + 1..], '@');
    forall m | i < m < |s| ensures s[m] != '@' {
      assert s[i + 1..][m - i - 1] == s[m];
    }
    RunRange(s, 0, i);
    RunRange(s, i + 1, j);
    RunRange(s, j + 1, |s|);
    assert s[..i] == s[0..i];
    assert s[j + 1..] == s[j + 1..|s|];
  }

  /** The regex and the string conditions accept the same strings. */
  lemma EmailPatternIff(s: string)
    ensures EmailPattern(s) <==> ValidEmail(s)
  {
    if EmailPattern(s) {
      EmailPatternToValid(s);
    }
    if ValidEmail(s) {
      ValidToEmailPattern(s);
    }
  }

  /** An accepted address holds exactly one '@' and no whitespace. */
  lemma PatternShape(s: string, a: int, b: int)
    requires EmailPattern(s)
    requires 0 <= a < |s| && 0 <= b < |s| && s[a] == '@' && s[b] == '@'
    ensures a == b
    ensures NoWhitespace(s)
  {
  }

  /** What the scanner of TestEmail knows after reading s[..i]: the count of
      '@', the index of the first '@' (i while there is none), whether
      whitespace was met, and whether a '.' was met strictly inside the part
      after the first '@' read so far. */
  ghost predicate ScanState(s: string, i: int, ats: nat, at: nat, ws: bool, dot: bool) {
    && 0 <= i <= |s|
    && ats == Count(s[..i], '@')
    && at == IndexOf(s[..i], '@')
    && (ats == 0) == (at == i)
    && ws == !NoWhitespace(s[..i])
    && dot == (ats > 0 && DotIn(s, at + 2, i - 1))
  }

  /** Reading one more character keeps the scanner's knowledge exact. */
  lemma ScanStep(s: string, i: nat, ats: nat, at: nat, ws: bool, dot: bool)
    requires i < |s| && ScanState(s, i, ats, at, ws, dot)
    ensures ScanState(s, i + 1,
      if s[i] == '@' then ats + 1 else ats,
      if s[i] != '@' && ats == 0 then at + 1 else at,
      ws || IsWs(s[i]),
      dot || (ats > 0 && at + 2 <= i - 1 && s[i - 1] == '.'))
  {
    var c := s[i];
    assert s[..i + 1] == s[..i] + [c];
    CountSnoc(s[..i], c, '@');
    IndexOfSnoc(s[..i], c, '@');
    CountZero(s[..i + 1], '@');
    if i > 0 {
      DotInExtend(s, at + 2, i - 1);
    }
  }

  /** After the whole string, the scanner's verdict is the regex's. */
  lemma ScanDone(s: string, ats: nat, at: nat, ws: bool, dot: bool)
    requires ScanState(s, |s|, ats, at, ws, dot)
    ensures (ats == 1 && !ws && 0 < at < |s| && dot) == ValidEmail(s)
    ensures ValidEmail(s) == EmailPattern(s)
  {
    assert s[..|s|] == s;
    if 0 < at < |s| {
      InteriorDotRange(s, at);
    }
    EmailPatternIff(s);
  }

  /** `emailRegex.test(email)`: one pass over the string that keeps the count
      of '@', the index of the first '@', whether whitespace was met and
      whether an interior '.' of the domain was met. */
  method TestEmail(s: string) returns (ok: bool)
    ensures ok == ValidEmail(s)
    ensures ok == EmailPattern(s)
  {
    var ats, at, ws, dot := 0, 0, false, false;
    var i := 0;
    while i < |s|
      invariant ScanState(s, i, ats, at, ws, dot)
    {
      ScanStep(s, i, ats, at, ws, dot);
      if ats > 0 && at + 2 <= i - 1 && s[i - 1] == '.' {
        dot := true;
      }
      if s[i] == '@' {
        ats := ats + 1;
      } else if ats == 0 {
        at := at + 1;
      }
      if IsWs(s[i]) {
        ws := true;
      }
      i := i + 1;
    }
    ScanDone(s, ats, at, ws, dot);
    ok := ats == 1 && !ws && 0 < at < |s| && dot;
  }
}
