/**
 * The Python string built-ins the pipeline leans on, as total functions on
 * `string` (a sequence of code points, as Python's `str` is): `isspace`,
 * `strip`/`lstrip`/`rstrip`, `split('\n')` and `'\n'.join`, `splitlines`,
 * `in`, `find`, `startswith`, `replace`, slicing with `[:n]`, `lower` and
 * decimal rendering of integers.
 */
module Text {

  /** Python's `str.isspace()` on one code point; `re`'s `\s` on str patterns matches the same set. */
  predicate IsSpace(c: char) {
    c == ' ' || ('\t' <= c <= '\r') || ('\U{1C}' <= c <= '\U{1F}') || c == '\U{85}' || c == '\U{A0}'
    || c == '\U{1680}' || ('\U{2000}' <= c <= '\U{200A}') || c == '\U{2028}' || c == '\U{2029}'
    || c == '\U{202F}' || c == '\U{205F}' || c == '\U{3000}'
  }

  predicate NotSpace(c: char) {
    !IsSpace(c)
  }

  predicate NotNewline(c: char) {
    c != '\n'
  }

  /** `re`'s `\d`, restricted to the ASCII digits. */
  predicate IsDigit(c: char) {
    '0' <= c <= '9'
  }

  predicate AllDigits(s: string) {
    forall i :: 0 <= i < |s| ==> IsDigit(s[i])
  }

  /** The code points at which Python's `str.splitlines()` ends a line. */
  predicate IsLineBoundary(c: char) {
    c == '\n' || c == '\r' || c == '\U{B}' || c == '\U{C}' || ('\U{1C}' <= c <= '\U{1E}')
    || c == '\U{85}' || c == '\U{2028}' || c == '\U{2029}'
  }

  /** The first index at or after `i` whose character satisfies `p`, or `|s|` if there is none. */
  function Until(s: string, i: nat, p: char -> bool): (j: nat)
    requires i <= |s|
    ensures i <= j <= |s|
    ensures forall k :: i <= k < j ==> !p(s[k])
    ensures j < |s| ==> p(s[j])
    decreases |s| - i
  {
    if i == |s| || p(s[i]) then i else Until(s, i + 1, p)
  }

  /** The first index at or after `i` holding `c`, or `|s|` if there is none. */
  function UntilChar(s: string, i: nat, c: char): (j: nat)
    requires i <= |s|
    ensures i <= j <= |s|
    ensures forall k :: i <= k < j ==> s[k] != c
    ensures j < |s| ==> s[j] == c
    decreases |s| - i
  {
    if i == |s| || s[i] == c then i else UntilChar(s, i + 1, c)
  }

  predicate StartsWith(s: string, prefix: string) {
    |prefix| <= |s| && s[..|prefix|] == prefix
  }

  predicate EndsWith(s: string, suffix: string) {
    |suffix| <= |s| && s[|s| - |suffix|..] == suffix
  }

  /** `s.find(sub)`: the first index at which `sub` occurs in `s`, or -1. */
  function Find(s: string, sub: string): (r: int)
    ensures -1 <= r <= |s|
    ensures r >= 0 ==> StartsWith(s[r..], sub)
    ensures r >= 0 ==> forall j :: 0 <= j < r ==> !StartsWith(s[j..], sub)
    ensures r < 0 ==> forall j :: 0 <= j <= |s| ==> !StartsWith(s[j..], sub)
    decreases |s|
  {
    if StartsWith(s, sub) then 0
    else if |s| == 0 then -1
    else
      var k := Find(s[1..], sub);
      assert forall j :: 1 <= j <= |s| ==> s[j..] == s[1..][j - 1..];
      if k < 0 then -1 else k + 1
  }

  /** Python's `sub in s`. */
  predicate Contains(s: string, sub: string) {
    Find(s, sub) >= 0
  }

  lemma ContainsAt(s: string, sub: string, i: nat)
    requires i <= |s| && StartsWith(s[i..], sub)
    ensures Contains(s, sub)
  {
  }

  lemma NotContainsAt(s: string, sub: string, i: nat)
    requires i <= |s| && !Contains(s, sub)
    ensures !StartsWith(s[i..], sub)
  {
  }

  /** Where `Contains` finds `sub`, as a slice of `s`. */
  lemma FoundAt(s: string, sub: string) returns (k: nat)
    requires Contains(s, sub)
    ensures k + |sub| <= |s| && s[k..k + |sub|] == sub
  {
    k := Find(s, sub);
    assert s[k..][..|sub|] == s[k..k + |sub|];
  }

  /** A slice equal to `sub` is an occurrence of it. */
  lemma ContainsSlice(s: string, sub: string, i: nat)
    requires i + |sub| <= |s| && s[i..i + |sub|] == sub
    ensures Contains(s, sub)
  {
    assert s[i..][..|sub|] == s[i..i + |sub|];
    ContainsAt(s, sub, i);
  }

  /** A slice is the concatenation of the three slices it splits into. */
  lemma SliceSplit3(s: string, a: nat, b: nat, c: nat, d: nat)
    requires a <= b <= c <= d <= |s|
    ensures s[a..d] == s[a..b] + s[b..c] + s[c..d]
  {
    forall x | 0 <= x < d - a ensures s[a..d][x] == (s[a..b] + s[b..c] + s[c..d])[x] {
      if x < b - a {
      } else if x < c - a {
        assert (s[a..b] + s[b..c] + s[c..d])[x] == s[b..c][x - (b - a)];
      } else {
        assert (s[a..b] + s[b..c] + s[c..d])[x] == s[c..d][x - (c - a)];
      }
    }
  }

  /** A slice spelling `x + y + z` holds `x`, `y` and `z` one after the other. */
  lemma SliceParts3(s: string, i: nat, x: string, y: string, z: string)
    requires i + |x| + |y| + |z| <= |s| && s[i..i + |x| + |y| + |z|] == x + y + z
    ensures s[i..i + |x|] == x && s[i + |x|..i + |x| + |y|] == y
    ensures s[i + |x| + |y|..i + |x| + |y| + |z|] == z
  {
    var w := x + y + z;
    forall m | 0 <= m < |w| ensures s[i + m] == w[m] {
      assert s[i + m] == s[i..i + |w|][m];
    }
    forall m | 0 <= m < |x| ensures s[i + m] == x[m] {
      assert w[m] == x[m];
    }
    forall m | 0 <= m < |y| ensures s[i + |x| + m] == y[m] {
      assert w[|x| + m] == y[m];
    }
    forall m | 0 <= m < |z| ensures s[i + |x| + |y| + m] == z[m] {
      assert w[|x| + |y| + m] == z[m];
    }
    assert s[i..i + |x|] == x;
    assert s[i + |x|..i + |x| + |y|] == y;
    assert s[i + |x| + |y|..i + |x| + |y| + |z|] == z;
  }

  /** An occurrence inside a part is an occurrence in the whole. */
  lemma ContainsInfix(a: string, m: string, b: string, sub: string)
    requires Contains(m, sub)
    ensures Contains(a + m + b, sub)
  {
    var k := FoundAt(m, sub);
    var w := a + m + b;
    forall x | 0 <= x < |sub| ensures w[|a| + k + x] == sub[x] {
      assert w[|a| + k + x] == m[k + x] == m[k..k + |sub|][x];
    }
    assert w[|a| + k..|a| + k + |sub|] == sub;
    ContainsSlice(w, sub, |a| + k);
  }

  lemma ContainsTrans(a: string, b: string, c: string)
    requires Contains(a, b) && Contains(b, c)
    ensures Contains(a, c)
  {
    var i := FoundAt(a, b);
    var j := FoundAt(b, c);
    forall x | 0 <= x < |c| ensures a[i + j + x] == c[x] {
      assert a[i + j + x] == a[i..i + |b|][j + x] == b[j + x] == b[j..j + |c|][x];
    }
    assert a[i + j..i + j + |c|] == c;
    ContainsSlice(a, c, i + j);
  }

  lemma ContainsLeft(a: string, b: string, sub: string)
    requires Contains(a, sub)
    ensures Contains(a + b, sub)
  {
    var k := Find(a, sub);
    assert (a + b)[k..][..|sub|] == a[k..][..|sub|];
    ContainsAt(a + b, sub, k);
  }

  lemma ContainsRight(a: string, b: string, sub: string)
    requires Contains(b, sub)
    ensures Contains(a + b, sub)
  {
    var k := Find(b, sub);
    assert (a + b)[|a| + k..] == b[k..];
    ContainsAt(a + b, sub, |a| + k);
  }

  function LStrip(s: string): (r: string)
    ensures |r| <= |s|
    ensures r == [] || !IsSpace(r[0])
    ensures forall i :: 0 <= i < |s| - |r| ==> IsSpace(s[i])
    decreases |s|
  {
    if |s| > 0 && IsSpace(s[0]) then LStrip(s[1..]) else s
  }

  /** What `lstrip` keeps is a suffix of its input. */
  lemma {:induction false} LStripSuffix(s: string)
    ensures LStrip(s) == s[|s| - |LStrip(s)|..]
    decreases |s|
  {
    if |s| > 0 && IsSpace(s[0]) {
      LStripSuffix(s[1..]);
    }
  }

  function RStrip(s: string): (r: string)
    ensures |r| <= |s|
    ensures r == [] || !IsSpace(r[|r| - 1])
    ensures forall i :: |r| <= i < |s| ==> IsSpace(s[i])
    decreases |s|
  {
    if |s| > 0 && IsSpace(s[|s| - 1]) then RStrip(s[..|s| - 1]) else s
  }

  /** What `rstrip` keeps is a prefix of its input. */
  lemma {:induction false} RStripPrefix(s: string)
    ensures RStrip(s) == s[..|RStrip(s)|]
    decreases |s|
  {
    if |s| > 0 && IsSpace(s[|s| - 1]) {
      RStripPrefix(s[..|s| - 1]);
    }
  }

  /** `r` is `s` with `k` white-space characters removed in front and only white space removed behind. */
  predicate TrimmedFrom(s: string, r: string, k: int) {
    && 0 <= k && k + |r| <= |s| && s[k..k + |r|] == r
    && (forall i :: 0 <= i < k ==> IsSpace(s[i]))
    && (forall i :: k + |r| <= i < |s| ==> IsSpace(s[i]))
  }

  /** Python's `str.strip()`. */
  function Strip(s: string): string {
    RStrip(LStrip(s))
  }

  /** The strip has no white space at either end, and only white space was removed from `s`. */
  lemma StripShape(s: string)
    ensures var r := Strip(s);
      && |r| <= |s|
      && (r == [] || (!IsSpace(r[0]) && !IsSpace(r[|r| - 1])))
      && exists k :: TrimmedFrom(s, r, k)
  {
    var l := LStrip(s);
    var r := RStrip(l);
    var k := |s| - |l|;
    LStripSuffix(s);
    RStripPrefix(l);
    assert l == s[k..];
    assert r == l[..|r|];
    assert s[k..k + |r|] == r by {
      assert s[k..][..|r|] == s[k..k + |r|];
    }
    forall i | k + |r| <= i < |s| ensures IsSpace(s[i]) {
      assert s[i] == l[i - k];
    }
    assert TrimmedFrom(s, r, k);
  }

  /** White space in front does not change the strip. */
  lemma StripSpaceCons(c: char, s: string)
    requires IsSpace(c)
    ensures Strip([c] + s) == Strip(s)
  {
    assert ([c] + s)[1..] == s;
  }

  /** A string with white space at neither end is its own strip. */
  lemma StripTrimmed(s: string)
    requires s == [] || (!IsSpace(s[0]) && !IsSpace(s[|s| - 1]))
    ensures Strip(s) == s
  {
  }

  /** `'\n'.join(parts)` and the like. */
  function Join(parts: seq<string>, sep: string): string
  {
    if |parts| == 0 then ""
    else if |parts| == 1 then parts[0]
    else parts[0] + sep + Join(parts[1..], sep)
  }

  /** Joining one more part adds the separator and the part at the end. */
  lemma {:induction false} JoinSnoc(parts: seq<string>, x: string, sep: string)
    ensures Join(parts + [x], sep) == if |parts| == 0 then x else Join(parts, sep) + sep + x
    decreases |parts|
  {
    if |parts| > 1 {
      assert (parts + [x])[1..] == parts[1..] + [x];
      JoinSnoc(parts[1..], x, sep);
    } else if |parts| == 1 {
      assert (parts + [x])[1..] == [x];
    }
  }

  /** Python's `s.split(sep)` for a one-character separator: never empty, pieces free of `sep`. */
  function Split(s: string, sep: char): (r: seq<string>)
    ensures |r| >= 1
    ensures forall k :: 0 <= k < |r| ==> sep !in r[k]
    decreases |s|
  {
    if |s| == 0 then [""]
    else
      var rest := Split(s[1..], sep);
      if s[0] == sep then [""] + rest else [[s[0]] + rest[0]] + rest[1..]
  }

  lemma {:induction false} JoinSplit(s: string, sep: char)
    ensures Join(Split(s, sep), [sep]) == s
    decreases |s|
  {
    if |s| > 0 {
      var rest := Split(s[1..], sep);
      JoinSplit(s[1..], sep);
      if s[0] != sep {
        var r := Split(s, sep);
        assert r[1..] == rest[1..];
        if |rest| > 1 {
          calc {
            Join(r, [sep]);
            r[0] + [sep] + Join(rest[1..], [sep]);
            [s[0]] + (rest[0] + [sep] + Join(rest[1..], [sep]));
            [s[0]] + Join(rest, [sep]);
          }
        }
      }
    }
  }

  lemma {:induction false} SplitJoin(parts: seq<string>, sep: char)
    requires |parts| >= 1
    requires forall k :: 0 <= k < |parts| ==> sep !in parts[k]
    ensures Split(Join(parts, [sep]), sep) == parts
    decreases |parts|, |parts[0]|
  {
    if |parts[0]| > 0 {
      var c := parts[0][0];
      var parts' := [parts[0][1..]] + parts[1..];
      assert Join(parts, [sep]) == [c] + Join(parts', [sep]) by {
        if |parts| > 1 {
          assert parts'[1..] == parts[1..];
        }
      }
      SplitJoin(parts', sep);
      assert [c] + parts'[0] == parts[0];
    } else if |parts| > 1 {
      SplitJoin(parts[1..], sep);
      assert Join(parts, [sep]) == [sep] + Join(parts[1..], [sep]);
    }
  }

  /** Splitting a join of `sep`-free pieces gives back as many pieces. */
  lemma SplitJoinLength(parts: seq<string>, sep: char)
    requires |parts| >= 1
    requires forall k :: 0 <= k < |parts| ==> sep !in parts[k]
    ensures |Split(Join(parts, [sep]), sep)| == |parts|
  {
    SplitJoin(parts, sep);
  }

  /** Python's `str.splitlines()`: no empty last line for a trailing break, `"\r\n"` is one break. */
  function SplitLines(s: string): (r: seq<string>)
    decreases |s|
  {
    if |s| == 0 then []
    else
      var e := Until(s, 0, IsLineBoundary);
      if e == |s| then [s]
      else
        var skip := if s[e] == '\r' && e + 1 < |s| && s[e + 1] == '\n' then 2 else 1;
        [s[..e]] + SplitLines(s[e + skip..])
  }

  /** `Until` is determined by its contract: the first index from `i` on where `p` holds. */
  lemma UntilUnique(s: string, i: nat, p: char -> bool, j: nat)
    requires i <= j <= |s|
    requires forall k :: i <= k < j ==> !p(s[k])
    requires j < |s| ==> p(s[j])
    ensures Until(s, i, p) == j
  {
    var u := Until(s, i, p);
    assert u <= j by {
      if j < |s| {
        assert p(s[j]);
      }
    }
    assert u >= j by {
      if u < |s| {
        assert p(s[u]);
      }
    }
  }

  /**
   * A line of `x` ended by `'\n'` and followed by `y`: the lines are those of
   * `x` (one empty line when `x` is empty) and then those of `y`, provided `x`
   * does not end in a line boundary that could merge with the `'\n'`.
   */
  lemma {:induction false} SplitLinesJoin(x: string, y: string)
    requires x == [] || !IsLineBoundary(x[|x| - 1])
    ensures SplitLines(x + "\n" + y) == (if x == [] then [""] else SplitLines(x)) + SplitLines(y)
    decreases |x|
  {
    if x == [] {
      SplitLinesBlank(y);
    } else if Until(x, 0, IsLineBoundary) == |x| {
      SplitLinesSingle(x, y);
    } else {
      var head, rest := SplitLinesStep(x, y);
      SplitLinesJoin(rest, y);
      ConsGlue(SplitLines(x), SplitLines(x + "\n" + y), head, SplitLines(rest),
        SplitLines(rest + "\n" + y), SplitLines(y));
    }
  }

  /** The inductive step of `SplitLinesJoin`, as sequence algebra: a first line, then the rest joined. */
  lemma ConsGlue(whole: seq<string>, joined: seq<string>, h: string, rest: seq<string>, restJoined: seq<string>, tail: seq<string>)
    requires whole == [h] + rest && joined == [h] + restJoined && restJoined == rest + tail
    ensures joined == whole + tail
  {
  }

  /** A leading `'\n'` is one empty line. */
  lemma SplitLinesBlank(y: string)
    ensures SplitLines("\n" + y) == [""] + SplitLines(y)
  {
    var s := "\n" + y;
    UntilUnique(s, 0, IsLineBoundary, 0);
    assert s[1..] == y;
  }

  /** A line of `x` without breaks, ended by `'\n'`. */
  lemma SplitLinesSingle(x: string, y: string)
    requires x != [] && Until(x, 0, IsLineBoundary) == |x|
    ensures SplitLines(x + "\n" + y) == SplitLines(x) + SplitLines(y)
  {
    var s := x + "\n" + y;
    assert forall k :: 0 <= k < |x| ==> !IsLineBoundary(x[k]);
    assert forall k :: 0 <= k < |x| ==> s[k] == x[k];
    UntilUnique(s, 0, IsLineBoundary, |x|);
    assert s[..|x|] == x && s[|x| + 1..] == y;
  }

  /** A line break inside `x` ends the same first line in `x + "\n" + y` as in `x`. */
  lemma SplitLinesStep(x: string, y: string) returns (head: string, rest: string)
    requires x != [] && !IsLineBoundary(x[|x| - 1]) && Until(x, 0, IsLineBoundary) < |x|
    ensures 0 < |rest| < |x| && !IsLineBoundary(rest[|rest| - 1])
    ensures SplitLines(x) == [head] + SplitLines(rest)
    ensures SplitLines(x + "\n" + y) == [head] + SplitLines(rest + "\n" + y)
  {
    var s := x + "\n" + y;
    var e := Until(x, 0, IsLineBoundary);
    assert e + 1 < |x|;
    UntilUnique(s, 0, IsLineBoundary, e);
    var skip := if x[e] == '\r' && x[e + 1] == '\n' then 2 else 1;
    assert s[e] == x[e] && s[e + 1] == x[e + 1];
    head, rest := x[..e], x[e + skip..];
    assert rest[|rest| - 1] == x[|x| - 1];
    assert s[e + skip..] == rest + "\n" + y;
    assert s[..e] == head;
  }

  /** The stripped text is a slice of the text, with no white space at either end. */
  lemma StripSlice(s: string) returns (k: nat)
    ensures var r := Strip(s);
      && k + |r| <= |s| && s[k..k + |r|] == r
      && (r == [] || (!IsSpace(r[0]) && !IsSpace(r[|r| - 1])))
  {
    StripShape(s);
    k :| TrimmedFrom(s, Strip(s), k);
  }

  /** A text holding a non-white-space character does not strip to nothing. */
  lemma StripNonEmpty(s: string, i: nat)
    requires i < |s| && !IsSpace(s[i])
    ensures Strip(s) != []
  {
    StripShape(s);
    var k :| TrimmedFrom(s, Strip(s), k);
  }

  /** A join starts with its first part. */
  lemma JoinHead(parts: seq<string>, sep: string)
    requires |parts| > 0
    ensures |Join(parts, sep)| >= |parts[0]| && Join(parts, sep)[..|parts[0]|] == parts[0]
  {
    if |parts| > 1 {
      assert Join(parts, sep) == parts[0] + (sep + Join(parts[1..], sep));
    }
  }

  /** Python's `s[:n]`. */
  function Take(s: string, n: nat): (r: string)
    ensures |r| == if n <= |s| then n else |s|
    ensures r == s[..|r|]
  {
    if n <= |s| then s[..n] else s
  }

  /** Python's `s.replace(pat, rep)` for a non-empty pattern: left to right, non-overlapping. */
  function ReplaceAll(s: string, pat: string, rep: string): string
    requires |pat| > 0
    decreases |s|
  {
    if |s| < |pat| then s
    else if s[..|pat|] == pat then rep + ReplaceAll(s[|pat|..], pat, rep)
    else [s[0]] + ReplaceAll(s[1..], pat, rep)
  }

  /** Where the pattern does not occur, `replace` changes nothing. */
  lemma {:induction false} ReplaceAllAbsent(s: string, pat: string, rep: string)
    requires |pat| > 0 && !Contains(s, pat)
    ensures ReplaceAll(s, pat, rep) == s
    decreases |s|
  {
    if |s| >= |pat| {
      NotContainsAt(s, pat, 0);
      assert s[0..] == s;
      forall j | 0 <= j <= |s[1..]| ensures !StartsWith(s[1..][j..], pat) {
        NotContainsAt(s, pat, j + 1);
        assert s[1..][j..] == s[j + 1..];
      }
      ReplaceAllAbsent(s[1..], pat, rep);
    }
  }

  /** `replace` leaves a prefix alone when no occurrence of the pattern starts inside it. */
  lemma {:induction false} ReplaceAllSkip(x: string, y: string, pat: string, rep: string)
    requires |pat| > 0
    requires forall j :: 0 <= j < |x| ==> !StartsWith((x + y)[j..], pat)
    ensures ReplaceAll(x + y, pat, rep) == x + ReplaceAll(y, pat, rep)
    decreases |x|
  {
    if |x| > 0 {
      var s := x + y;
      assert s[0..] == s;
      assert !StartsWith(s, pat);
      assert s[1..] == x[1..] + y;
      forall j | 0 <= j < |x[1..]| ensures !StartsWith((x[1..] + y)[j..], pat) {
        assert (x[1..] + y)[j..] == s[j + 1..];
      }
      ReplaceAllSkip(x[1..], y, pat, rep);
      if |s| < |pat| {
        assert ReplaceAll(y, pat, rep) == y;
      } else {
        calc {
          ReplaceAll(s, pat, rep);
          [s[0]] + ReplaceAll(s[1..], pat, rep);
          [x[0]] + ReplaceAll(x[1..] + y, pat, rep);
          [x[0]] + (x[1..] + ReplaceAll(y, pat, rep));
          { assert [x[0]] + x[1..] == x; }
          x + ReplaceAll(y, pat, rep);
        }
      }
    } else {
      assert x + y == y;
    }
  }

  /** Every `a` in `s` turned into `b`. */
  function SwapChar(s: string, a: char, b: char): (r: string)
    ensures |r| == |s| && forall i :: 0 <= i < |s| ==> r[i] == if s[i] == a then b else s[i]
  {
    seq(|s|, i requires 0 <= i < |s| => if s[i] == a then b else s[i])
  }

  /** Replacing a one-character pattern by a one-character string swaps characters. */
  lemma {:induction false} ReplaceChar(s: string, a: char, b: char)
    ensures ReplaceAll(s, [a], [b]) == SwapChar(s, a, b)
    decreases |s|
  {
    if |s| > 0 {
      ReplaceChar(s[1..], a, b);
      assert SwapChar(s, a, b) == [if s[0] == a then b else s[0]] + SwapChar(s[1..], a, b);
    }
  }

  /** Swapping two characters other than `sep` keeps the number of pieces. */
  lemma {:induction false} SwapCharSplit(s: string, a: char, b: char, sep: char)
    requires a != sep && b != sep
    ensures |Split(SwapChar(s, a, b), sep)| == |Split(s, sep)|
    decreases |s|
  {
    if |s| > 0 {
      SwapCharSplit(s[1..], a, b, sep);
      assert SwapChar(s, a, b)[1..] == SwapChar(s[1..], a, b);
    }
  }

  /** `replace` on a string that starts with the pattern. */
  lemma ReplaceAllHead(y: string, pat: string, rep: string)
    requires |pat| > 0
    ensures ReplaceAll(pat + y, pat, rep) == rep + ReplaceAll(y, pat, rep)
  {
    assert (pat + y)[..|pat|] == pat;
    assert (pat + y)[|pat|..] == y;
  }

  function DigitChar(d: nat): (c: char)
    requires d < 10
    ensures IsDigit(c)
  {
    ('0' as int + d) as char
  }

  /** `str(n)` for a non-negative integer. */
  function NatToString(n: nat): (r: string)
    ensures |r| >= 1 && AllDigits(r)
    decreases n
  {
    if n < 10 then [DigitChar(n)] else NatToString(n / 10) + [DigitChar(n % 10)]
  }

  /** The number a string of decimal digits denotes (leading zeros allowed). */
  function DigitsValue(s: string): nat
    requires AllDigits(s)
  {
    if |s| == 0 then 0 else DigitsValue(s[..|s| - 1]) * 10 + (s[|s| - 1] as int - '0' as int)
  }

  lemma {:induction false} NatToStringValue(n: nat)
    ensures DigitsValue(NatToString(n)) == n
    decreases n
  {
    if n >= 10 {
      NatToStringValue(n / 10);
      var s := NatToString(n);
      assert s[..|s| - 1] == NatToString(n / 10);
    }
  }

  lemma {:induction false} LeadingZeroValue(s: string)
    requires AllDigits(s)
    ensures DigitsValue("0" + s) == DigitsValue(s)
    decreases |s|
  {
    if |s| > 0 {
      assert ("0" + s)[..|"0" + s| - 1] == "0" + s[..|s| - 1];
      LeadingZeroValue(s[..|s| - 1]);
    }
  }

  /** Python's `f"{n:0{w}d}"`: the decimal digits of `n`, left-padded with zeros to width `w`. */
  function ZeroPad(s: string, w: nat): (r: string)
    requires AllDigits(s)
    ensures AllDigits(r) && |r| >= w && |r| >= |s|
    ensures DigitsValue(r) == DigitsValue(s)
    decreases w - |s|
  {
    if |s| >= w then s
    else
      LeadingZeroValue(s);
      ZeroPad("0" + s, w)
  }

  /** Distinct numbers get distinct zero-padded renderings. */
  lemma PaddedInjective(m: nat, n: nat, w: nat)
    requires ZeroPad(NatToString(m), w) == ZeroPad(NatToString(n), w)
    ensures m == n
  {
    NatToStringValue(m);
    NatToStringValue(n);
  }

  /** ASCII-only `str.lower()`. */
  function Lower(s: string): (r: string)
    ensures |r| == |s|
    ensures forall i :: 0 <= i < |s| ==> r[i] == if 'A' <= s[i] <= 'Z' then (s[i] as int + 32) as char else s[i]
  {
    seq(|s|, i requires 0 <= i < |s| => if 'A' <= s[i] <= 'Z' then (s[i] as int + 32) as char else s[i])
  }

  /** Python's `s[:max - 3] + "..."` applied when `len(s) > max`. */
  function Ellipsize(s: string, max: nat): (r: string)
    requires max >= 3
    ensures |s| <= max ==> r == s
    ensures |s| > max ==> |r| == max && r == s[..max - 3] + "..."
  {
    if |s| > max then s[..max - 3] + "..." else s
  }
}
