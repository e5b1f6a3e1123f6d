/**
 * `re.search` for the fixed patterns the summarizers and scripts look for.
 * A pattern is given by the end of the match `re` finds when it tries the
 * pattern at exactly one index (worked out by hand for each pattern, as the
 * matchers of `Rewrite` are); `Leftmost` then tries the indices from the
 * left, as `re.search` does, and the first one that matches wins.
 */
module Scan {
  import opened Wrappers
  import opened Text

  /** The first index in `[i, n)` satisfying `p`. */
  function Search(p: nat -> bool, i: nat, n: nat): (r: Option<nat>)
    requires i <= n
    ensures r.Some? ==> i <= r.value < n && p(r.value)
    ensures forall k :: i <= k < n && (r.None? || k < r.value) ==> !p(k)
    decreases n - i
  {
    if i == n then None
    else if p(i) then Some(i)
    else Search(p, i + 1, n)
  }

  /** The last index in `[lo, hi)` whose character satisfies `p`. */
  function Last(s: string, lo: nat, hi: nat, p: char -> bool): (r: Option<nat>)
    requires lo <= hi <= |s|
    ensures r.Some? ==> lo <= r.value < hi && p(s[r.value])
    ensures forall k :: lo <= k < hi && (r.None? || r.value < k) ==> !p(s[k])
    decreases hi - lo
  {
    if hi == lo then None
    else if p(s[hi - 1]) then Some(hi - 1)
    else Last(s, lo, hi - 1, p)
  }

  /**
   * Where `(.+)` or `(.+?)` starts, up to the end of its line, once `\s*` or
   * `\s+` has taken the white space from `i` on: after the whole run when
   * something follows it; when the run reaches the end of the text, the
   * repetition gives back characters down to the last one other than `'\n'`
   * (which must lie after `i`, so that `\s+` keeps at least one).
   */
  function GroupStart(s: string, i: nat): (r: Option<nat>)
    requires i <= |s|
    ensures r.Some? ==> i <= r.value < |s| && s[r.value] != '\n'
    ensures r.Some? && i < |s| && IsSpace(s[i]) ==> i < r.value
  {
    var w := Until(s, i, NotSpace);
    if w < |s| then Some(w) else if i < |s| then Last(s, i + 1, |s|, NotNewline) else None
  }

  /** A pattern: the end of its match at an index, if it matches there. */
  type Pattern = (string, nat) -> Option<nat>

  predicate MatchesAt(s: string, pat: Pattern, i: nat) {
    var r := pat(s, i);
    r.Some? && i < r.value <= |s|
  }

  /** `re.search(pattern, s)`: the index of the leftmost match. */
  function Leftmost(s: string, pat: Pattern): (r: Option<nat>)
    ensures r.Some? ==> r.value < |s| && MatchesAt(s, pat, r.value)
    ensures forall k :: 0 <= k < |s| && (r.None? || k < r.value) ==> !MatchesAt(s, pat, k)
  {
    var p := (k: nat) => MatchesAt(s, pat, k);
    assert forall k: nat :: p(k) == MatchesAt(s, pat, k);
    Search(p, 0, |s|)
  }

  /** `re.search(pattern, s).group(0)`. */
  function LeftmostText(s: string, pat: Pattern): (r: Option<string>)
    ensures r.Some? <==> Leftmost(s, pat).Some?
    ensures r.Some? ==> |r.value| > 0 && Contains(s, r.value)
  {
    match Leftmost(s, pat)
    case None => None
    case Some(i) =>
      var e := pat(s, i).value;
      assert StartsWith(s[i..], s[i..e]);
      ContainsAt(s, s[i..e], i);
      Some(s[i..e])
  }

  /** A match at the very start of the text is the leftmost one. */
  lemma LeftmostAtStart(s: string, pat: Pattern)
    requires MatchesAt(s, pat, 0)
    ensures Leftmost(s, pat) == Some(0)
    ensures LeftmostText(s, pat) == Some(s[..pat(s, 0).value])
  {
    assert 0 < |s|;
  }

  predicate NotDigit(c: char) {
    !IsDigit(c)
  }

  /** `\d{n}` at `i`. */
  predicate DigitsAt(s: string, i: nat, n: nat) {
    i + n <= |s| && forall k :: i <= k < i + n ==> IsDigit(s[k])
  }

  /**
   * Where `\d{1,2}` followed by the character `c` (not a digit) can end when
   * tried at `i`: the run of digits from `i` must have one or two characters
   * and be followed by `c`; a longer run leaves a digit where `c` is needed,
   * whichever length the repetition tries.
   */
  function ShortRunThen(s: string, i: nat, c: char -> bool): (r: Option<nat>)
    requires i <= |s|
    ensures r.Some? ==> i < r.value < |s| && r.value <= i + 2 && c(s[r.value]) && DigitsAt(s, i, r.value - i)
  {
    var a := Until(s, i, NotDigit);
    if 1 <= a - i <= 2 && a < |s| && c(s[a]) then Some(a) else None
  }

  /** A run of one or two digits followed by a character `c` accepts is found by `ShortRunThen`. */
  lemma ShortRunThenOf(s: string, i: nat, n: nat, c: char -> bool)
    requires 1 <= n <= 2 && DigitsAt(s, i, n) && i + n < |s| && c(s[i + n]) && !IsDigit(s[i + n])
    ensures ShortRunThen(s, i, c) == Some(i + n)
  {
    UntilUnique(s, i, NotDigit, i + n);
  }
}
