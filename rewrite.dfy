/**
 * `re.sub` for the handful of patterns the pipeline uses. A pattern is given
 * by a matcher: the match `re` finds when it tries the pattern at exactly one
 * index (each matcher below is the pattern's greedy/backtracking behaviour
 * worked out by hand). `Sub` then scans left to right as `re.sub` does: at a
 * match it emits the replacement and resumes after the match, otherwise it
 * copies one character and tries the next index. None of the patterns can
 * match the empty string, so the empty-match rules of `re` never apply.
 */
module Rewrite {
  import opened Wrappers
  import opened Text

  /** A match: the index just after it and the text that replaces it. */
  datatype Hit = Hit(end: nat, repl: string)

  type Matcher = (string, nat) -> Option<Hit>

  predicate HitAt(s: string, i: nat, h: Option<Hit>) {
    h.Some? && i < h.value.end <= |s|
  }

  /** `re.sub(pattern, repl, s[i..])` where `m` gives the pattern's matches in `s`. */
  function Sub(s: string, m: Matcher, i: nat): string
    requires i <= |s|
    decreases |s| - i
  {
    if i == |s| then ""
    else
      var h := m(s, i);
      if HitAt(s, i, h) then h.value.repl + Sub(s, m, h.value.end)
      else [s[i]] + Sub(s, m, i + 1)
  }

  /** Where every match is replaced by the very text it matched, `re.sub` returns its input. */
  lemma {:induction false} SubSame(s: string, m: Matcher, i: nat)
    requires i <= |s|
    requires forall j :: i <= j < |s| && HitAt(s, j, m(s, j)) ==> m(s, j).value.repl == s[j..m(s, j).value.end]
    ensures Sub(s, m, i) == s[i..]
    decreases |s| - i
  {
    if i < |s| {
      var h := m(s, i);
      if HitAt(s, i, h) {
        SubSame(s, m, h.value.end);
        assert s[i..] == s[i..h.value.end] + s[h.value.end..];
      } else {
        SubSame(s, m, i + 1);
        assert s[i..] == [s[i]] + s[i + 1..];
      }
    }
  }

  /** `s` with every character of `cs` removed. */
  function Drop(s: string, cs: set<char>): (r: string)
    ensures |r| <= |s|
    ensures forall k :: 0 <= k < |r| ==> r[k] !in cs
  {
    if |s| == 0 then ""
    else (if s[0] in cs then "" else [s[0]]) + Drop(s[1..], cs)
  }

  lemma {:induction false} DropAppend(a: string, b: string, cs: set<char>)
    ensures Drop(a + b, cs) == Drop(a, cs) + Drop(b, cs)
    decreases |a|
  {
    if |a| > 0 {
      assert (a + b)[1..] == a[1..] + b;
      DropAppend(a[1..], b, cs);
    } else {
      assert a + b == b;
    }
  }

  lemma {:induction false} DropTwice(s: string, a: set<char>, b: set<char>)
    ensures Drop(Drop(s, a), b) == Drop(s, a + b)
    decreases |s|
  {
    if |s| > 0 {
      DropTwice(s[1..], a, b);
      var head := if s[0] in a then "" else [s[0]];
      DropAppend(head, Drop(s[1..], a), b);
    }
  }

  lemma {:induction false} DropNone(s: string, cs: set<char>)
    requires forall k :: 0 <= k < |s| ==> s[k] !in cs
    ensures Drop(s, cs) == s
    decreases |s|
  {
    if |s| > 0 {
      DropNone(s[1..], cs);
    }
  }

  /**
   * If every replacement differs from the text it replaces only in characters
   * of `cs`, then so does the whole rewrite.
   */
  lemma {:induction false} SubKeepsOthers(s: string, m: Matcher, i: nat, cs: set<char>)
    requires i <= |s|
    requires forall j :: i <= j < |s| && HitAt(s, j, m(s, j)) ==>
               Drop(m(s, j).value.repl, cs) == Drop(s[j..m(s, j).value.end], cs)
    ensures Drop(Sub(s, m, i), cs) == Drop(s[i..], cs)
    decreases |s| - i
  {
    if i < |s| {
      var head, next := SubUnfold(s, m, i);
      SubKeepsOthers(s, m, next, cs);
      DropGlue(head, Sub(s, m, next), s[i..next], s[next..], cs);
    }
  }

  /**
   * One step of `Sub` at `i`: the piece it emits and the index it resumes
   * at; the piece is the replacement of a match, or the character copied.
   */
  lemma SubUnfold(s: string, m: Matcher, i: nat) returns (head: string, next: nat)
    requires i < |s|
    ensures i < next <= |s| && Sub(s, m, i) == head + Sub(s, m, next) && s[i..] == s[i..next] + s[next..]
    ensures HitAt(s, i, m(s, i)) ==> head == m(s, i).value.repl && next == m(s, i).value.end
    ensures !HitAt(s, i, m(s, i)) ==> head == [s[i]] == s[i..next] && next == i + 1
  {
    var h := m(s, i);
    if HitAt(s, i, h) {
      head, next := h.value.repl, h.value.end;
    } else {
      head, next := [s[i]], i + 1;
      assert s[i..next] == [s[i]];
    }
    assert s[i..] == s[i..next] + s[next..];
  }

  /** Dropping `cs` from two texts that agree after the drop, part by part. */
  lemma DropGlue(x: string, y: string, p: string, q: string, cs: set<char>)
    requires Drop(x, cs) == Drop(p, cs) && Drop(y, cs) == Drop(q, cs)
    ensures Drop(x + y, cs) == Drop(p + q, cs)
  {
    DropAppend(x, y, cs);
    DropAppend(p, q, cs);
  }

  /** `k` copies of `c`. */
  function Repeat(c: char, k: nat): (r: string)
    ensures |r| == k && forall j :: 0 <= j < k ==> r[j] == c
  {
    seq(k, _ => c)
  }

  /**
   * `D([^c]+)D` with `D` the delimiter `c` repeated `k` times, tried at `i`:
   * `\*\*\*([^\*]+)\*\*\*`, `\*\*([^\*]+)\*\*`, `\*([^\*]+)\*`, `\_([^\_]+)\_`,
   * `` `([^`]+)` `` and `~~([^~]+)~~`. The run `[^c]+` is greedy and cannot
   * give back a character that would let `D` match earlier, so the match,
   * when there is one, is unique. The replacement is the inner text.
   */
  function DelimitedAt(s: string, i: nat, c: char, k: nat): (r: Option<Hit>)
    ensures r.Some? ==> i + 2 * k < r.value.end <= |s|
    ensures r.Some? ==> s[i..r.value.end] == Repeat(c, k) + r.value.repl + Repeat(c, k)
    ensures r.Some? ==> |r.value.repl| > 0 && c !in r.value.repl
  {
    if i + k <= |s| && s[i..i + k] == Repeat(c, k) then
      var j := UntilChar(s, i + k, c);
      if j > i + k && j + k <= |s| && s[j..j + k] == Repeat(c, k) then
        DelimitedHit(s, i, c, k, j);
        Some(Hit(j + k, s[i + k..j]))
      else None
    else None
  }

  /** Two delimiters around the run free of `c` that `UntilChar` finds: the run is the inner text. */
  lemma DelimitedHit(s: string, i: nat, c: char, k: nat, j: nat)
    requires i + k < j && j + k <= |s| && j == UntilChar(s, i + k, c)
    requires s[i..i + k] == Repeat(c, k) && s[j..j + k] == Repeat(c, k)
    ensures s[i..j + k] == Repeat(c, k) + s[i + k..j] + Repeat(c, k)
    ensures c !in s[i + k..j]
  {
    SliceSplit3(s, i, i + k, j, j + k);
    var run := s[i + k..j];
    forall x | 0 <= x < |run| ensures run[x] != c {
      assert run[x] == s[i + k + x];
    }
  }

  /** The delimited pattern matches any delimited run of non-delimiter text. */
  lemma DelimitedAtMatches(s: string, i: nat, c: char, k: nat, inner: string)
    requires k > 0 && |inner| > 0 && c !in inner
    requires i + 2 * k + |inner| <= |s| && s[i..i + 2 * k + |inner|] == Repeat(c, k) + inner + Repeat(c, k)
    ensures DelimitedAt(s, i, c, k) == Some(Hit(i + 2 * k + |inner|, inner))
  {
    var d := Repeat(c, k);
    var j := i + k + |inner|;
    SliceParts3(s, i, d, inner, d);
    assert s[j] == s[j..j + k][0] == c;
    UntilCharAt(s, i + k, j, c);
    DelimitedFound(s, i, c, k, j);
  }

  /** The delimiters at `i` and at the first `c` after them make the match. */
  lemma DelimitedFound(s: string, i: nat, c: char, k: nat, j: nat)
    requires i + k <= |s| && s[i..i + k] == Repeat(c, k)
    requires i + k < j && j + k <= |s| && UntilChar(s, i + k, c) == j && s[j..j + k] == Repeat(c, k)
    ensures DelimitedAt(s, i, c, k) == Some(Hit(j + k, s[i + k..j]))
  {
  }

  function DelimitedMatcher(c: char, k: nat): Matcher {
    (s: string, i: nat) => DelimitedAt(s, i, c, k)
  }

  /** Removing delimited runs drops only delimiter characters: all other text survives, in order. */
  lemma DelimitedKeepsText(s: string, c: char, k: nat)
    ensures Drop(Sub(s, DelimitedMatcher(c, k), 0), {c}) == Drop(s, {c})
  {
    var m := DelimitedMatcher(c, k);
    forall j | 0 <= j < |s| && HitAt(s, j, m(s, j))
      ensures Drop(m(s, j).value.repl, {c}) == Drop(s[j..m(s, j).value.end], {c})
    {
      var h := m(s, j).value;
      DropAppend(Repeat(c, k) + h.repl, Repeat(c, k), {c});
      DropAppend(Repeat(c, k), h.repl, {c});
      assert Drop(Repeat(c, k), {c}) == "" by {
        DropAll(Repeat(c, k), c);
      }
    }
    SubKeepsOthers(s, m, 0, {c});
    assert s[0..] == s;
  }

  lemma {:induction false} DropAll(s: string, c: char)
    requires forall j :: 0 <= j < |s| ==> s[j] == c
    ensures Drop(s, {c}) == ""
    decreases |s|
  {
    if |s| > 0 {
      DropAll(s[1..], c);
    }
  }

  /** A markdown link `[anchor](url)` found at some index, and the index just after it. */
  datatype Link = Link(anchor: string, url: string, end: nat)

  /** The text `[anchor](url)`. */
  function LinkText(anchor: string, url: string): string {
    "[" + anchor + "](" + url + ")"
  }

  /** The parts of `[anchor](url)` by position. */
  lemma LinkTextParts(anchor: string, url: string)
    ensures var w := LinkText(anchor, url);
      && |w| == |anchor| + |url| + 4
      && w[0] == '[' && w[|anchor| + 1] == ']' && w[|anchor| + 2] == '(' && w[|w| - 1] == ')'
      && w[1..|anchor| + 1] == anchor && w[|anchor| + 3..|w| - 1] == url
  {
    var w := LinkText(anchor, url);
    assert w == ((("[" + anchor) + "](") + url) + ")";
    assert w[..|w| - 1] == (("[" + anchor) + "](") + url;
    assert w[..|anchor| + 3] == ("[" + anchor) + "](";
    assert w[..|anchor| + 1] == "[" + anchor;
    assert w[1..|anchor| + 1] == w[..|anchor| + 1][1..];
    assert w[|anchor| + 3..|w| - 1] == w[..|w| - 1][|anchor| + 3..];
  }

  /** The text of `s` between `i` and `j` is `[anchor](url)` with the two parts at `i + 1` and `q + 2`. */
  lemma LinkSlices(s: string, i: nat, q: nat, e: nat)
    requires i < q && q + 2 <= e < |s|
    requires s[i] == '[' && s[q] == ']' && s[q + 1] == '(' && s[e] == ')'
    ensures s[i..e + 1] == LinkText(s[i + 1..q], s[q + 2..e])
  {
    var w := LinkText(s[i + 1..q], s[q + 2..e]);
    LinkTextParts(s[i + 1..q], s[q + 2..e]);
    assert |w| == e + 1 - i;
    forall x | 0 <= x < |w| ensures w[x] == s[i..e + 1][x] {
      if x == 0 {
      } else if x < q - i {
        assert w[x] == w[1..q - i][x - 1];
      } else if x == q - i || x == q - i + 1 {
      } else if x < e - i {
        assert w[x] == w[q - i + 2..e - i][x - (q - i + 2)];
      }
    }
  }

  /**
   * `\[([^\]]+)\]\(([^\)]+)\)` tried at `i`. Both runs are greedy and stop at
   * the first `]` and the first `)`, so backtracking never finds another match.
   */
  function LinkAt(s: string, i: nat): (r: Option<Link>)
    ensures r.Some? ==> i < r.value.end <= |s|
    ensures r.Some? ==> s[i..r.value.end] == LinkText(r.value.anchor, r.value.url)
    ensures r.Some? ==> |r.value.anchor| > 0 && ']' !in r.value.anchor
    ensures r.Some? ==> |r.value.url| > 0 && ')' !in r.value.url
  {
    if i < |s| && s[i] == '[' then
      var q := UntilChar(s, i + 1, ']');
      if q > i + 1 && q + 1 < |s| && s[q + 1] == '(' then
        var e := UntilChar(s, q + 2, ')');
        if e > q + 2 && e < |s| then
          LinkSlices(s, i, q, e);
          Some(Link(s[i + 1..q], s[q + 2..e], e + 1))
        else None
      else None
    else None
  }

  /** Conversely, every text of the shape `[anchor](url)` is matched at its start. */
  lemma LinkAtMatches(s: string, i: nat, anchor: string, url: string)
    requires |anchor| > 0 && ']' !in anchor && |url| > 0 && ')' !in url
    requires i + |anchor| + |url| + 4 <= |s|
    requires s[i..i + |anchor| + |url| + 4] == LinkText(anchor, url)
    ensures LinkAt(s, i) == Some(Link(anchor, url, i + |anchor| + |url| + 4))
  {
    var q := i + 1 + |anchor|;
    var e := q + 2 + |url|;
    LinkShape(s, i, anchor, url);
    UntilCharAt(s, i + 1, q, ']');
    UntilCharAt(s, q + 2, e, ')');
    LinkAtFound(s, i, q, e);
  }

  /** `LinkAt` reads the link whose brackets sit at `i`, `q`, `q + 1` and `e`. */
  lemma LinkAtFound(s: string, i: nat, q: nat, e: nat)
    requires i < |s| && s[i] == '[' && i + 1 < q && q + 1 < |s| && UntilChar(s, i + 1, ']') == q && s[q + 1] == '('
    requires q + 2 < e < |s| && UntilChar(s, q + 2, ')') == e
    ensures LinkAt(s, i) == Some(Link(s[i + 1..q], s[q + 2..e], e + 1))
  {
  }

  /** Where `[anchor](url)` sits in `s`, character by character. */
  lemma LinkShape(s: string, i: nat, anchor: string, url: string)
    requires i + |anchor| + |url| + 4 <= |s|
    requires s[i..i + |anchor| + |url| + 4] == LinkText(anchor, url)
    ensures var q := i + 1 + |anchor|; var e := q + 2 + |url|;
      && s[i] == '[' && s[q] == ']' && s[q + 1] == '(' && s[e] == ')'
      && s[i + 1..q] == anchor && s[q + 2..e] == url
  {
    var q := i + 1 + |anchor|;
    var e := q + 2 + |url|;
    var w := LinkText(anchor, url);
    LinkTextParts(anchor, url);
    assert s[i] == w[0] && s[q] == w[q - i] && s[q + 1] == w[q - i + 1] && s[e] == w[e - i];
    SliceOfSlice(s, i, e + 1, 1, q - i);
    SliceOfSlice(s, i, e + 1, q - i + 2, e - i);
  }

  lemma SliceOfSlice(s: string, a: nat, b: nat, c: nat, d: nat)
    requires a <= b <= |s| && c <= d <= b - a
    ensures s[a..b][c..d] == s[a + c..a + d]
  {
    forall x | 0 <= x < d - c ensures s[a..b][c..d][x] == s[a + c..a + d][x] {
      assert s[a..b][c..d][x] == s[a..b][c + x] == s[a + c + x];
    }
  }

  /** `UntilChar` stops at the first `c` after a run free of `c`. */
  lemma UntilCharAt(s: string, i: nat, j: nat, c: char)
    requires i <= j < |s| && s[j] == c && c !in s[i..j]
    ensures UntilChar(s, i, c) == j
  {
    forall x | i <= x < j ensures s[x] != c {
      assert s[x] == s[i..j][x - i];
    }
  }

  /** Start of a line for `re.MULTILINE`'s `^`: index 0 or just after a `\n`. */
  predicate LineStart(s: string, i: nat) {
    i == 0 || (0 < i <= |s| && s[i - 1] == '\n')
  }

  // ----- The markdown links of a text, in order ---------------------------

  /** A markdown link `[anchor](url)` found by the first pass. */
  datatype MdLink = MdLink(anchor: string, url: string)

  /** `c[0] + f[0] + c[1] + ... + f[n-1] + c[n]`. */
  function Interleave(c: seq<string>, f: seq<string>): string
    requires |c| == |f| + 1
    decreases |f|
  {
    if |f| == 0 then c[0] else c[0] + f[0] + Interleave(c[1..], f[1..])
  }

  lemma {:induction false} InterleaveAppendText(c: seq<string>, f: seq<string>, s: string)
    requires |c| == |f| + 1
    ensures Interleave(c[..|c| - 1] + [c[|c| - 1] + s], f) == Interleave(c, f) + s
    decreases |f|
  {
    var c' := c[..|c| - 1] + [c[|c| - 1] + s];
    if |f| > 0 {
      assert c'[1..] == c[1..][..|c[1..]| - 1] + [c[1..][|c[1..]| - 1] + s];
      InterleaveAppendText(c[1..], f[1..], s);
    }
  }

  lemma {:induction false} InterleaveAppendFill(c: seq<string>, f: seq<string>, x: string)
    requires |c| == |f| + 1
    ensures Interleave(c + [""], f + [x]) == Interleave(c, f) + x
    decreases |f|
  {
    if |f| == 0 {
      assert (c + [""])[1..] == [""];
    } else {
      assert (c + [""])[1..] == c[1..] + [""];
      assert (f + [x])[1..] == f[1..] + [x];
      InterleaveAppendFill(c[1..], f[1..], x);
    }
  }

  lemma InterleaveCons(c: seq<string>, f: seq<string>)
    requires |c| == |f| + 1 && |f| > 0
    ensures Interleave(c, f) == c[0] + (f[0] + Interleave(c[1..], f[1..]))
  {
  }

  /** The first pass: the gaps between markdown links and the links themselves, in order. */
  function LinkScan(s: string, i: nat, gaps: seq<string>, links: seq<MdLink>): (r: (seq<string>, seq<MdLink>))
    requires i <= |s| && |gaps| == |links| + 1
    ensures |r.0| == |r.1| + 1
    ensures |links| <= |r.1| && r.1[..|links|] == links
    decreases |s| - i
  {
    if i == |s| then (gaps, links)
    else match LinkAt(s, i)
      case Some(l) => LinkScan(s, l.end, gaps + [""], links + [MdLink(l.anchor, l.url)])
      case None => LinkScan(s, i + 1, gaps[..|gaps| - 1] + [gaps[|gaps| - 1] + [s[i]]], links)
  }

  /** The markdown links as they stand in the input. */
  function Sources(links: seq<MdLink>): (r: seq<string>)
    ensures |r| == |links| && forall i :: 0 <= i < |links| ==> r[i] == LinkText(links[i].anchor, links[i].url)
  {
    seq(|links|, i requires 0 <= i < |links| => LinkText(links[i].anchor, links[i].url))
  }

  /** The first pass cuts the input into gaps and links and loses nothing. */
  lemma {:induction false} LinkScanSplits(s: string, i: nat, gaps: seq<string>, links: seq<MdLink>)
    requires i <= |s| && |gaps| == |links| + 1
    ensures var r := LinkScan(s, i, gaps, links);
      Interleave(r.0, Sources(r.1)) == Interleave(gaps, Sources(links)) + s[i..]
    decreases |s| - i
  {
    if i < |s| {
      var r := LinkScan(s, i, gaps, links);
      match LinkAt(s, i)
      case Some(l) =>
        var piece := LinkText(l.anchor, l.url);
        var gaps', links' := gaps + [""], links + [MdLink(l.anchor, l.url)];
        assert r == LinkScan(s, l.end, gaps', links');
        LinkScanSplits(s, l.end, gaps', links');
        assert Sources(links') == Sources(links) + [piece];
        InterleaveAppendFill(gaps, Sources(links), piece);
        SuffixSplit(s, i, l.end, piece);
        AppendGlue(Interleave(r.0, Sources(r.1)), Interleave(gaps', Sources(links')),
          Interleave(gaps, Sources(links)), piece, s[l.end..], s[i..]);
      case None =>
        var gaps' := gaps[..|gaps| - 1] + [gaps[|gaps| - 1] + [s[i]]];
        assert r == LinkScan(s, i + 1, gaps', links);
        LinkScanSplits(s, i + 1, gaps', links);
        InterleaveAppendText(gaps, Sources(links), [s[i]]);
        SuffixSplit(s, i, i + 1, [s[i]]);
        AppendGlue(Interleave(r.0, Sources(r.1)), Interleave(gaps', Sources(links)),
          Interleave(gaps, Sources(links)), [s[i]], s[i + 1..], s[i..]);
    }
  }

  /** A suffix of `s` is the piece at its head and the suffix after it. */
  lemma SuffixSplit(s: string, i: nat, j: nat, piece: string)
    requires i <= j <= |s| && s[i..j] == piece
    ensures s[i..] == piece + s[j..]
  {
    assert s[i..] == s[i..j] + s[j..];
  }

  /** Appending a piece and then a tail is appending the piece followed by the tail. */
  lemma AppendGlue(whole: string, mid: string, pre: string, piece: string, tail: string, suffix: string)
    requires whole == mid + tail && mid == pre + piece && suffix == piece + tail
    ensures whole == pre + suffix
  {
  }

  /** The markdown links found by the first pass, in order. */
  function MdLinks(content: string): seq<MdLink> {
    LinkScan(content, 0, [""], []).1
  }

  /** The text around them. */
  function Gaps(content: string): (r: seq<string>)
    ensures |r| == |MdLinks(content)| + 1
  {
    LinkScan(content, 0, [""], []).0
  }

  /** Each markdown link rewritten by `f` from its anchor and its target. */
  function Replaced(links: seq<MdLink>, f: (string, string) -> string): (r: seq<string>)
    ensures |r| == |links| && forall i :: 0 <= i < |links| ==> r[i] == f(links[i].anchor, links[i].url)
  {
    seq(|links|, i requires 0 <= i < |links| => f(links[i].anchor, links[i].url))
  }

  /** `re.sub(r'\[([^\]]+)\]\(([^\)]+)\)', repl, s)` where `repl` computes `f(group 1, group 2)`. */
  function LinkMatcher(f: (string, string) -> string): Matcher {
    (s: string, i: nat) => match LinkAt(s, i) {
      case Some(l) => Some(Hit(l.end, f(l.anchor, l.url)))
      case None => None
    }
  }

  /** The link-rewriting `re.sub` follows the first pass: same gaps, each link replaced by `f`. */
  lemma {:induction false} SubLinksScan(s: string, i: nat, gaps: seq<string>, links: seq<MdLink>, f: (string, string) -> string)
    requires i <= |s| && |gaps| == |links| + 1
    ensures var r := LinkScan(s, i, gaps, links);
      Interleave(r.0, Replaced(r.1, f)) == Interleave(gaps, Replaced(links, f)) + Sub(s, LinkMatcher(f), i)
    decreases |s| - i
  {
    if i < |s| {
      var r := LinkScan(s, i, gaps, links);
      var piece, next := LinkSubStep(s, f, i);
      match LinkAt(s, i)
      case Some(l) =>
        var links' := links + [MdLink(l.anchor, l.url)];
        assert r == LinkScan(s, l.end, gaps + [""], links');
        SubLinksScan(s, l.end, gaps + [""], links', f);
        assert Replaced(links', f) == Replaced(links, f) + [f(l.anchor, l.url)];
        InterleaveAppendFill(gaps, Replaced(links, f), f(l.anchor, l.url));
        AppendGlue(Interleave(r.0, Replaced(r.1, f)), Interleave(gaps + [""], Replaced(links', f)),
          Interleave(gaps, Replaced(links, f)), piece, Sub(s, LinkMatcher(f), next), Sub(s, LinkMatcher(f), i));
      case None =>
        var gaps' := gaps[..|gaps| - 1] + [gaps[|gaps| - 1] + [s[i]]];
        assert r == LinkScan(s, i + 1, gaps', links);
        SubLinksScan(s, i + 1, gaps', links, f);
        InterleaveAppendText(gaps, Replaced(links, f), [s[i]]);
        AppendGlue(Interleave(r.0, Replaced(r.1, f)), Interleave(gaps', Replaced(links, f)),
          Interleave(gaps, Replaced(links, f)), piece, Sub(s, LinkMatcher(f), next), Sub(s, LinkMatcher(f), i));
    }
  }

  /** One step of rewriting links at `i`: the rewritten link, or the character copied. */
  lemma LinkSubStep(s: string, f: (string, string) -> string, i: nat) returns (piece: string, next: nat)
    requires i < |s|
    ensures i < next <= |s| && Sub(s, LinkMatcher(f), i) == piece + Sub(s, LinkMatcher(f), next)
    ensures LinkAt(s, i).Some? ==> piece == f(LinkAt(s, i).value.anchor, LinkAt(s, i).value.url) && next == LinkAt(s, i).value.end
    ensures LinkAt(s, i).None? ==> piece == [s[i]] && next == i + 1
  {
    var m := LinkMatcher(f);
    assert m(s, i) == match LinkAt(s, i) {
      case Some(l) => Some(Hit(l.end, f(l.anchor, l.url)))
      case None => None
    };
    piece, next := SubUnfold(s, m, i);
  }

  /**
   * Rewriting the links of `s` keeps the text between them: `s` is its gaps
   * with the links as written, the result the same gaps with the rewritten links.
   */
  lemma SubLinks(s: string, f: (string, string) -> string)
    ensures Sub(s, LinkMatcher(f), 0) == Interleave(Gaps(s), Replaced(MdLinks(s), f))
    ensures s == Interleave(Gaps(s), Sources(MdLinks(s)))
  {
    SubLinksScan(s, 0, [""], [], f);
    LinkScanSplits(s, 0, [""], []);
  }

  /** `re.sub(r'\[([^\]]+)\]\([^\)]+\)', r'\1', s)`: every markdown link becomes its anchor text. */
  function AnchorMatcher(): Matcher {
    LinkMatcher((anchor: string, url: string) => anchor)
  }

  /** The character `c` appears in no replacement, so it survives only where the input has it. */
  lemma {:induction false} SubAvoids(s: string, m: Matcher, i: nat, c: char)
    requires i <= |s| && c !in s[i..]
    requires forall j :: i <= j < |s| && HitAt(s, j, m(s, j)) ==> c !in m(s, j).value.repl
    ensures c !in Sub(s, m, i)
    decreases |s| - i
  {
    if i < |s| {
      assert s[i] == s[i..][0];
      var h := m(s, i);
      if HitAt(s, i, h) {
        assert s[h.value.end..] == s[i..][h.value.end - i..];
        SubAvoids(s, m, h.value.end, c);
      } else {
        assert s[i + 1..] == s[i..][1..];
        SubAvoids(s, m, i + 1, c);
      }
    }
  }

  // ----- Runs of newlines --------------------------------------------------

  /** `\n{least,}` tried at `i`: the whole run of newlines there, when it has `least` or more, becomes `"\n\n"`. */
  function NewlineRunAt(s: string, i: nat, least: nat): Option<Hit> {
    if i <= |s| && Until(s, i, NotNewline) - i >= least then Some(Hit(Until(s, i, NotNewline), "\n\n")) else None
  }

  function NewlineRuns(least: nat): Matcher {
    (s: string, i: nat) => NewlineRunAt(s, i, least)
  }

  /** `re.sub(r'\n{least,}', '\n\n', text)`. */
  function CollapseRuns(text: string, least: nat): string {
    Sub(text, NewlineRuns(least), 0)
  }

  /** No three newlines in a row. */
  predicate NoTriple(s: string) {
    forall k :: 0 <= k < |s| - 2 ==> !(s[k] == '\n' && s[k + 1] == '\n' && s[k + 2] == '\n')
  }

  /** The number of newlines `s` starts with. */
  function LeadingNewlines(s: string): nat {
    if |s| > 0 && s[0] == '\n' then 1 + LeadingNewlines(s[1..]) else 0
  }

  lemma LeadingCons(c: char, x: string)
    ensures LeadingNewlines([c] + x) == if c == '\n' then 1 + LeadingNewlines(x) else 0
  {
    assert ([c] + x)[1..] == x;
  }

  lemma NoTripleCons(c: char, x: string)
    requires NoTriple(x) && (c == '\n' ==> LeadingNewlines(x) <= 1)
    ensures NoTriple([c] + x)
  {
    if c == '\n' && |x| >= 2 && x[0] == '\n' {
      LeadingCons(x[0], x[1..]);
      assert [x[0]] + x[1..] == x;
      assert x[1..][0] == x[1];
    }
  }

  lemma RunHitStep(s: string, i: nat, least: nat)
    requires i <= |s| && 0 < least <= Until(s, i, NotNewline) - i
    ensures Sub(s, NewlineRuns(least), i) == "\n\n" + Sub(s, NewlineRuns(least), Until(s, i, NotNewline))
  {
  }

  lemma RunCopyStep(s: string, i: nat, least: nat)
    requires i < |s| && Until(s, i, NotNewline) - i < least
    ensures Sub(s, NewlineRuns(least), i) == [s[i]] + Sub(s, NewlineRuns(least), i + 1)
  {
  }

  /** A collapsed run puts two newlines before a rest that starts with none. */
  lemma RunHitCase(s: string, i: nat, least: nat)
    requires i < |s| && 2 <= least <= Until(s, i, NotNewline) - i
    requires var x := Sub(s, NewlineRuns(least), Until(s, i, NotNewline)); LeadingNewlines(x) == 0 && NoTriple(x)
    ensures var r := Sub(s, NewlineRuns(least), i); LeadingNewlines(r) == 2 && NoTriple(r)
  {
    var x := Sub(s, NewlineRuns(least), Until(s, i, NotNewline));
    RunHitStep(s, i, least);
    LeadingCons('\n', x);
    LeadingCons('\n', "\n" + x);
    NoTripleCons('\n', x);
    NoTripleCons('\n', "\n" + x);
    assert "\n\n" + x == ['\n'] + (['\n'] + x);
  }

  /** A copied character adds one to a short run of newlines, or starts none. */
  lemma RunCopyCase(s: string, i: nat, least: nat)
    requires i < |s| && 2 <= least <= 3 && Until(s, i, NotNewline) - i < least
    requires var x := Sub(s, NewlineRuns(least), i + 1);
      (s[i] == '\n' ==> LeadingNewlines(x) == Until(s, i, NotNewline) - i - 1) && NoTriple(x)
    ensures var r := Sub(s, NewlineRuns(least), i); LeadingNewlines(r) == Until(s, i, NotNewline) - i && NoTriple(r)
  {
    var x := Sub(s, NewlineRuns(least), i + 1);
    RunCopyStep(s, i, least);
    LeadingCons(s[i], x);
    NoTripleCons(s[i], x);
  }

  /**
   * From `i` on, the output starts with as many newlines as the input's run,
   * two if the run was collapsed, and never holds three in a row.
   */
  lemma {:induction false} CollapseRunsFrom(s: string, i: nat, least: nat)
    requires i <= |s| && 2 <= least <= 3
    ensures var r := Sub(s, NewlineRuns(least), i); var run := Until(s, i, NotNewline) - i;
      LeadingNewlines(r) == (if run >= least then 2 else run) && NoTriple(r)
    decreases |s| - i
  {
    if i < |s| {
      var e := Until(s, i, NotNewline);
      if e - i >= least {
        CollapseRunsFrom(s, e, least);
        CollapseHit(s, i, least);
      } else {
        CollapseRunsFrom(s, i + 1, least);
        CollapseCopy(s, i, least);
      }
    }
  }

  /** The step of `CollapseRunsFrom` over a run long enough to collapse. */
  lemma CollapseHit(s: string, i: nat, least: nat)
    requires i < |s| && 2 <= least <= 3 && least <= Until(s, i, NotNewline) - i
    requires var e := Until(s, i, NotNewline); var r := Sub(s, NewlineRuns(least), e); var run := Until(s, e, NotNewline) - e;
      LeadingNewlines(r) == (if run >= least then 2 else run) && NoTriple(r)
    ensures var r := Sub(s, NewlineRuns(least), i); LeadingNewlines(r) == 2 && NoTriple(r)
  {
    assert Until(s, Until(s, i, NotNewline), NotNewline) == Until(s, i, NotNewline);
    RunHitCase(s, i, least);
  }

  /** The step of `CollapseRunsFrom` over a character copied as it is. */
  lemma CollapseCopy(s: string, i: nat, least: nat)
    requires i < |s| && 2 <= least <= 3 && Until(s, i, NotNewline) - i < least
    requires var r := Sub(s, NewlineRuns(least), i + 1); var run := Until(s, i + 1, NotNewline) - (i + 1);
      LeadingNewlines(r) == (if run >= least then 2 else run) && NoTriple(r)
    ensures var r := Sub(s, NewlineRuns(least), i); LeadingNewlines(r) == Until(s, i, NotNewline) - i && NoTriple(r)
  {
    assert s[i] == '\n' ==> Until(s, i + 1, NotNewline) == Until(s, i, NotNewline);
    RunCopyCase(s, i, least);
  }

  /** After collapsing runs of two or of three newlines, no three newlines follow each other. */
  lemma CollapseRunsNoTriple(s: string, least: nat)
    requires 2 <= least <= 3
    ensures NoTriple(CollapseRuns(s, least))
  {
    CollapseRunsFrom(s, 0, least);
  }

  /** A text with no three newlines in a row is left as it is. */
  lemma CollapseRunsFixed(s: string, least: nat)
    requires 2 <= least <= 3 && NoTriple(s)
    ensures CollapseRuns(s, least) == s
  {
    var m := NewlineRuns(least);
    forall j | 0 <= j < |s| && HitAt(s, j, m(s, j)) ensures m(s, j).value.repl == s[j..m(s, j).value.end] {
      var e := Until(s, j, NotNewline);
      assert s[j] == '\n' && s[j + 1] == '\n';
      if j + 2 < |s| {
        assert s[j + 2] != '\n';
      }
      assert e == j + 2;
      assert s[j..e] == "\n\n";
    }
    SubSame(s, m, 0);
  }

  /** Where a run of newlines ends, measured in a suffix or in the whole text. */
  lemma UntilShift(p: string, t: string, j: nat, q: char -> bool)
    requires j <= |t|
    ensures Until(p + t, |p| + j, q) == |p| + Until(t, j, q)
  {
    var u := Until(t, j, q);
    assert forall k :: |p| + j <= k < |p| + u ==> (p + t)[k] == t[k - |p|];
    assert |p| + u < |p + t| ==> (p + t)[|p| + u] == t[u];
    UntilUnique(p + t, |p| + j, q, |p| + u);
  }

  /** A run of newlines inside `x`, which does not end in one, stops inside `x`. */
  lemma UntilCut(x: string, z: string, i: nat)
    requires i < |x| && x[|x| - 1] != '\n'
    ensures Until(x + z, i, NotNewline) == Until(x, i, NotNewline) < |x|
  {
    var u := Until(x, i, NotNewline);
    assert u < |x|;
    assert forall k :: i <= k < u ==> (x + z)[k] == x[k];
    assert (x + z)[u] == x[u];
    UntilUnique(x + z, i, NotNewline, u);
  }

  /** At `k` in `t`, the matcher finds in `p + t` the match it finds in `t`, moved by `|p|`. */
  predicate ShiftedHit(p: string, t: string, m: Matcher, k: nat) {
    && HitAt(p + t, |p| + k, m(p + t, |p| + k)) == HitAt(t, k, m(t, k))
    && (HitAt(t, k, m(t, k)) ==> m(p + t, |p| + k).value == Hit(|p| + m(t, k).value.end, m(t, k).value.repl))
  }

  /** One step of `Sub` at `i`, as `SubUnfold` without the slices. */
  lemma SubStep(s: string, m: Matcher, i: nat) returns (head: string, next: nat)
    requires i < |s|
    ensures i < next <= |s| && Sub(s, m, i) == head + Sub(s, m, next)
    ensures HitAt(s, i, m(s, i)) ==> head == m(s, i).value.repl && next == m(s, i).value.end
    ensures !HitAt(s, i, m(s, i)) ==> head == [s[i]] && next == i + 1
  {
    var h := m(s, i);
    if HitAt(s, i, h) {
      head, next := h.value.repl, h.value.end;
    } else {
      head, next := [s[i]], i + 1;
    }
  }

  /** Where the matcher ignores a prefix, `Sub` on the suffix alone gives what it reaches in the whole text. */
  lemma {:induction false} SubShiftGen(p: string, t: string, m: Matcher, j: nat)
    requires j <= |t|
    requires forall k :: j <= k < |t| ==> ShiftedHit(p, t, m, k)
    ensures Sub(p + t, m, |p| + j) == Sub(t, m, j)
    decreases |t| - j
  {
    if j < |t| {
      var head1, next1 := SubStep(p + t, m, |p| + j);
      var head2, next2 := SubStep(t, m, j);
      assert ShiftedHit(p, t, m, j);
      assert (p + t)[|p| + j] == t[j];
      assert head1 == head2 && next1 == |p| + next2;
      SubShiftGen(p, t, m, next2);
    }
  }

  /** At `k` in `x`, the matcher finds in `x + z` the match it finds in `x`, and it ends inside `x`. */
  predicate CutHit(x: string, z: string, m: Matcher, k: nat) {
    && m(x + z, k) == m(x, k)
    && (HitAt(x + z, k, m(x + z, k)) ==> m(x + z, k).value.end <= |x|)
  }

  /** Where no match in `x` reaches past it, `Sub` on `x + z` runs through `x` on its own first. */
  lemma {:induction false} SubCutGen(x: string, z: string, m: Matcher, i: nat)
    requires i <= |x|
    requires forall k :: i <= k < |x| ==> CutHit(x, z, m, k)
    ensures Sub(x + z, m, i) == Sub(x, m, i) + Sub(x + z, m, |x|)
    decreases |x| - i
  {
    if i < |x| {
      var head1, next1 := SubStep(x + z, m, i);
      var head2, next2 := SubStep(x, m, i);
      assert CutHit(x, z, m, i);
      assert (x + z)[i] == x[i];
      assert head1 == head2 && next1 == next2;
      SubCutGen(x, z, m, next2);
      var rest := Sub(x + z, m, |x|);
      AppendGlue(Sub(x, m, i) + rest, Sub(x, m, i), head2, Sub(x, m, next2), rest, Sub(x + z, m, next2));
    }
  }

  /** Runs of newlines are found in a suffix as in the whole text. */
  lemma NewlineRunsShift(p: string, t: string, least: nat, k: nat)
    requires k < |t|
    ensures ShiftedHit(p, t, NewlineRuns(least), k)
  {
    UntilShift(p, t, k, NotNewline);
  }

  /** A run of newlines inside `x`, which does not end in one, is found in `x + z` as in `x`. */
  lemma NewlineRunsCut(x: string, z: string, least: nat, k: nat)
    requires k < |x| && x[|x| - 1] != '\n'
    ensures CutHit(x, z, NewlineRuns(least), k)
  {
    UntilCut(x, z, k);
  }

  /** Where nothing matches from `i` to `j`, `Sub` copies that stretch as it is. */
  lemma {:induction false} SubCopies(s: string, m: Matcher, i: nat, j: nat)
    requires i <= j <= |s|
    requires forall k :: i <= k < j ==> !HitAt(s, k, m(s, k))
    ensures Sub(s, m, i) == s[i..j] + Sub(s, m, j)
    decreases j - i
  {
    if i < j {
      var head, next := SubStep(s, m, i);
      SubCopies(s, m, i + 1, j);
      assert s[i..j] == [s[i]] + s[i + 1..j];
      var tail := Sub(s, m, j);
      AppendGlue(s[i..j] + tail, s[i..j], [s[i]], s[i + 1..j], tail, Sub(s, m, i + 1));
    }
  }

  /** A run of fewer than `least` newlines is copied as it is. */
  lemma ShortRunKept(s: string, i: nat, n: nat, least: nat)
    requires i + n <= |s| && n < least
    requires forall k :: i <= k < i + n ==> s[k] == '\n'
    requires i + n == |s| || s[i + n] != '\n'
    ensures Sub(s, NewlineRuns(least), i) == Repeat('\n', n) + Sub(s, NewlineRuns(least), i + n)
  {
    forall k | i <= k < i + n ensures !HitAt(s, k, NewlineRuns(least)(s, k)) {
      UntilUnique(s, k, NotNewline, i + n);
    }
    SubCopies(s, NewlineRuns(least), i, i + n);
    assert s[i..i + n] == Repeat('\n', n);
  }

  /** The run of `n` newlines at `i`, ended by the text's end or another character, is collapsed or kept whole. */
  lemma RunAt(s: string, i: nat, n: nat, least: nat)
    requires 1 <= least && i + n <= |s|
    requires forall k :: i <= k < i + n ==> s[k] == '\n'
    requires i + n == |s| || s[i + n] != '\n'
    ensures Sub(s, NewlineRuns(least), i) == (if n >= least then "\n\n" else Repeat('\n', n)) + Sub(s, NewlineRuns(least), i + n)
  {
    if n >= least {
      UntilUnique(s, i, NotNewline, i + n);
      RunHitStep(s, i, least);
    } else {
      ShortRunKept(s, i, n, least);
    }
  }

  /**
   * `re.sub(r'\n{least,}', '\n\n', ...)` run by run: a run of `n` newlines
   * between a text that does not end in one and a text that does not start
   * with one becomes exactly two newlines when `n >= least`, and is kept as
   * it is when shorter; the texts on either side are collapsed on their own.
   */
  lemma {:induction false} CollapseRunsSplit(x: string, n: nat, y: string, least: nat)
    requires 1 <= least
    requires x == [] || x[|x| - 1] != '\n'
    requires y == [] || y[0] != '\n'
    ensures CollapseRuns(x + Repeat('\n', n) + y, least)
      == CollapseRuns(x, least) + (if n >= least then "\n\n" else Repeat('\n', n)) + CollapseRuns(y, least)
  {
    var s := x + Repeat('\n', n) + y;
    CollapsePieces(s, x, n, y, least);
  }

  /** The three pieces of `CollapseRunsSplit`, glued. */
  lemma CollapsePieces(s: string, x: string, n: nat, y: string, least: nat)
    requires s == x + Repeat('\n', n) + y && 1 <= least
    requires x == [] || x[|x| - 1] != '\n'
    requires y == [] || y[0] != '\n'
    ensures Sub(s, NewlineRuns(least), 0)
      == Sub(x, NewlineRuns(least), 0) + (if n >= least then "\n\n" else Repeat('\n', n)) + Sub(y, NewlineRuns(least), 0)
  {
    var m := NewlineRuns(least);
    var mid := if n >= least then "\n\n" else Repeat('\n', n);
    RunBefore(s, x, n, y, least);
    RunMiddle(s, x, n, y, least);
    RunAfter(s, x, n, y, least);
    JoinThree(Sub(s, m, 0), Sub(x, m, 0), Sub(s, m, |x|), mid, Sub(s, m, |x| + n), Sub(y, m, 0));
  }

  /** Collapsing `x + Repeat('\n', n) + y` first collapses `x` on its own. */
  lemma RunBefore(s: string, x: string, n: nat, y: string, least: nat)
    requires s == x + Repeat('\n', n) + y && 1 <= least
    requires x == [] || x[|x| - 1] != '\n'
    ensures Sub(s, NewlineRuns(least), 0) == Sub(x, NewlineRuns(least), 0) + Sub(s, NewlineRuns(least), |x|)
  {
    assert s == x + (Repeat('\n', n) + y);
    CollapseCut(s, x, Repeat('\n', n) + y, least);
  }

  /** Then the run of `n` newlines: collapsed to two, or kept. */
  lemma RunMiddle(s: string, x: string, n: nat, y: string, least: nat)
    requires s == x + Repeat('\n', n) + y && 1 <= least
    requires y == [] || y[0] != '\n'
    ensures Sub(s, NewlineRuns(least), |x|) == (if n >= least then "\n\n" else Repeat('\n', n)) + Sub(s, NewlineRuns(least), |x| + n)
  {
    var run := Repeat('\n', n);
    assert forall k :: |x| <= k < |x| + n ==> s[k] == run[k - |x|];
    assert |x| + n < |s| ==> s[|x| + n] == y[0];
    RunAt(s, |x|, n, least);
  }

  /** Then `y`, collapsed on its own. */
  lemma RunAfter(s: string, x: string, n: nat, y: string, least: nat)
    requires s == x + Repeat('\n', n) + y
    ensures Sub(s, NewlineRuns(least), |x| + n) == Sub(y, NewlineRuns(least), 0)
  {
    assert |x + Repeat('\n', n)| == |x| + n;
    CollapseShift(s, x + Repeat('\n', n), y, least);
  }

  /** Collapsing `s == x + z`, with `x` not ending in a newline, collapses `x` on its own first. */
  lemma CollapseCut(s: string, x: string, z: string, least: nat)
    requires s == x + z && 1 <= least && (x == [] || x[|x| - 1] != '\n')
    ensures Sub(s, NewlineRuns(least), 0) == Sub(x, NewlineRuns(least), 0) + Sub(s, NewlineRuns(least), |x|)
  {
    forall k | 0 <= k < |x| ensures CutHit(x, z, NewlineRuns(least), k) {
      NewlineRunsCut(x, z, least, k);
    }
    SubCutGen(x, z, NewlineRuns(least), 0);
  }

  /** Collapsing `s == p + t` from the end of `p` on collapses `t` on its own. */
  lemma CollapseShift(s: string, p: string, t: string, least: nat)
    requires s == p + t
    ensures Sub(s, NewlineRuns(least), |p|) == Sub(t, NewlineRuns(least), 0)
  {
    forall k | 0 <= k < |t| ensures ShiftedHit(p, t, NewlineRuns(least), k) {
      NewlineRunsShift(p, t, least, k);
    }
    SubShiftGen(p, t, NewlineRuns(least), 0);
  }

  /** Three pieces glued in two steps. */
  lemma JoinThree(whole: string, a: string, rest: string, b: string, tail: string, c: string)
    requires whole == a + rest && rest == b + tail && tail == c
    ensures whole == a + b + c
  {
  }

  /** Collapsing runs removes only newlines. */
  lemma CollapseRunsKeepsText(s: string, least: nat)
    ensures Drop(CollapseRuns(s, least), {'\n'}) == Drop(s, {'\n'})
  {
    var m := NewlineRuns(least);
    forall j | 0 <= j < |s| && HitAt(s, j, m(s, j))
      ensures Drop(m(s, j).value.repl, {'\n'}) == Drop(s[j..m(s, j).value.end], {'\n'})
    {
      DropAll(m(s, j).value.repl, '\n');
      DropAll(s[j..m(s, j).value.end], '\n');
    }
    SubKeepsOthers(s, m, 0, {'\n'});
  }
}
