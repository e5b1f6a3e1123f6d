/**
 * `markdown_utils`: finding the headers of a markdown text, cutting out a
 * section, mapping titles to section bodies, a quick validity check, and
 * adding the "오늘의 요약" (today's summary) section once.
 *
 * `HEADER_RE = ^(#{1,6})\s*(.+?)\s*$` applied to one line (a line from
 * `splitlines()` holds no line boundary) matches exactly when the line starts
 * with `#` and has at least two characters. Group 1 is the run of leading `#`
 * cut at six, or one shorter when the line is nothing but `#`s. After `.strip()`
 * group 2 is the rest of the line, stripped.
 */
module MarkdownUtils {
  import opened Wrappers
  import opened Text
  import opened Rewrite

  /** `(line_idx, level, title)`. */
  datatype Header = Header(index: nat, level: nat, title: string)

  /** The number of `#` a line starts with. */
  function LeadingHashes(s: string): (h: nat)
    ensures h <= |s|
    ensures |s| > 0 && s[0] == '#' ==> h >= 1
  {
    if |s| > 0 && s[0] == '#' then 1 + LeadingHashes(s[1..]) else 0
  }

  /** `HEADER_RE.match(line)` succeeds. */
  predicate IsHeaderLine(line: string) {
    |line| >= 2 && line[0] == '#'
  }

  /** `len(match.group(1))`: between one and six leading `#`, always leaving a character for the title. */
  function HeaderLevel(line: string): (level: nat)
    requires IsHeaderLine(line)
    ensures 1 <= level <= 6 && level < |line|
  {
    var h := LeadingHashes(line);
    var g := if h < 6 then h else 6;
    if g < |line| then g else g - 1
  }

  /** `match.group(2).strip()`. */
  function HeaderTitle(line: string): string
    requires IsHeaderLine(line)
  {
    Strip(line[HeaderLevel(line)..])
  }

  /** The entry `_find_headers` records for header line `line` at index `i`. */
  function ParseHeader(i: nat, line: string): Header
    requires IsHeaderLine(line)
  {
    Header(i, HeaderLevel(line), HeaderTitle(line))
  }

  /** `h` records a header line of `lines`: its index, level and title. */
  predicate Describes(lines: seq<string>, h: Header) {
    h.index < |lines| && IsHeaderLine(lines[h.index]) && h == ParseHeader(h.index, lines[h.index])
  }

  predicate Increasing(hs: seq<Header>) {
    forall k, j :: 0 <= k < j < |hs| ==> hs[k].index < hs[j].index
  }

  /** The headers among the first `n` lines, in line order. */
  function HeadersIn(lines: seq<string>, n: nat): (hs: seq<Header>)
    requires n <= |lines|
    ensures forall k :: 0 <= k < |hs| ==> hs[k].index < n && IsHeaderLine(lines[hs[k].index])
    ensures Increasing(hs)
  {
    if n == 0 then []
    else
      var hs := HeadersIn(lines, n - 1);
      if IsHeaderLine(lines[n - 1]) then hs + [ParseHeader(n - 1, lines[n - 1])]
      else hs
  }

  /** `_find_headers(lines)`. */
  function Headers(lines: seq<string>): seq<Header> {
    HeadersIn(lines, |lines|)
  }

  /** Every header line among the first `n` is listed. */
  lemma {:induction false} HeadersInComplete(lines: seq<string>, n: nat, i: nat)
    requires i < n <= |lines| && IsHeaderLine(lines[i])
    ensures exists k :: 0 <= k < |HeadersIn(lines, n)| && HeadersIn(lines, n)[k].index == i
  {
    var hs := HeadersIn(lines, n - 1);
    if i == n - 1 {
      assert HeadersIn(lines, n)[|hs|].index == i;
    } else {
      HeadersInComplete(lines, n - 1, i);
      var k :| 0 <= k < |hs| && hs[k].index == i;
      assert HeadersIn(lines, n)[k] == hs[k];
    }
  }

  /** Each entry records the level and the title of its line. */
  lemma {:induction false} HeadersInDescribe(lines: seq<string>, n: nat, k: nat)
    requires n <= |lines| && k < |HeadersIn(lines, n)|
    ensures Describes(lines, HeadersIn(lines, n)[k])
  {
    var hs := HeadersIn(lines, n - 1);
    if k < |hs| {
      HeadersInDescribe(lines, n - 1, k);
      assert HeadersIn(lines, n)[k] == hs[k];
    }
  }

  /** Every header has a level from 1 to 6 and a stripped title, the line indices increase, and every header line is listed. */
  lemma HeadersSpec(lines: seq<string>)
    ensures var hs := Headers(lines);
      && (forall k :: 0 <= k < |hs| ==>
            && hs[k].index < |lines| && IsHeaderLine(lines[hs[k].index])
            && 1 <= hs[k].level <= 6
            && (hs[k].title == [] || (!IsSpace(hs[k].title[0]) && !IsSpace(hs[k].title[|hs[k].title| - 1]))))
      && (forall k, j :: 0 <= k < j < |hs| ==> hs[k].index < hs[j].index)
      && (forall i :: 0 <= i < |lines| && IsHeaderLine(lines[i]) ==> exists k :: 0 <= k < |hs| && hs[k].index == i)
  {
    forall i | 0 <= i < |lines| && IsHeaderLine(lines[i])
      ensures exists k :: 0 <= k < |Headers(lines)| && Headers(lines)[k].index == i
    {
      HeadersInComplete(lines, |lines|, i);
      var k :| 0 <= k < |HeadersIn(lines, |lines|)| && HeadersIn(lines, |lines|)[k].index == i;
      assert Headers(lines)[k].index == i;
    }
    forall k | 0 <= k < |Headers(lines)|
      ensures 1 <= Headers(lines)[k].level <= 6
      ensures var title := Headers(lines)[k].title; title == [] || (!IsSpace(title[0]) && !IsSpace(title[|title| - 1]))
    {
      HeadersInDescribe(lines, |lines|, k);
      StripShape(lines[Headers(lines)[k].index][Headers(lines)[k].level..]);
    }
  }

  /** The loop of `_find_headers`. */
  method FindHeaders(lines: seq<string>) returns (headers: seq<Header>)
    ensures headers == Headers(lines)
  {
    headers := [];
    for i := 0 to |lines|
      invariant headers == HeadersIn(lines, i)
    {
      if IsHeaderLine(lines[i]) {
        headers := headers + [Header(i, HeaderLevel(lines[i]), HeaderTitle(lines[i]))];
      }
    }
  }

  // ----- Sections --------------------------------------------------------

  /** The first header from `k` on whose title satisfies `p`. */
  function FirstMatch(hs: seq<Header>, p: string -> bool, k: nat): (r: Option<nat>)
    requires k <= |hs|
    ensures r.Some? ==> k <= r.value < |hs| && p(hs[r.value].title)
    ensures r.Some? ==> forall j :: k <= j < r.value ==> !p(hs[j].title)
    ensures r.None? ==> forall j :: k <= j < |hs| ==> !p(hs[j].title)
    decreases |hs| - k
  {
    if k == |hs| then None
    else if p(hs[k].title) then Some(k)
    else FirstMatch(hs, p, k + 1)
  }

  /** The first header from `j` on whose level is at most that of header `k`. */
  function NextBoundary(hs: seq<Header>, k: nat, j: nat): (r: Option<nat>)
    requires k < j <= |hs|
    ensures r.Some? ==> j <= r.value < |hs| && hs[r.value].level <= hs[k].level
    ensures r.Some? ==> forall i :: j <= i < r.value ==> hs[i].level > hs[k].level
    ensures r.None? ==> forall i :: j <= i < |hs| ==> hs[i].level > hs[k].level
    decreases |hs| - j
  {
    if j == |hs| then None
    else if hs[j].level <= hs[k].level then Some(j)
    else NextBoundary(hs, k, j + 1)
  }

  /** The line where the section of header `k` stops: the next header of the same or a shallower level, or line `n`. */
  function SectionEnd(hs: seq<Header>, k: nat, n: nat): (e: nat)
    requires k < |hs| && Increasing(hs) && forall i :: 0 <= i < |hs| ==> hs[i].index < n
    ensures hs[k].index < e <= n
  {
    match NextBoundary(hs, k, k + 1)
    case Some(j) => hs[j].index
    case None => n
  }

  /** The section of the first header whose title satisfies `p`, from its header line on, stripped; `""` if there is none. */
  function Section(lines: seq<string>, p: string -> bool): string {
    var hs := Headers(lines);
    match FirstMatch(hs, p, 0)
    case None => ""
    case Some(k) => Strip(Join(lines[hs[k].index..SectionEnd(hs, k, |lines|)], "\n"))
  }

  /** A section found is never empty (it holds its own header line), so `""` means no title matched. */
  lemma SectionEmptyIff(lines: seq<string>, p: string -> bool)
    ensures var hs := Headers(lines);
      Section(lines, p) == "" <==> forall k :: 0 <= k < |hs| ==> !p(hs[k].title)
  {
    var hs := Headers(lines);
    match FirstMatch(hs, p, 0)
    case None =>
    case Some(k) =>
      var part := lines[hs[k].index..SectionEnd(hs, k, |lines|)];
      JoinHead(part, "\n");
      var joined := Join(part, "\n");
      assert joined[0] == part[0][0] == '#';
      StripNonEmpty(joined, 0);
  }

  /** Whether `title.lower()` contains `section_title.lower()`. */
  function TitleMatches(sectionTitle: string): string -> bool {
    (title: string) => Contains(Lower(title), Lower(sectionTitle))
  }

  /** A title holding both "오늘" (today) and "요약" (summary). */
  predicate IsTodayTitle(title: string) {
    Contains(title, "오늘") && Contains(title, "요약")
  }

  /** `extract_section(markdown, section_title)`. */
  function ExtractSection(markdown: string, sectionTitle: string): string {
    Section(SplitLines(markdown), TitleMatches(sectionTitle))
  }

  /** `extract_today_summary(markdown)`. */
  function ExtractTodaySummary(markdown: string): string {
    Section(SplitLines(markdown), IsTodayTitle)
  }

  /** The inner loop: scan on from header `idx` to the first header of the same or a shallower level. */
  method FindSectionEnd(headers: seq<Header>, idx: nat, n: nat) returns (end: nat)
    requires idx < |headers| && Increasing(headers) && forall i :: 0 <= i < |headers| ==> headers[i].index < n
    ensures end == SectionEnd(headers, idx, n)
  {
    var j := idx + 1;
    while j < |headers| && headers[j].level > headers[idx].level
      invariant idx < j <= |headers|
      invariant NextBoundary(headers, idx, idx + 1) == NextBoundary(headers, idx, j)
    {
      j := j + 1;
    }
    end := if j < |headers| then headers[j].index else n;
  }

  /**
   * The loops of `extract_section` and `extract_today_summary`: the first
   * matching header, then the scan for the header that ends its section.
   */
  method Extract(markdown: string, p: string -> bool) returns (r: string)
    ensures r == Section(SplitLines(markdown), p)
  {
    var lines := SplitLines(markdown);
    var headers := FindHeaders(lines);
    var idx := 0;
    while idx < |headers| && !p(headers[idx].title)
      invariant idx <= |headers|
      invariant FirstMatch(headers, p, 0) == FirstMatch(headers, p, idx)
    {
      idx := idx + 1;
    }
    if idx == |headers| {
      return "";
    }
    var end := FindSectionEnd(headers, idx, |lines|);
    r := Strip(Join(lines[headers[idx].index..end], "\n"));
  }

  // ----- Sections by title -----------------------------------------------

  /** `hs` lists headers of a text of `n` lines, in line order. */
  predicate Fits(hs: seq<Header>, n: nat) {
    Increasing(hs) && forall i :: 0 <= i < |hs| ==> hs[i].index < n
  }

  /** The lines strictly between header `k` and the next header of any level, joined and stripped. */
  function Body(lines: seq<string>, hs: seq<Header>, k: nat): string
    requires Fits(hs, |lines|) && k < |hs|
  {
    var e := if k + 1 < |hs| then hs[k + 1].index else |lines|;
    Strip(Join(lines[hs[k].index + 1..e], "\n"))
  }

  /** The dictionary after the first `n` headers: a title maps to its body when that body is not empty. */
  function SectionsUpTo(lines: seq<string>, hs: seq<Header>, n: nat): map<string, string>
    requires Fits(hs, |lines|) && n <= |hs|
  {
    if n == 0 then map[]
    else
      var m := SectionsUpTo(lines, hs, n - 1);
      var body := Body(lines, hs, n - 1);
      if body != "" then m[hs[n - 1].title := body] else m
  }

  /** `split_by_sections(markdown)`. */
  function SplitBySections(markdown: string): map<string, string> {
    var lines := SplitLines(markdown);
    var hs := Headers(lines);
    SectionsUpTo(lines, hs, |hs|)
  }

  /** Some header among the first `n` has title `t` and a non-empty body. */
  predicate Keyed(lines: seq<string>, hs: seq<Header>, n: nat, t: string)
    requires Fits(hs, |lines|) && n <= |hs|
  {
    exists k :: 0 <= k < n && hs[k].title == t && Body(lines, hs, k) != ""
  }

  /** Header `k`, among the first `n`, has title `t` and body `b`, and no later one of them with that title has a body. */
  predicate LastAt(lines: seq<string>, hs: seq<Header>, n: nat, t: string, b: string, k: nat)
    requires Fits(hs, |lines|) && n <= |hs|
  {
    && k < n && hs[k].title == t && b == Body(lines, hs, k)
    && forall j :: k < j < n && hs[j].title == t ==> Body(lines, hs, j) == ""
  }

  ghost predicate LastWith(lines: seq<string>, hs: seq<Header>, n: nat, t: string, b: string)
    requires Fits(hs, |lines|) && n <= |hs|
  {
    exists k :: LastAt(lines, hs, n, t, b, k)
  }

  /** A title is a key exactly when one of its headers has a non-empty body. */
  lemma {:induction false} SectionsUpToKeys(lines: seq<string>, hs: seq<Header>, n: nat)
    requires Fits(hs, |lines|) && n <= |hs|
    ensures forall t :: t in SectionsUpTo(lines, hs, n) <==> Keyed(lines, hs, n, t)
  {
    if n > 0 {
      SectionsUpToKeys(lines, hs, n - 1);
      var m := SectionsUpTo(lines, hs, n - 1);
      var m' := SectionsUpTo(lines, hs, n);
      forall t ensures t in m' <==> Keyed(lines, hs, n, t) {
        if t in m' {
          if t in m {
            var k :| 0 <= k < n - 1 && hs[k].title == t && Body(lines, hs, k) != "";
            assert Keyed(lines, hs, n, t);
          } else {
            assert hs[n - 1].title == t && Body(lines, hs, n - 1) != "";
            assert Keyed(lines, hs, n, t);
          }
        }
        if Keyed(lines, hs, n, t) {
          var k :| 0 <= k < n && hs[k].title == t && Body(lines, hs, k) != "";
          if k < n - 1 {
            assert Keyed(lines, hs, n - 1, t);
          }
        }
      }
    }
  }

  /** Every key maps to the body of the last of its headers with a non-empty body. */
  lemma {:induction false} SectionsUpToValues(lines: seq<string>, hs: seq<Header>, n: nat)
    requires Fits(hs, |lines|) && n <= |hs|
    ensures forall t :: t in SectionsUpTo(lines, hs, n) ==> LastWith(lines, hs, n, t, SectionsUpTo(lines, hs, n)[t])
  {
    if n > 0 {
      SectionsUpToValues(lines, hs, n - 1);
      var m := SectionsUpTo(lines, hs, n - 1);
      var m' := SectionsUpTo(lines, hs, n);
      forall t | t in m' ensures LastWith(lines, hs, n, t, m'[t]) {
        if Body(lines, hs, n - 1) != "" && t == hs[n - 1].title {
          assert LastAt(lines, hs, n, t, m'[t], n - 1);
        } else {
          LastStep(lines, hs, n, t, m[t]);
        }
      }
    }
  }

  /** Extending the list by a header that adds nothing for `t` keeps `t`'s last entry. */
  lemma LastStep(lines: seq<string>, hs: seq<Header>, n: nat, t: string, b: string)
    requires Fits(hs, |lines|) && 0 < n <= |hs|
    requires LastWith(lines, hs, n - 1, t, b)
    requires hs[n - 1].title == t ==> Body(lines, hs, n - 1) == ""
    ensures LastWith(lines, hs, n, t, b)
  {
    var k :| LastAt(lines, hs, n - 1, t, b, k);
    assert LastAt(lines, hs, n, t, b, k);
  }

  /**
   * The dictionary of `split_by_sections`: a title is a key exactly when one
   * of its headers has a non-empty body, and it maps to the body of the last
   * such header.
   */
  lemma SplitBySectionsSpec(markdown: string)
    ensures var lines := SplitLines(markdown); var hs := Headers(lines); var m := SplitBySections(markdown);
      && Fits(hs, |lines|)
      && (forall t :: t in m <==> Keyed(lines, hs, |hs|, t))
      && (forall t :: t in m ==> LastWith(lines, hs, |hs|, t, m[t]))
  {
    var lines := SplitLines(markdown);
    var hs := Headers(lines);
    SectionsUpToKeys(lines, hs, |hs|);
    SectionsUpToValues(lines, hs, |hs|);
  }

  /** The loop of `split_by_sections`, filling the dictionary. */
  method SplitSections(markdown: string) returns (sections: map<string, string>)
    ensures sections == SplitBySections(markdown)
  {
    var lines := SplitLines(markdown);
    var headers := FindHeaders(lines);
    assert Fits(headers, |lines|);
    sections := map[];
    for idx := 0 to |headers|
      invariant sections == SectionsUpTo(lines, headers, idx)
    {
      sections := AddSection(lines, headers, idx, sections);
    }
  }

  /** The body of that loop: the section at `idx` enters the dictionary when it is not empty. */
  method AddSection(lines: seq<string>, headers: seq<Header>, idx: nat, sections: map<string, string>)
    returns (sections': map<string, string>)
    requires Fits(headers, |lines|) && idx < |headers|
    requires sections == SectionsUpTo(lines, headers, idx)
    ensures sections' == SectionsUpTo(lines, headers, idx + 1)
  {
    sections' := sections;
    var content := SectionContent(lines, headers, idx);
    if content != "" {
      sections' := sections[headers[idx].title := content];
    }
  }

  /** One step of that loop: the lines up to the next header, joined and stripped. */
  method SectionContent(lines: seq<string>, headers: seq<Header>, idx: nat) returns (content: string)
    requires Fits(headers, |lines|) && idx < |headers|
    ensures content == Body(lines, headers, idx)
  {
    var end := |lines|;
    if idx + 1 < |headers| {
      end := headers[idx + 1].index;
    }
    content := Strip(Join(lines[headers[idx].index + 1..end], "\n"));
  }

  // ----- Validation ------------------------------------------------------

  /**
   * `HEADER_RE.search(content)` finds a match at line start `p`: `s[p]` is `#`
   * and some character other than `'\n'` follows (the `\s*` after the `#`s
   * may run over newlines to reach it).
   */
  predicate HeaderAt(s: string, p: nat) {
    p < |s| && LineStart(s, p) && s[p] == '#' && Until(s, p + 1, NotNewline) < |s|
  }

  predicate HasHeader(s: string) {
    exists p :: 0 <= p < |s| && HeaderAt(s, p)
  }

  /** `validate_markdown(content)`. */
  predicate ValidateMarkdown(content: string) {
    if content == "" || Strip(content) == "" then false
    else HasHeader(content) && |Strip(content)| > 100
  }

  /** Valid exactly when some line starts a header and the stripped text is longer than 100. */
  lemma ValidateMarkdownSpec(content: string)
    ensures ValidateMarkdown(content) <==> HasHeader(content) && |Strip(content)| > 100
    ensures ValidateMarkdown(content) ==> |content| > 100
  {
  }

  /** A line starting with `#` and one more character on it is a header for the search as well. */
  lemma HeaderLineFound(s: string, p: nat)
    requires LineStart(s, p) && p + 1 < |s| && s[p] == '#' && s[p + 1] != '\n'
    ensures HasHeader(s)
  {
    assert HeaderAt(s, p);
  }

  // ----- Adding today's summary -----------------------------------------

  /** The title of the added section, "오늘의 요약" (today's summary). */
  const TodayTitle: string := "오늘의 요약"

  /** The header line of the added section, `"## 오늘의 요약"`. */
  const TodayHeading: string := "## " + TodayTitle

  /** `add_today_summary(markdown, summary)`. */
  function AddTodaySummary(markdown: string, summary: string): string {
    if summary == "" then markdown
    else if ExtractTodaySummary(markdown) != "" then markdown
    else RStrip(markdown) + "\n\n" + TodayHeading + "\n\n" + summary
  }

  /** The title holds both words and has no white space at either end. */
  lemma TodayTitleShape()
    ensures IsTodayTitle(TodayTitle)
    ensures !IsSpace(TodayTitle[0]) && !IsSpace(TodayTitle[|TodayTitle| - 1])
  {
    var t := TodayTitle;
    assert t[0..][..2] == "오늘";
    ContainsAt(t, "오늘", 0);
    assert t[4..][..2] == "요약";
    ContainsAt(t, "요약", 4);
  }

  /** The heading is a level-2 header line whose title is `TodayTitle`. */
  lemma TodayHeadingTitle()
    ensures IsHeaderLine(TodayHeading) && HeaderTitle(TodayHeading) == TodayTitle
  {
    var h := TodayHeading;
    assert h[1..][0] == '#' && h[1..][1..][0] == ' ';
    assert LeadingHashes(h[1..][1..]) == 0;
    assert LeadingHashes(h[1..]) == 1;
    assert LeadingHashes(h) == 2;
    assert h[2..] == [' '] + TodayTitle;
    TodayTitleShape();
    StripTrimmed(TodayTitle);
    StripSpaceCons(' ', TodayTitle);
  }

  /** The heading holds no line boundary, so it stays one line. */
  lemma TodayHeadingOneLine()
    ensures forall i :: 0 <= i < |TodayHeading| ==> !IsLineBoundary(TodayHeading[i])
  {
    forall i | 0 <= i < |TodayHeading| ensures !IsLineBoundary(TodayHeading[i]) {
      if i < 3 {
        assert TodayHeading[i] in "## ";
      } else {
        assert TodayHeading[i] == TodayTitle[i - 3];
        assert TodayTitle[i - 3] in "오늘의 요약";
      }
    }
  }

  /** A text holding the heading as one of its lines has a today-summary section. */
  lemma HeadingLineFound(lines: seq<string>, i: nat)
    requires i < |lines| && lines[i] == TodayHeading
    ensures Section(lines, IsTodayTitle) != ""
  {
    TodayHeadingTitle();
    TodayTitleShape();
    HeadersInComplete(lines, |lines|, i);
    var hs := Headers(lines);
    var k :| 0 <= k < |hs| && hs[k].index == i;
    HeadersInDescribe(lines, |lines|, k);
    assert IsTodayTitle(hs[k].title);
    SectionEmptyIff(lines, IsTodayTitle);
  }

  /** The heading followed by a newline opens a line of its own. */
  lemma HeadingThenLines(tail: string)
    ensures SplitLines(TodayHeading + "\n" + tail) == [TodayHeading] + SplitLines(tail)
  {
    TodayHeadingOneLine();
    SplitLinesJoin(TodayHeading, tail);
    assert SplitLines(TodayHeading) == [TodayHeading] by {
      UntilUnique(TodayHeading, 0, IsLineBoundary, |TodayHeading|);
    }
  }

  /** After `x`, a blank line and a line `h`, the line `h` is at index `|SplitLines(x)| + 1`. */
  lemma LineAfterBlank(x: string, h: string, tail: string) returns (i: nat)
    requires x == [] || !IsLineBoundary(x[|x| - 1])
    requires SplitLines(h + "\n" + tail) == [h] + SplitLines(tail)
    ensures var lines := SplitLines(x + "\n\n" + h + "\n" + tail);
      i < |lines| && lines[i] == h
  {
    var rest := h + "\n" + tail;
    var blankRest := "" + "\n" + rest;
    BlankThenLine(x, h, tail);
    SplitLinesJoin(x, blankRest);
    SplitLinesJoin("", rest);
    var pre := if x == [] then [""] else SplitLines(x);
    i := |pre| + 1;
    ThirdAfter(pre, "", h, SplitLines(tail));
  }

  /** `x`, a blank line and `h` on a line, written as two joins. */
  lemma BlankThenLine(x: string, h: string, tail: string)
    ensures x + "\n\n" + h + "\n" + tail == x + "\n" + ("" + "\n" + (h + "\n" + tail))
  {
  }

  /** In `pre`, then `a`, then `b`, the element `b` sits at index `|pre| + 1`. */
  lemma ThirdAfter(pre: seq<string>, a: string, b: string, rest: seq<string>)
    ensures |pre + ([a] + ([b] + rest))| > |pre| + 1 && (pre + ([a] + ([b] + rest)))[|pre| + 1] == b
  {
  }

  /** The text `add_today_summary` builds has the heading as a line of its own. */
  lemma AddedLines(x: string, summary: string) returns (i: nat)
    requires x == [] || !IsSpace(x[|x| - 1])
    ensures var lines := SplitLines(x + "\n\n" + TodayHeading + "\n\n" + summary);
      i < |lines| && lines[i] == TodayHeading
  {
    var tail := "\n" + summary;
    HeadingThenLines(tail);
    i := LineAfterBlank(x, TodayHeading, tail);
    BlankBeforeSummary(x + "\n\n" + TodayHeading, summary);
  }

  /** Two line breaks are one break and then a text starting with one. */
  lemma BlankBeforeSummary(x: string, summary: string)
    ensures x + "\n\n" + summary == x + "\n" + ("\n" + summary)
  {
  }

  /** Once the section is added, `extract_today_summary` finds it. */
  lemma AddedSectionFound(markdown: string, summary: string)
    ensures ExtractTodaySummary(RStrip(markdown) + "\n\n" + TodayHeading + "\n\n" + summary) != ""
  {
    var x := RStrip(markdown);
    var i := AddedLines(x, summary);
    HeadingLineFound(SplitLines(x + "\n\n" + TodayHeading + "\n\n" + summary), i);
  }

  /** Adding today's summary a second time changes nothing. */
  lemma AddTodaySummaryTwice(markdown: string, summary: string)
    ensures AddTodaySummary(AddTodaySummary(markdown, summary), summary) == AddTodaySummary(markdown, summary)
  {
    if summary != "" && ExtractTodaySummary(markdown) == "" {
      AddedSectionFound(markdown, summary);
    }
  }
}
