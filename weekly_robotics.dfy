/**
 * The deterministic steps of the Weekly Robotics summarizer: the issue
 * number and date read from a newsletter, the headline and thumbnail lines
 * read from the model's answer, the line filter that then drops those lines,
 * the thumbnail image put on top, the source line put at the bottom, and the
 * metadata of the result. The model's answer itself is an input.
 */
module WeeklyRobotics {
  import opened Wrappers
  import opened Text
  import opened Scan

  // ----- Issue number: `weekly-robotics-(\d+)` ----------------------------

  const IssuePrefix := "weekly-robotics-"

  /** `weekly-robotics-` at `i`, followed by at least one digit. */
  predicate IssueAt(url: string, i: nat) {
    i + |IssuePrefix| < |url| && url[i..i + |IssuePrefix|] == IssuePrefix && IsDigit(url[i + |IssuePrefix|])
  }

  /** Where `re.search` finds `weekly-robotics-(\d+)` in `url`. */
  function FirstIssueAt(url: string): (r: Option<nat>)
    ensures r.Some? ==> r.value < |url| && IssueAt(url, r.value)
    ensures forall k :: 0 <= k < |url| && (r.None? || k < r.value) ==> !IssueAt(url, k)
  {
    var p := (k: nat) => IssueAt(url, k);
    assert forall k: nat :: p(k) == IssueAt(url, k);
    Search(p, 0, |url|)
  }

  /**
   * The digits after the first `weekly-robotics-` that has any, or `"Unknown"`:
   * the whole run of digits that starts there.
   */
  function IssueNumber(url: string): (r: string)
    ensures (forall i :: 0 <= i < |url| ==> !IssueAt(url, i)) ==> r == "Unknown"
    ensures (exists i :: 0 <= i < |url| && IssueAt(url, i)) ==> |r| > 0 && AllDigits(r) && Contains(url, IssuePrefix + r)
    ensures FirstIssueAt(url).Some? ==>
      var g := FirstIssueAt(url).value + |IssuePrefix|;
      g + |r| <= |url| && url[g..g + |r|] == r && (g + |r| == |url| || !IsDigit(url[g + |r|]))
  {
    match FirstIssueAt(url)
    case None => "Unknown"
    case Some(i) =>
      var g := i + |IssuePrefix|;
      var e := Until(url, g, NotDigit);
      IssueRun(url, i, e);
      url[g..e]
  }

  /** The digit run after a match at `i` is not empty, and the URL holds it behind the prefix. */
  lemma IssueRun(url: string, i: nat, e: nat)
    requires IssueAt(url, i) && e == Until(url, i + |IssuePrefix|, NotDigit)
    ensures i + |IssuePrefix| < e && AllDigits(url[i + |IssuePrefix|..e])
    ensures Contains(url, IssuePrefix + url[i + |IssuePrefix|..e])
  {
    var g := i + |IssuePrefix|;
    assert url[i..e] == IssuePrefix + url[g..e];
    assert StartsWith(url[i..], IssuePrefix + url[g..e]) by {
      assert url[i..][..e - i] == url[i..e];
    }
    ContainsAt(url, IssuePrefix + url[g..e], i);
  }

  /**
   * An address whose first `weekly-robotics-` followed by a digit is at `p`,
   * with a run of digits from there to `e`: the issue number is that run.
   */
  lemma IssueNumberAt(url: string, p: nat, e: nat)
    requires p + |IssuePrefix| < e <= |url|
    requires url[p..p + |IssuePrefix|] == IssuePrefix
    requires forall k :: 0 <= k < p ==> !IssueAt(url, k)
    requires forall k :: p + |IssuePrefix| <= k < e ==> IsDigit(url[k])
    requires e == |url| || !IsDigit(url[e])
    ensures IssueNumber(url) == url[p + |IssuePrefix|..e]
  {
    assert IssueAt(url, p);
    assert FirstIssueAt(url) == Some(p);
    UntilUnique(url, p + |IssuePrefix|, NotDigit, e);
  }

  /** `weekly-robotics-` cannot start before a `w` at `p` when nothing before `p` is a `-`. */
  lemma NoIssueBefore(url: string, p: nat)
    requires p + |IssuePrefix| <= |url| && url[p..p + |IssuePrefix|] == IssuePrefix
    requires forall k :: 0 <= k < p ==> url[k] != '-'
    ensures forall j :: 0 <= j < p ==> !IssueAt(url, j)
  {
    var n := |IssuePrefix|;
    assert url[p] == 'w' by {
      assert url[p..p + n][0] == url[p];
    }
    forall j | 0 <= j < p ensures !IssueAt(url, j) {
      if j + n < |url| {
        if j + 6 < p {
          assert url[j..j + n][6] == url[j + 6] != IssuePrefix[6];
        } else {
          var m := p - j;
          assert url[j..j + n][m] == url[p];
          assert IssuePrefix[m] != 'w' by {
            assert 1 <= m <= 6;
            assert IssuePrefix[1..7] == "eekly-";
            assert IssuePrefix[m] == IssuePrefix[1..7][m - 1];
          }
        }
      }
    }
  }

  /**
   * The issue number written into a newsletter address is read back from it,
   * whatever follows the number, when the part before `weekly-robotics-` has
   * no `-` (as `https://www.weeklyrobotics.com/` has none).
   */
  lemma IssueNumberOf(x: string, d: string, rest: string)
    requires '-' !in x && |d| > 0 && AllDigits(d) && (rest == [] || !IsDigit(rest[0]))
    ensures IssueNumber(x + IssuePrefix + d + rest) == d
  {
    var url := x + IssuePrefix + d + rest;
    var p := |x|;
    var g := p + |IssuePrefix|;
    var e := g + |d|;
    assert url == x + (IssuePrefix + (d + rest));
    assert url[p..] == IssuePrefix + (d + rest);
    assert url[g..] == d + rest;
    assert url[p..g] == IssuePrefix;
    assert url[g..e] == d;
    assert forall k :: 0 <= k < p ==> url[k] == x[k];
    assert forall k :: g <= k < e ==> url[k] == d[k - g];
    assert e < |url| ==> url[e] == rest[0];
    NoIssueBefore(url, p);
    IssueNumberAt(url, p, e);
  }

  // ----- Date: the first of three patterns found in the first 500 characters

  /** `re`'s `\w`, restricted to ASCII letters and digits, `_` and the Hangul syllables. */
  predicate IsWordChar(c: char) {
    ('a' <= c <= 'z') || ('A' <= c <= 'Z') || IsDigit(c) || c == '_' || ('\U{AC00}' <= c <= '\U{D7A3}')
  }

  predicate NotWord(c: char) {
    !IsWordChar(c)
  }

  predicate IsSlash(c: char) {
    c == '/'
  }

  /**
   * `\d{1,2}\s+\w+\s+\d{4}` tried at `i` ("2 June 2025"). White space and
   * word characters are disjoint, so each run is taken whole: giving back
   * part of one leaves a character the next item cannot start with.
   */
  function DayMonthYearAt(s: string, i: nat): (r: Option<nat>)
    ensures r.Some? ==> i < r.value <= |s| && IsDigit(s[i])
  {
    if i >= |s| then None
    else
      match ShortRunThen(s, i, IsSpace)
      case None => None
      case Some(a) =>
        var b := Until(s, a, NotSpace);
        var c := Until(s, b, NotWord);
        if b < c < |s| && IsSpace(s[c]) then
          var d := Until(s, c, NotSpace);
          if DigitsAt(s, d, 4) then Some(d + 4) else None
        else None
  }

  /** `\d{4}-\d{2}-\d{2}` tried at `i` ("2025-06-02"). */
  function IsoDateAt(s: string, i: nat): (r: Option<nat>)
    ensures r.Some? ==> i < r.value <= |s| && IsDigit(s[i])
  {
    if i + 10 <= |s| && DigitsAt(s, i, 4) && s[i + 4] == '-' && DigitsAt(s, i + 5, 2) && s[i + 7] == '-' && DigitsAt(s, i + 8, 2)
    then Some(i + 10) else None
  }

  /** `\d{1,2}/\d{1,2}/\d{4}` tried at `i` ("6/2/2025"). */
  function SlashDateAt(s: string, i: nat): (r: Option<nat>)
    ensures r.Some? ==> i < r.value <= |s| && IsDigit(s[i])
  {
    if i >= |s| then None
    else
      match ShortRunThen(s, i, IsSlash)
      case None => None
      case Some(a) =>
        match ShortRunThen(s, a + 1, IsSlash)
        case None => None
        case Some(b) => if DigitsAt(s, b + 1, 4) then Some(b + 5) else None
  }

  const DatePatterns: seq<Pattern> := [DayMonthYearAt, IsoDateAt, SlashDateAt]

  /** The loop over the patterns: the leftmost match of the first pattern that matches at all. */
  function FirstPattern(s: string, pats: seq<Pattern>): (r: Option<string>)
    ensures r.None? <==> forall k :: 0 <= k < |pats| ==> Leftmost(s, pats[k]).None?
    ensures r.Some? ==> |r.value| > 0 && Contains(s, r.value)
    ensures forall k :: 0 <= k < |pats| && Leftmost(s, pats[k]).Some? && (forall j :: 0 <= j < k ==> Leftmost(s, pats[j]).None?) ==>
      r == LeftmostText(s, pats[k])
    decreases |pats|
  {
    if |pats| == 0 then None
    else
      match LeftmostText(s, pats[0])
      case Some(t) => Some(t)
      case None =>
        var r := FirstPattern(s, pats[1..]);
        assert forall k :: 1 <= k < |pats| ==> pats[k] == pats[1..][k - 1];
        r
  }

  /** The newsletter's date as written in its first 500 characters, or `today` when none is found. */
  function WeeklyDate(content: string, today: string): (r: string)
    ensures r == today || Contains(Take(content, 500), r)
    ensures (forall k :: 0 <= k < 3 ==> Leftmost(Take(content, 500), DatePatterns[k]).None?) ==> r == today
    ensures var h := Take(content, 500);
      forall k :: 0 <= k < 3 && Leftmost(h, DatePatterns[k]).Some? && (forall j :: 0 <= j < k ==> Leftmost(h, DatePatterns[j]).None?) ==>
        Some(r) == LeftmostText(h, DatePatterns[k])
  {
    match FirstPattern(Take(content, 500), DatePatterns)
    case Some(t) => t
    case None => today
  }

  /** The loop of `extract_issue_info` over the date patterns, which stops at the first that matches. */
  method ExtractDate(content: string, today: string) returns (date: string)
    ensures date == WeeklyDate(content, today)
  {
    var head := Take(content, 500);
    var found: Option<string> := None;
    for k := 0 to |DatePatterns|
      invariant FirstPattern(head, DatePatterns) == FirstPattern(head, DatePatterns[k..])
    {
      assert DatePatterns[k..][1..] == DatePatterns[k + 1..];
      var m := LeftmostText(head, DatePatterns[k]);
      if m.Some? {
        found := m;
        break;
      }
    }
    date := if found.Some? then found.value else today;
  }

  /** Nothing after the first 500 characters affects the date. */
  lemma WeeklyDateHead(a: string, b: string, today: string)
    requires |a| >= 500
    ensures WeeklyDate(a + b, today) == WeeklyDate(a, today)
  {
    assert Take(a + b, 500) == Take(a, 500);
  }

  /**
   * `s` opens with one or two digits, white space up to `b`, word characters
   * up to `c`, white space up to `e` and four digits.
   */
  predicate DayMonthYearSpans(s: string, a: nat, b: nat, c: nat, e: nat) {
    && 1 <= a <= 2 && a < b < c < e && e + 4 <= |s|
    && (forall k :: 0 <= k < a ==> IsDigit(s[k]))
    && (forall k :: a <= k < b ==> IsSpace(s[k]))
    && (forall k :: b <= k < c ==> IsWordChar(s[k]))
    && (forall k :: c <= k < e ==> IsSpace(s[k]))
    && (forall k :: e <= k < e + 4 ==> IsDigit(s[k]))
  }

  /** `\d{1,2}\s+\w+\s+\d{4}` matches a text that opens that way, and the match is the whole date. */
  lemma DayMonthYearOf(s: string, a: nat, b: nat, c: nat, e: nat)
    requires DayMonthYearSpans(s, a, b, c, e)
    ensures DayMonthYearAt(s, 0) == Some(e + 4)
  {
    CharClasses(s[a]);
    CharClasses(s[b]);
    CharClasses(s[c]);
    CharClasses(s[e]);
    ShortRunThenOf(s, 0, a, IsSpace);
    UntilUnique(s, a, NotSpace, b);
    UntilUnique(s, b, NotWord, c);
    UntilUnique(s, c, NotSpace, e);
    DayMonthYearFrom(s, a, b, c, e);
  }

  /** White space, word characters and digits: what the date pattern needs of the three classes. */
  lemma CharClasses(x: char)
    ensures IsWordChar(x) ==> NotSpace(x)
    ensures IsDigit(x) ==> NotSpace(x)
    ensures IsSpace(x) ==> NotWord(x) && !IsDigit(x)
  {
  }

  /** The pattern's parts, found one after the other, make the match. */
  lemma DayMonthYearFrom(s: string, a: nat, b: nat, c: nat, e: nat)
    requires ShortRunThen(s, 0, IsSpace) == Some(a) && Until(s, a, NotSpace) == b
    requires Until(s, b, NotWord) == c && b < c < |s| && IsSpace(s[c])
    requires Until(s, c, NotSpace) == e && DigitsAt(s, e, 4)
    ensures DayMonthYearAt(s, 0) == Some(e + 4)
  {
  }

  /**
   * A newsletter that opens with a date such as "2 June 2025" is dated by it,
   * whatever follows, even when other dates appear later.
   */
  lemma WeeklyDateLeading(content: string, a: nat, b: nat, c: nat, e: nat, today: string)
    requires DayMonthYearSpans(content, a, b, c, e) && e + 4 <= 500
    ensures WeeklyDate(content, today) == content[..e + 4]
  {
    var h := Take(content, 500);
    SpansInHead(content, a, b, c, e);
    DayMonthYearOf(h, a, b, c, e);
    LeftmostAtStart(h, DayMonthYearAt);
    assert DatePatterns[0] == DayMonthYearAt;
  }

  /** A date within the first 500 characters lies in the head searched, the same. */
  lemma SpansInHead(content: string, a: nat, b: nat, c: nat, e: nat)
    requires DayMonthYearSpans(content, a, b, c, e) && e + 4 <= 500
    ensures DayMonthYearSpans(Take(content, 500), a, b, c, e)
    ensures Take(content, 500)[..e + 4] == content[..e + 4]
  {
    var h := Take(content, 500);
    assert forall k :: 0 <= k < |h| ==> h[k] == content[k];
  }

  /** Without a digit in the first 500 characters, no pattern matches and today's date is used. */
  lemma WeeklyDateNoDigits(content: string, today: string)
    requires forall k :: 0 <= k < |Take(content, 500)| ==> !IsDigit(Take(content, 500)[k])
    ensures WeeklyDate(content, today) == today
  {
    var h := Take(content, 500);
    forall k | 0 <= k < 3 ensures Leftmost(h, DatePatterns[k]).None? {
      var p := DatePatterns[k];
      assert p == DayMonthYearAt || p == IsoDateAt || p == SlashDateAt;
      forall i | 0 <= i < |h| ensures !MatchesAt(h, p, i) {
        assert !IsDigit(h[i]);
      }
    }
  }

  // ----- Headline and thumbnail lines ---------------------------------------

  const HeadlineTag := "**헤드라인:"
  const ThumbnailTag := "**썸네일:"

  /** The index of the first line starting with `tag`. */
  function FirstTagged(lines: seq<string>, tag: string): (r: Option<nat>)
    ensures r.Some? ==> r.value < |lines| && StartsWith(lines[r.value], tag)
    ensures forall k :: 0 <= k < |lines| && (r.None? || k < r.value) ==> !StartsWith(lines[k], tag)
  {
    var p := (k: nat) => k < |lines| && StartsWith(lines[k], tag);
    assert forall k: nat :: k < |lines| ==> p(k) == StartsWith(lines[k], tag);
    Search(p, 0, |lines|)
  }

  /**
   * The first line starting with `tag`, with every `tag` and then every
   * `**` removed and the rest stripped; `None` when no line starts with `tag`.
   */
  function ExtractTagged(markdown: string, tag: string): (r: Option<string>)
    requires |tag| > 0
    ensures r.None? <==> forall k :: 0 <= k < |Split(markdown, '\n')| ==> !StartsWith(Split(markdown, '\n')[k], tag)
  {
    var lines := Split(markdown, '\n');
    match FirstTagged(lines, tag)
    case None => None
    case Some(k) =>
      assert k < |Split(markdown, '\n')| && StartsWith(Split(markdown, '\n')[k], tag);
      Some(TaggedValue(lines[k], tag))
  }

  /** `line.replace(tag, '').replace('**', '').strip()`. */
  function TaggedValue(line: string, tag: string): string
    requires |tag| > 0
  {
    Strip(ReplaceAll(ReplaceAll(line, tag, ""), "**", ""))
  }

  function Headline(markdown: string): Option<string> {
    ExtractTagged(markdown, HeadlineTag)
  }

  function Thumbnail(markdown: string): Option<string> {
    ExtractTagged(markdown, ThumbnailTag)
  }

  /** A tag that starts with `*`, as both tags do. */
  predicate StarTag(tag: string) {
    |tag| > 2 && tag[0] == '*' && '\n' !in tag
  }

  lemma TagsAreStarTags()
    ensures StarTag(HeadlineTag) && StarTag(ThumbnailTag)
  {
  }

  /**
   * When line `k` is the first to start with `tag` and reads `tag value**`,
   * the extracted value is exactly `value`, provided it is stripped and holds no `*`.
   */
  lemma ExtractTaggedOf(markdown: string, tag: string, k: nat, v: string)
    requires StarTag(tag)
    requires k < |Split(markdown, '\n')| && Split(markdown, '\n')[k] == tag + v + "**"
    requires forall j :: 0 <= j < k ==> !StartsWith(Split(markdown, '\n')[j], tag)
    requires '*' !in v && Strip(v) == v
    ensures ExtractTagged(markdown, tag) == Some(v)
  {
    var lines := Split(markdown, '\n');
    assert (tag + v + "**")[..|tag|] == tag;
    FirstTaggedAt(lines, tag, k);
    TaggedValueOf(v, tag);
  }

  /** The first line starting with `tag` is the one `FirstTagged` finds. */
  lemma FirstTaggedAt(lines: seq<string>, tag: string, k: nat)
    requires k < |lines| && StartsWith(lines[k], tag)
    requires forall j :: 0 <= j < k ==> !StartsWith(lines[j], tag)
    ensures FirstTagged(lines, tag) == Some(k)
  {
  }

  /** The value of the line `tag value**` is `value`. */
  lemma TaggedValueOf(v: string, tag: string)
    requires StarTag(tag)
    requires '*' !in v && Strip(v) == v
    ensures TaggedValue(tag + v + "**", tag) == v
  {
    var x := v + "**";
    assert ReplaceAll(tag + v + "**", tag, "") == x by {
      assert tag + v + "**" == tag + x;
      ReplaceAllHead(x, tag, "");
      forall j | 0 <= j <= |x| ensures !StartsWith(x[j..], tag) {
        if j < |v| {
          assert x[j..][0] == v[j];
        }
      }
      ReplaceAllAbsent(x, tag, "");
    }
    assert ReplaceAll(x, "**", "") == v by {
      forall j | 0 <= j < |v| ensures !StartsWith((v + "**")[j..], "**") {
        assert (v + "**")[j..][0] == v[j];
      }
      ReplaceAllSkip(v, "**", "**", "");
      assert ReplaceAll("**", "**", "") == "" by {
        ReplaceAllHead("", "**", "");
        assert "**" + "" == "**";
      }
    }
  }

  // ----- The line filter -----------------------------------------------------

  predicate Tagged(line: string) {
    StartsWith(line, HeadlineTag) || StartsWith(line, ThumbnailTag)
  }

  /** The lines that start with neither tag, in their order. */
  function Untagged(lines: seq<string>): (r: seq<string>)
    ensures |r| <= |lines|
    ensures forall k :: 0 <= k < |r| ==> !Tagged(r[k]) && r[k] in lines
    ensures forall k :: 0 <= k < |lines| && !Tagged(lines[k]) ==> lines[k] in r
  {
    if |lines| == 0 then []
    else
      var init := lines[..|lines| - 1];
      var last := lines[|lines| - 1];
      assert forall k :: 0 <= k < |init| ==> lines[k] == init[k];
      Untagged(init) + (if Tagged(last) then [] else [last])
  }

  /** The filter keeps the order: it works on each part of the text separately. */
  lemma {:induction false} UntaggedAppend(a: seq<string>, b: seq<string>)
    ensures Untagged(a + b) == Untagged(a) + Untagged(b)
    decreases |b|
  {
    if |b| > 0 {
      var b' := b[..|b| - 1];
      assert (a + b)[..|a + b| - 1] == a + b';
      UntaggedAppend(a, b');
    } else {
      assert a + b == a;
    }
  }

  /** Lines with neither tag pass through untouched. */
  lemma {:induction false} UntaggedNone(lines: seq<string>)
    requires forall k :: 0 <= k < |lines| ==> !Tagged(lines[k])
    ensures Untagged(lines) == lines
    decreases |lines|
  {
    if |lines| > 0 {
      UntaggedNone(lines[..|lines| - 1]);
    }
  }

  /** `'\n'.join(filtered_lines).strip()`. */
  function FilteredText(markdown: string): string {
    Strip(Join(Untagged(Split(markdown, '\n')), "\n"))
  }

  /** After the filter, before the strip, no line carries either tag. */
  lemma FilterDropsTags(markdown: string)
    ensures Headline(Join(Untagged(Split(markdown, '\n')), "\n")).None?
    ensures Thumbnail(Join(Untagged(Split(markdown, '\n')), "\n")).None?
  {
    var kept := Untagged(Split(markdown, '\n'));
    var lines := Split(Join(kept, "\n"), '\n');
    if |kept| > 0 {
      KeptLinesFree(Split(markdown, '\n'), kept);
      SplitJoin(kept, '\n');
      assert lines == kept;
    } else {
      assert lines == [""];
    }
    assert forall k :: 0 <= k < |lines| ==> !Tagged(lines[k]);
  }

  /** The kept lines of a split text hold no line break. */
  lemma KeptLinesFree(lines: seq<string>, kept: seq<string>)
    requires forall k :: 0 <= k < |lines| ==> '\n' !in lines[k]
    requires forall k :: 0 <= k < |kept| ==> kept[k] in lines
    ensures forall k :: 0 <= k < |kept| ==> '\n' !in kept[k]
  {
    forall k | 0 <= k < |kept| ensures '\n' !in kept[k] {
      var j :| 0 <= j < |lines| && lines[j] == kept[k];
    }
  }

  /** The loop of the summarizer that drops the headline and thumbnail lines. */
  method FilterTagLines(markdown: string) returns (r: string)
    ensures r == FilteredText(markdown)
  {
    var lines := Split(markdown, '\n');
    var filtered: seq<string> := [];
    for k := 0 to |lines|
      invariant filtered == Untagged(lines[..k])
    {
      assert lines[..k + 1][..k] == lines[..k];
      if !Tagged(lines[k]) {
        filtered := filtered + [lines[k]];
      }
    }
    assert lines[..|lines|] == lines;
    r := Strip(Join(filtered, "\n"));
  }

  // ----- Thumbnail on top, source at the bottom ----------------------------

  const ThumbnailOpen := "![Weekly Robotics]("

  /** With a non-empty thumbnail, the image line and a blank line go on top. */
  function WithThumbnail(markdown: string, thumbnail: Option<string>): (r: string)
    ensures EndsWith(r, markdown)
    ensures r == markdown <==> thumbnail.None? || thumbnail.value == ""
  {
    if thumbnail.Some? && thumbnail.value != "" then ThumbnailOpen + thumbnail.value + ")\n\n" + markdown
    else markdown
  }

  const SourceMarker := "출처: [Weekly Robotics"

  function SourceLine(issue: string, url: string): string {
    "\n\n---\n📖 " + SourceMarker + (" #" + issue + "](" + url + ")")
  }

  /**
   * The source line is appended only when the text does not mention its
   * source yet; either way the text mentions it afterwards and keeps what it had.
   */
  function WithSource(markdown: string, url: string): (r: string)
    ensures Contains(r, SourceMarker)
    ensures StartsWith(r, markdown)
    ensures Contains(markdown, SourceMarker) ==> r == markdown
  {
    if Contains(markdown, SourceMarker) then markdown
    else
      var line := SourceLine(IssueNumber(url), url);
      SourceLineMentions(markdown, url);
      assert (markdown + line)[..|markdown|] == markdown;
      markdown + line
  }

  /** The source line mentions the source, so any text followed by it does. */
  lemma SourceLineMentions(markdown: string, url: string)
    ensures Contains(markdown + SourceLine(IssueNumber(url), url), SourceMarker)
  {
    var tail := " #" + IssueNumber(url) + "](" + url + ")";
    var line := SourceLine(IssueNumber(url), url);
    ContainsAt(SourceMarker, SourceMarker, 0);
    ContainsInfix("\n\n---\n📖 ", SourceMarker, tail, SourceMarker);
    ContainsRight(markdown, line, SourceMarker);
  }

  /** Adding the source line a second time changes nothing. */
  lemma WithSourceTwice(markdown: string, url: string)
    ensures WithSource(WithSource(markdown, url), url) == WithSource(markdown, url)
  {
  }

  // ----- The summarizer and its metadata -----------------------------------

  /** `summarize` after the model call: the text with its lines filtered, thumbnail on top and source below. */
  function Summarized(raw: string, url: string): (r: string)
    ensures Contains(r, SourceMarker)
    ensures StartsWith(r, WithThumbnail(FilteredText(raw), Thumbnail(raw)))
  {
    WithSource(WithThumbnail(FilteredText(raw), Thumbnail(raw)), url)
  }

  datatype Metadata = Metadata(headline: string, date: string, issueNumber: string, source: string, url: string, thumbnail: Option<string>)

  /** The metadata of the result: the headline falls back to the issue when none was extracted. */
  function ResultMetadata(markdown: string, headline: Option<string>, thumbnail: Option<string>, url: string, today: string): (m: Metadata)
    ensures |m.headline| > 0
    ensures headline.Some? && headline.value != "" ==> m.headline == headline.value
    ensures headline.None? || headline.value == "" ==> m.headline == "Weekly Robotics #" + IssueNumber(url)
    ensures m.issueNumber == IssueNumber(url) && m.date == WeeklyDate(markdown, today)
    ensures m.source == "Weekly Robotics" && m.url == url && m.thumbnail == thumbnail
  {
    var issue := IssueNumber(url);
    var h := if headline.Some? && headline.value != "" then headline.value else "Weekly Robotics #" + issue;
    Metadata(h, WeeklyDate(markdown, today), issue, "Weekly Robotics", url, thumbnail)
  }

  /**
   * The summarizer object: it remembers the headline and thumbnail of the
   * last summary, which the result's metadata then reads. The model's
   * answer is passed in as `raw`.
   */
  class WeeklyRoboticsSummarizer {
    var lastHeadline: Option<string>
    var lastThumbnail: Option<string>

    constructor ()
      ensures lastHeadline.None? && lastThumbnail.None?
    {
      lastHeadline := None;
      lastThumbnail := None;
    }

    /** `summarize`: post-processes the answer and remembers its headline and thumbnail. */
    method Summarize(raw: string, url: string) returns (markdown: string)
      modifies this
      ensures lastHeadline == Headline(raw) && lastThumbnail == Thumbnail(raw)
      ensures markdown == Summarized(raw, url)
      ensures Contains(markdown, SourceMarker)
    {
      var headline := Headline(raw);
      var thumbnail := Thumbnail(raw);
      markdown := FilterTagLines(raw);
      markdown := WithThumbnail(markdown, thumbnail);
      markdown := WithSource(markdown, url);
      lastHeadline := headline;
      lastThumbnail := thumbnail;
    }

    /** `summarize_with_result`: the summary with metadata built from what `Summarize` remembered. */
    method SummarizeWithResult(raw: string, url: string, today: string) returns (markdown: string, meta: Metadata)
      modifies this
      ensures markdown == Summarized(raw, url)
      ensures lastHeadline == Headline(raw) && lastThumbnail == Thumbnail(raw)
      ensures meta == ResultMetadata(markdown, Headline(raw), Thumbnail(raw), url, today)
      ensures |meta.headline| > 0 && meta.issueNumber == IssueNumber(url)
    {
      markdown := Summarize(raw, url);
      meta := ResultMetadata(markdown, lastHeadline, lastThumbnail, url, today);
    }
  }
}
