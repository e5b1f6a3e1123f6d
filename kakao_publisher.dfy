/**
 * The text side of the KakaoTalk bot publisher: `_simplify_markdown` (a fixed
 * chain of `re.sub` passes and a final `strip()`), the 1000-character limit,
 * the choice between the full text and the "오늘의 요약" section in
 * `publish`, and the guard and truncation of `send_simple_message`. The
 * webhook post itself is left to the caller: the functions here say whether
 * a post is made and with which text.
 */
module KakaoPublisher {
  import opened Wrappers
  import opened Text
  import opened Rewrite
  import opened Scan
  import MarkdownUtils

  /** `MAX_MESSAGE_LENGTH`. */
  const MaxMessageLength: nat := 1000

  predicate NotHash(c: char) {
    c != '#'
  }

  /** A slice whose every character differs from `c` does not hold `c`. */
  lemma NotInSlice(s: string, i: nat, j: nat, c: char)
    requires i <= j <= |s| && forall k :: i <= k < j ==> s[k] != c
    ensures c !in s[i..j]
  {
    forall x | 0 <= x < j - i ensures s[i..j][x] != c {
      assert s[i..j][x] == s[i + x];
    }
  }

  /** `UntilChar` runs past a stretch free of `c`. */
  lemma {:induction false} UntilCharPast(s: string, i: nat, j: nat, c: char)
    requires i <= j <= |s| && forall k :: i <= k < j ==> s[k] != c
    ensures UntilChar(s, i, c) >= j
    decreases j - i
  {
    if i < j {
      UntilCharPast(s, i + 1, j, c);
    }
  }

  // ----- Headers: `^#{1,6}\s+(.+)$` becomes `[\1]` ------------------------

  /**
   * `^#{1,6}\s+(.+)$` with `re.MULTILINE`, tried at `p`. The `#` run must
   * have one to six characters and be followed by white space (a shorter
   * run would leave a `#` where `\s` is needed); `(.+)` then runs to the end
   * of its line. The match is replaced by `[` group `]`.
   */
  function BracketHeaderAt(s: string, p: nat): (r: Option<Hit>)
    ensures r.Some? ==> HeaderHit(s, p, r.value)
  {
    if p < |s| && LineStart(s, p) then
      var h := Until(s, p, NotHash) - p;
      if 1 <= h <= 6 && p + h < |s| && IsSpace(s[p + h]) then
        match GroupStart(s, p + h)
        case None => None
        case Some(q) =>
          var e := UntilChar(s, q, '\n');
          BracketHit(s, p, q, e);
          Some(Hit(e, "[" + s[q..e] + "]"))
      else None
    else None
  }

  /**
   * A header match at `p`: a line starting with `#` whose title runs to the
   * end of the line and comes back wrapped in brackets.
   */
  predicate HeaderHit(s: string, p: nat, r: Hit) {
    && p < |s| && LineStart(s, p) && s[p] == '#' && p < r.end <= |s|
    && (r.end == |s| || s[r.end] == '\n')
    && var n := |r.repl| - 2;
      && n >= 1 && p < r.end - n
      && r.repl == "[" + s[r.end - n..r.end] + "]"
      && '\n' !in s[r.end - n..r.end]
  }

  /** The replacement made from the rest of the line after `q`: the title wrapped in brackets. */
  lemma BracketHit(s: string, p: nat, q: nat, e: nat)
    requires p < q < |s| && LineStart(s, p) && s[p] == '#'
    requires s[q] != '\n' && e == UntilChar(s, q, '\n')
    ensures HeaderHit(s, p, Hit(e, "[" + s[q..e] + "]"))
  {
    NotInSlice(s, q, e, '\n');
    assert ("[" + s[q..e] + "]")[1..|s[q..e]| + 1] == s[q..e];
  }

  function HeaderMatcher(): Matcher {
    (s: string, i: nat) => BracketHeaderAt(s, i)
  }

  /**
   * A header line `#…# title` at the start of a line, with one to six `#`,
   * white space, and a title starting with a character other than white
   * space, becomes `[title]`.
   */
  lemma BracketHeaderLine(s: string, p: nat, h: nat, ws: string, title: string)
    requires LineStart(s, p) && 1 <= h <= 6
    requires |ws| >= 1 && forall i :: 0 <= i < |ws| ==> IsSpace(ws[i])
    requires |title| >= 1 && !IsSpace(title[0]) && '\n' !in title
    requires var e := p + h + |ws| + |title|;
      && e <= |s| && s[p..e] == Repeat('#', h) + ws + title
      && (e == |s| || s[e] == '\n')
    ensures BracketHeaderAt(s, p) == Some(Hit(p + h + |ws| + |title|, "[" + title + "]"))
  {
    var w := p + h + |ws|;
    var e := w + |title|;
    HeaderLineScan(s, p, h, ws, title);
    BracketHeaderFrom(s, p, h, w, e, title);
  }

  /** What the scans of `BracketHeaderAt` find on such a line. */
  lemma HeaderLineScan(s: string, p: nat, h: nat, ws: string, title: string)
    requires 1 <= h
    requires |ws| >= 1 && forall i :: 0 <= i < |ws| ==> IsSpace(ws[i])
    requires |title| >= 1 && !IsSpace(title[0]) && '\n' !in title
    requires var e := p + h + |ws| + |title|;
      && e <= |s| && s[p..e] == Repeat('#', h) + ws + title
      && (e == |s| || s[e] == '\n')
    ensures var w := p + h + |ws|; var e := w + |title|;
      && p + h < |s| && IsSpace(s[p + h]) && w < |s|
      && Until(s, p, NotHash) == p + h && GroupStart(s, p + h) == Some(w)
      && UntilChar(s, w, '\n') == e && s[w..e] == title
  {
    var w := p + h + |ws|;
    var e := w + |title|;
    HeaderLineChars(s, p, h, ws, title);
    UntilUnique(s, p, NotHash, p + h);
    UntilUnique(s, p + h, NotSpace, w);
    UntilCharPast(s, w, e, '\n');
    GroupStartAt(s, p + h, w);
  }

  /** The characters of such a header line: the `#` run, the white space, then a title without line break. */
  lemma HeaderLineChars(s: string, p: nat, h: nat, ws: string, title: string)
    requires |ws| >= 1 && forall i :: 0 <= i < |ws| ==> IsSpace(ws[i])
    requires |title| >= 1 && '\n' !in title
    requires var e := p + h + |ws| + |title|;
      e <= |s| && s[p..e] == Repeat('#', h) + ws + title
    ensures var w := p + h + |ws|; var e := w + |title|;
      && (forall x :: p <= x < p + h ==> !NotHash(s[x]))
      && (forall x :: p + h <= x < w ==> !NotSpace(s[x]))
      && s[p + h] == ws[0] && s[w] == title[0]
      && (forall x :: w <= x < e ==> s[x] != '\n')
      && s[w..e] == title
  {
    var w := p + h + |ws|;
    var e := w + |title|;
    var line := Repeat('#', h) + ws + title;
    forall x | p <= x < e ensures s[x] == line[x - p] {
      assert s[x] == s[p..e][x - p];
    }
    assert forall x :: p <= x < p + h ==> s[x] == '#';
    assert forall x :: p + h <= x < w ==> s[x] == ws[x - p - h];
    assert forall x :: w <= x < e ==> s[x] == title[x - w];
    assert s[w..e] == title;
  }

  /** White space then a character that is not: the group starts at that character. */
  lemma GroupStartAt(s: string, i: nat, w: nat)
    requires i <= |s| && Until(s, i, NotSpace) == w < |s|
    ensures GroupStart(s, i) == Some(w)
  {
  }

  /** The header pattern's parts, found one after the other, make the match. */
  lemma BracketHeaderFrom(s: string, p: nat, h: nat, w: nat, e: nat, title: string)
    requires p < |s| && LineStart(s, p) && 1 <= h <= 6 && p + h < |s| && IsSpace(s[p + h])
    requires Until(s, p, NotHash) == p + h && GroupStart(s, p + h) == Some(w) && UntilChar(s, w, '\n') == e
    requires w <= e && s[w..e] == title
    ensures BracketHeaderAt(s, p) == Some(Hit(e, "[" + title + "]"))
  {
  }

  // ----- The other passes -------------------------------------------------

  /**
   * "```[^\n]*\n([^`]+)```" tried at `i`: a fence, the rest of its line, then
   * the code up to the next backtick, which must open a closing fence. Both
   * runs are greedy and stop at the only character that may follow them, so
   * the match is unique. It is replaced by the code.
   */
  function CodeBlockAt(s: string, i: nat): (r: Option<Hit>)
    ensures r.Some? ==> i + 3 <= |s| && s[i..i + 3] == "```"
    ensures r.Some? ==> var start := r.value.end - 3 - |r.value.repl|;
      && |r.value.repl| >= 1 && i + 3 < start && r.value.end <= |s|
      && s[start - 1] == '\n' && s[r.value.end - 3..r.value.end] == "```"
      && r.value.repl == s[start..r.value.end - 3] && '`' !in r.value.repl
  {
    if i + 3 <= |s| && s[i..i + 3] == "```" then
      var j := UntilChar(s, i + 3, '\n');
      if j < |s| then
        var e := UntilChar(s, j + 1, '`');
        if e > j + 1 && e + 3 <= |s| && s[e..e + 3] == "```" then
          NotInSlice(s, j + 1, e, '`');
          Some(Hit(e + 3, s[j + 1..e]))
        else None
      else None
    else None
  }

  function CodeBlockMatcher(): Matcher {
    (s: string, i: nat) => CodeBlockAt(s, i)
  }

  /** `^>\s+` with `re.MULTILINE`, tried at `p`: the whole white-space run after `>` becomes `" `. */
  function QuoteAt(s: string, p: nat): (r: Option<Hit>)
    ensures r.Some? ==> && LineStart(s, p) && p + 1 < r.value.end <= |s| && s[p] == '>'
                        && (forall k :: p < k < r.value.end ==> IsSpace(s[k]))
                        && (r.value.end == |s| || !IsSpace(s[r.value.end]))
                        && r.value.repl == "\" "
  {
    if LineStart(s, p) && p + 1 < |s| && s[p] == '>' && IsSpace(s[p + 1]) then
      Some(Hit(Until(s, p + 1, NotSpace), "\" "))
    else None
  }

  function QuoteMatcher(): Matcher {
    (s: string, i: nat) => QuoteAt(s, i)
  }

  /** The bullet `re.sub` puts in front of list items, `•`. */
  const Bullet: char := '•'

  /**
   * `^\s*[-*]\s+` with `re.MULTILINE`, tried at `p`: white space (newlines
   * included), a `-` or `*`, and white space again. `\s*` is greedy and the
   * character after it is not white space, so it never gives anything back.
   * The match becomes `• `.
   */
  function BulletAt(s: string, p: nat): (r: Option<Hit>)
    ensures r.Some? ==> p <= |s|
    ensures r.Some? ==> var m := Until(s, p, NotSpace);
      && LineStart(s, p) && m + 1 < r.value.end <= |s| && (s[m] == '-' || s[m] == '*')
      && (forall k :: p <= k < m ==> IsSpace(s[k]))
      && (forall k :: m < k < r.value.end ==> IsSpace(s[k]))
      && (r.value.end == |s| || !IsSpace(s[r.value.end]))
      && r.value.repl == [Bullet, ' ']
  {
    if p <= |s| && LineStart(s, p) then
      var m := Until(s, p, NotSpace);
      if m + 1 < |s| && (s[m] == '-' || s[m] == '*') && IsSpace(s[m + 1]) then
        Some(Hit(Until(s, m + 1, NotSpace), [Bullet, ' ']))
      else None
    else None
  }

  function BulletMatcher(): Matcher {
    (s: string, i: nat) => BulletAt(s, i)
  }

  // ----- `_simplify_markdown` ---------------------------------------------

  /** The passes of `_simplify_markdown` before the final `strip()`, in order. */
  function SimplifyPasses(markdown: string): string {
    var t1 := Sub(markdown, HeaderMatcher(), 0);
    var t2 := Sub(t1, AnchorMatcher(), 0);
    var t3 := Sub(t2, DelimitedMatcher('*', 2), 0);
    var t4 := Sub(t3, DelimitedMatcher('*', 1), 0);
    var t5 := Sub(t4, CodeBlockMatcher(), 0);
    var t6 := Sub(t5, DelimitedMatcher('`', 1), 0);
    var t7 := Sub(t6, QuoteMatcher(), 0);
    var t8 := Sub(t7, BulletMatcher(), 0);
    CollapseRuns(t8, 2)
  }

  /** `_simplify_markdown(markdown)`. */
  function Simplify(markdown: string): string {
    Strip(SimplifyPasses(markdown))
  }

  /** The anchor texts of a list of links. */
  function Anchors(links: seq<MdLink>): (r: seq<string>)
    ensures |r| == |links| && forall i :: 0 <= i < |links| ==> r[i] == links[i].anchor
  {
    seq(|links|, i requires 0 <= i < |links| => links[i].anchor)
  }

  /** The link pass keeps the text between links and puts each link's anchor text in its place. */
  lemma LinksBecomeAnchors(t: string)
    ensures t == Interleave(Gaps(t), Sources(MdLinks(t)))
    ensures Sub(t, AnchorMatcher(), 0) == Interleave(Gaps(t), Anchors(MdLinks(t)))
  {
    var f := (anchor: string, url: string) => anchor;
    SubLinks(t, f);
    assert Replaced(MdLinks(t), f) == Anchors(MdLinks(t));
  }

  /** A slice of a text with no three newlines in a row has none either. */
  lemma NoTripleSlice(s: string, i: nat, j: nat)
    requires i <= j <= |s| && NoTriple(s)
    ensures NoTriple(s[i..j])
  {
    var t := s[i..j];
    forall k | 0 <= k < |t| - 2 ensures !(t[k] == '\n' && t[k + 1] == '\n' && t[k + 2] == '\n') {
      assert t[k] == s[i + k] && t[k + 1] == s[i + k + 1] && t[k + 2] == s[i + k + 2];
    }
  }

  /**
   * The simplified text has no white space at either end and never three
   * newlines in a row: blank lines are collapsed to one.
   */
  lemma SimplifyShape(markdown: string)
    ensures var r := Simplify(markdown);
      && (r == [] || (!IsSpace(r[0]) && !IsSpace(r[|r| - 1])))
      && NoTriple(r)
  {
    PassesNoTriple(markdown);
    StripNoTriple(SimplifyPasses(markdown));
  }

  /**
   * The last pass, run by run: two or more newlines in a row become exactly
   * two, and a single newline stays; the text around a run is collapsed on
   * its own.
   */
  lemma BlankLinesRun(x: string, n: nat, y: string)
    requires x == [] || x[|x| - 1] != '\n'
    requires y == [] || y[0] != '\n'
    ensures CollapseRuns(x + Repeat('\n', n) + y, 2)
      == CollapseRuns(x, 2) + (if n >= 2 then "\n\n" else Repeat('\n', n)) + CollapseRuns(y, 2)
  {
    CollapseRunsSplit(x, n, y, 2);
  }

  /** The passes end with the collapse, so their result has no three newlines in a row. */
  lemma PassesNoTriple(markdown: string)
    ensures NoTriple(SimplifyPasses(markdown))
  {
    CollapseRunsNoTriple(Sub(Sub(Sub(Sub(Sub(Sub(Sub(Sub(markdown, HeaderMatcher(), 0), AnchorMatcher(), 0),
      DelimitedMatcher('*', 2), 0), DelimitedMatcher('*', 1), 0), CodeBlockMatcher(), 0),
      DelimitedMatcher('`', 1), 0), QuoteMatcher(), 0), BulletMatcher(), 0), 2);
  }

  /** Stripping keeps a text free of three newlines in a row and leaves no white space at either end. */
  lemma StripNoTriple(t: string)
    requires NoTriple(t)
    ensures var r := Strip(t);
      && (r == [] || (!IsSpace(r[0]) && !IsSpace(r[|r| - 1])))
      && NoTriple(r)
  {
    var k := StripSlice(t);
    NoTripleSlice(t, k, k + |Strip(t)|);
  }

  // ----- Preparing the text -----------------------------------------------

  /** `_prepare_today_summary(content)`: the simplified "오늘의 요약" section, cut to 997 characters and `...` when too long. */
  function PrepareTodaySummary(content: string): (r: Option<string>)
    ensures r.None? <==> MarkdownUtils.ExtractTodaySummary(content) == ""
    ensures r.Some? ==> var t := Simplify(MarkdownUtils.ExtractTodaySummary(content));
      && |r.value| <= MaxMessageLength
      && (|t| <= MaxMessageLength ==> r.value == t)
      && (|t| > MaxMessageLength ==> |r.value| == MaxMessageLength && r.value[..997] == t[..997] && EndsWith(r.value, "..."))
  {
    var section := MarkdownUtils.ExtractTodaySummary(content);
    if section == "" then None
    else
      var t := Simplify(section);
      var r := Ellipsize(t, MaxMessageLength);
      assert |t| > MaxMessageLength ==> r[..997] == t[..997] && r[997..] == "...";
      Some(r)
  }

  /** `_prepare_full_content(content)`: the whole simplified text, or nothing when it is over the limit. */
  function PrepareFullContent(content: string): (r: Option<string>)
    ensures r.None? <==> |Simplify(content)| > MaxMessageLength
    ensures r.Some? ==> r.value == Simplify(content) && |r.value| <= MaxMessageLength
  {
    var t := Simplify(content);
    if |t| > MaxMessageLength then None else Some(t)
  }

  // ----- Sending ----------------------------------------------------------

  /** What a send does: nothing (and the call returns `False`), or one post of `text` to the webhook. */
  datatype Send = Refused | Post(text: string)

  /** Python's truth value of an optional text: `None` and `""` are false. */
  predicate Truthy(t: Option<string>) {
    t.Some? && t.value != ""
  }

  /** The text `publish` picks: the full text if asked for and it fits, otherwise the today-summary text. */
  function ChosenText(content: string, sendFull: bool): Option<string> {
    if sendFull then
      var full := PrepareFullContent(content);
      if Truthy(full) then full else PrepareTodaySummary(content)
    else PrepareTodaySummary(content)
  }

  /**
   * `publish(content, send_full=sendFull)` up to the webhook post. It posts
   * only with a webhook and a non-empty text of at most 1000 characters; the
   * full text is posted exactly when it was asked for and simplifies to a
   * non-empty text within the limit, and otherwise the post, if any, is the
   * today-summary text.
   */
  function Publish(webhookUrl: string, content: string, sendFull: bool): (r: Send)
    ensures webhookUrl == "" ==> r == Refused
    ensures r.Post? ==> r.text != "" && |r.text| <= MaxMessageLength
    ensures webhookUrl != "" && sendFull && 0 < |Simplify(content)| <= MaxMessageLength ==>
      r == Post(Simplify(content))
    ensures webhookUrl != "" && !(sendFull && 0 < |Simplify(content)| <= MaxMessageLength) ==>
      r == (if Truthy(PrepareTodaySummary(content)) then Post(PrepareTodaySummary(content).value) else Refused)
    ensures MarkdownUtils.ExtractTodaySummary(content) == "" && !(sendFull && 0 < |Simplify(content)| <= MaxMessageLength) ==>
      r == Refused
  {
    if webhookUrl == "" then Refused
    else
      var text := ChosenText(content, sendFull);
      if Truthy(text) then Post(text.value) else Refused
  }

  /** `send_simple_message(message)` up to the webhook post. */
  function SimpleMessage(webhookUrl: string, message: string): (r: Send)
    ensures webhookUrl == "" <==> r == Refused
    ensures r.Post? ==> |r.text| <= MaxMessageLength
    ensures r.Post? && |message| <= MaxMessageLength ==> r.text == message
    ensures r.Post? && |message| > MaxMessageLength ==>
      |r.text| == MaxMessageLength && r.text[..997] == message[..997] && EndsWith(r.text, "...")
  {
    if webhookUrl == "" then Refused
    else
      var m := Ellipsize(message, MaxMessageLength);
      assert |message| > MaxMessageLength ==> m[..997] == message[..997] && m[997..] == "...";
      Post(m)
  }
}
