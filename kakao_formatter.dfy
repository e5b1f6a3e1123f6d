/**
 * `KakaoFormatter`: Discord markdown to KakaoTalk plain text, in six fixed
 * passes (headers, links, emphasis, bullets, dividers, blank lines) followed
 * by `strip()`. The TinyURL request is a parameter `tiny`: `Some(body)` for
 * an answer with status 200, `None` for any other status or a failed request.
 */
module KakaoFormatter {
  import opened Wrappers
  import opened Text
  import opened Rewrite
  import opened Lines

  /** `ㆍ`, the bullet KakaoTalk shows well. */
  const Dot: char := '\U{318D}'
  /** `•`, the bullet it replaces. */
  const Bullet: char := '\U{2022}'
  /** `─────────`, nine box-drawing characters. */
  const Divider: string := "\U{2500}\U{2500}\U{2500}\U{2500}\U{2500}\U{2500}\U{2500}\U{2500}\U{2500}"

  // ----- 1. Headers ------------------------------------------------------

  /** `### x` becomes `- x`, `## x` becomes `[x]`, `# x` becomes `x`, checked in that order. */
  function HeaderLine(line: string): string {
    if StartsWith(line, "### ") then "- " + line[4..]
    else if StartsWith(line, "## ") then "[" + line[3..] + "]"
    else if StartsWith(line, "# ") then line[2..]
    else line
  }

  function RemoveHeaders(text: string): string {
    LineMap(text, HeaderLine)
  }

  lemma HeaderLineKeeps(text: string)
    ensures KeepsLines(text, HeaderLine)
  {
    forall k | 0 <= k < |Split(text, '\n')| ensures '\n' !in HeaderLine(Split(text, '\n')[k]) {
      var l := Split(text, '\n')[k];
      if StartsWith(l, "### ") {
        SliceAvoids(l, 4, |l|, '\n');
      } else if StartsWith(l, "## ") {
        SliceAvoids(l, 3, |l|, '\n');
      } else if StartsWith(l, "# ") {
        SliceAvoids(l, 2, |l|, '\n');
      }
    }
  }

  /** The header pass keeps the number of lines and rewrites each line by the three header rules. */
  lemma RemoveHeadersLines(text: string)
    ensures var ins := Split(text, '\n'); var outs := Split(RemoveHeaders(text), '\n');
      && |outs| == |ins|
      && forall k :: 0 <= k < |ins| ==>
        outs[k] == if StartsWith(ins[k], "### ") then "- " + ins[k][4..]
                   else if StartsWith(ins[k], "## ") then "[" + ins[k][3..] + "]"
                   else if StartsWith(ins[k], "# ") then ins[k][2..]
                   else ins[k]
  {
    HeaderLineKeeps(text);
    LineMapLines(text, HeaderLine);
  }

  // ----- 2. Links --------------------------------------------------------

  /** `_shorten_url`: short URLs and failed requests give the URL back, else the stripped answer. */
  function ShortenUrl(url: string, tiny: string -> Option<string>): (r: string)
    ensures |url| <= 30 ==> r == url
    ensures tiny(url).None? ==> r == url
    ensures r == url || (|url| > 30 && tiny(url).Some? && r == Strip(tiny(url).value))
  {
    if |url| <= 30 then url
    else match tiny(url)
      case Some(body) => Strip(body)
      case None => url
  }

  /** A GitHub discussion link keeps its URL; any other goes through the shortener. */
  function LinkTarget(url: string, tiny: string -> Option<string>): string {
    if Contains(url, "github.com") && Contains(url, "discussions") then url else ShortenUrl(url, tiny)
  }

  /** `replace_link`: `[t](u)` becomes `t (u')`. */
  function LinkReplacement(tiny: string -> Option<string>): (string, string) -> string {
    (anchor: string, url: string) => anchor + " (" + LinkTarget(url, tiny) + ")"
  }

  function ConvertLinks(text: string, tiny: string -> Option<string>): string {
    Sub(text, LinkMatcher(LinkReplacement(tiny)), 0)
  }

  /**
   * Only the markdown links change: input and output share the text between
   * the links, and link `k` becomes its anchor, a space and its target in
   * parentheses, the target verbatim for GitHub discussions and shortened otherwise.
   */
  lemma ConvertLinksShape(text: string, tiny: string -> Option<string>)
    ensures var links := MdLinks(text); var out := Replaced(links, LinkReplacement(tiny));
      && text == Interleave(Gaps(text), Sources(links))
      && ConvertLinks(text, tiny) == Interleave(Gaps(text), out)
      && forall k :: 0 <= k < |links| ==>
           out[k] == links[k].anchor + " (" +
             (if Contains(links[k].url, "github.com") && Contains(links[k].url, "discussions")
              then links[k].url else ShortenUrl(links[k].url, tiny)) + ")"
  {
    SubLinks(text, LinkReplacement(tiny));
  }

  // ----- 3. Emphasis -----------------------------------------------------

  /** `***x***`, `**x**`, `*x*`, `_x_`, `` `x` ``, `~~x~~` become `x`, one pattern after another. */
  function RemoveMarkdownFormatting(text: string): string {
    var t1 := Sub(text, DelimitedMatcher('*', 3), 0);
    var t2 := Sub(t1, DelimitedMatcher('*', 2), 0);
    var t3 := Sub(t2, DelimitedMatcher('*', 1), 0);
    var t4 := Sub(t3, DelimitedMatcher('_', 1), 0);
    var t5 := Sub(t4, DelimitedMatcher('`', 1), 0);
    Sub(t5, DelimitedMatcher('~', 2), 0)
  }

  /** The markers the emphasis pass removes. */
  const Marks: set<char> := {'*', '_', '`', '~'}

  /** One emphasis pattern removes only copies of its own marker. */
  lemma PassKeepsText(s: string, c: char, k: nat)
    requires c in Marks
    ensures Drop(Sub(s, DelimitedMatcher(c, k), 0), Marks) == Drop(s, Marks)
  {
    var t := Sub(s, DelimitedMatcher(c, k), 0);
    DelimitedKeepsText(s, c, k);
    DropTwice(t, {c}, Marks);
    DropTwice(s, {c}, Marks);
    assert {c} + Marks == Marks;
  }

  /** The emphasis pass loses no text: it only removes marker characters. */
  lemma RemoveFormattingKeepsText(text: string)
    ensures Drop(RemoveMarkdownFormatting(text), Marks) == Drop(text, Marks)
  {
    var t1 := Sub(text, DelimitedMatcher('*', 3), 0);
    var t2 := Sub(t1, DelimitedMatcher('*', 2), 0);
    var t3 := Sub(t2, DelimitedMatcher('*', 1), 0);
    var t4 := Sub(t3, DelimitedMatcher('_', 1), 0);
    var t5 := Sub(t4, DelimitedMatcher('`', 1), 0);
    PassKeepsText(text, '*', 3);
    PassKeepsText(t1, '*', 2);
    PassKeepsText(t2, '*', 1);
    PassKeepsText(t3, '_', 1);
    PassKeepsText(t4, '`', 1);
    PassKeepsText(t5, '~', 2);
  }

  // ----- 4. Bullets ------------------------------------------------------

  /** A line whose left-stripped form starts with `- ` or `* ` gets its indent as spaces and `ㆍ` for the marker. */
  function BulletLine(line: string): string {
    var stripped := LStrip(line);
    if StartsWith(stripped, "- ") || StartsWith(stripped, "* ") then
      Repeat(' ', |line| - |stripped|) + [Dot] + stripped[1..]
    else line
  }

  function CleanBulletPoints(text: string): string {
    LineMap(ReplaceAll(text, [Bullet], [Dot]), BulletLine)
  }

  /** A bullet line keeps its length; `ㆍ` takes the marker's place and the indent becomes spaces. */
  lemma BulletLineShape(line: string)
    ensures var stripped := LStrip(line); var r := BulletLine(line);
      && |r| == |line|
      && (StartsWith(stripped, "- ") || StartsWith(stripped, "* ") ==>
            var w := |line| - |stripped|;
            && (forall i :: 0 <= i < w ==> r[i] == ' ')
            && r[w] == Dot && r[w + 1..] == line[w + 1..])
      && (!(StartsWith(stripped, "- ") || StartsWith(stripped, "* ")) ==> r == line)
    ensures forall c :: c != Dot && c != ' ' && c !in line ==> c !in BulletLine(line)
  {
    var stripped := LStrip(line);
    LStripSuffix(line);
    if StartsWith(stripped, "- ") || StartsWith(stripped, "* ") {
      var w := |line| - |stripped|;
      var r := BulletLine(line);
      assert r[w + 1..] == stripped[1..];
      forall c | c != Dot && c != ' ' && c !in line ensures c !in r {
        SliceAvoids(line, w + 1, |line|, c);
      }
    }
  }

  lemma BulletLineKeeps(text: string)
    ensures KeepsLines(text, BulletLine)
  {
    forall k | 0 <= k < |Split(text, '\n')| ensures '\n' !in BulletLine(Split(text, '\n')[k]) {
      BulletLineShape(Split(text, '\n')[k]);
    }
  }

  /**
   * The bullet pass keeps the number of lines, leaves no `•`, and rewrites
   * line `k` (after `•` became `ㆍ`) by `BulletLine`.
   */
  lemma CleanBulletPointsLines(text: string)
    ensures var swapped := Split(ReplaceAll(text, [Bullet], [Dot]), '\n');
      var outs := Split(CleanBulletPoints(text), '\n');
      && |swapped| == |Split(text, '\n')|
      && outs == MapAll(swapped, BulletLine)
    ensures Bullet !in CleanBulletPoints(text)
  {
    var s := ReplaceAll(text, [Bullet], [Dot]);
    ReplaceChar(text, Bullet, Dot);
    SwapCharSplit(text, Bullet, Dot, '\n');
    BulletLineKeeps(s);
    LineMapLines(s, BulletLine);
    assert Bullet !in s;
    SplitAvoids(s, Bullet);
    forall k | 0 <= k < |Split(s, '\n')| ensures Bullet !in BulletLine(Split(s, '\n')[k]) {
      BulletLineShape(Split(s, '\n')[k]);
    }
    LineMapAvoids(s, BulletLine, Bullet);
  }

  // ----- 5. Dividers -----------------------------------------------------

  /** A line that strips to `---` becomes the divider; any other stays. */
  function DividerLine(line: string): string {
    if Strip(line) == "---" then Divider else line
  }

  function ConvertDividers(text: string): string {
    LineMap(text, DividerLine)
  }

  lemma DividerLineTwice(line: string)
    ensures DividerLine(DividerLine(line)) == DividerLine(line)
  {
    DividerStrips();
  }

  /** The divider is not itself a `---` line. */
  lemma DividerStrips()
    ensures Strip(Divider) == Divider != "---"
  {
    assert |Divider| == 9 && Divider[0] == Divider[8] == '\U{2500}';
    StripTrimmed(Divider);
  }

  lemma DividerLineKeeps(text: string)
    ensures KeepsLines(text, DividerLine)
  {
    assert '\n' !in Divider;
  }

  /** The divider pass keeps the number of lines and turns exactly the `---` lines into the divider. */
  lemma ConvertDividersLines(text: string)
    ensures var ins := Split(text, '\n'); var outs := Split(ConvertDividers(text), '\n');
      && |outs| == |ins|
      && forall k :: 0 <= k < |ins| ==> outs[k] == if Strip(ins[k]) == "---" then Divider else ins[k]
  {
    DividerLineKeeps(text);
    LineMapLines(text, DividerLine);
  }

  /** Converting dividers twice is converting them once. */
  lemma ConvertDividersTwice(text: string)
    ensures ConvertDividers(ConvertDividers(text)) == ConvertDividers(text)
  {
    DividerLineKeeps(text);
    LineMapLines(text, DividerLine);
    var ls := Split(text, '\n');
    var once := MapAll(ls, DividerLine);
    forall k | 0 <= k < |ls| ensures DividerLine(once[k]) == once[k] {
      DividerLineTwice(ls[k]);
    }
    assert MapAll(once, DividerLine) == once;
  }

  // ----- 6. Blank lines --------------------------------------------------

  /** `\n{3,}`: the longest run of newlines at `i`, when it has three or more. */
  function CollapseMatcher(): Matcher {
    NewlineRuns(3)
  }

  /** `re.sub(r'\n{3,}', '\n\n', text)`. */
  function Collapse(text: string): string {
    Sub(text, CollapseMatcher(), 0)
  }

  function CleanEmptyLines(text: string): string {
    LineMap(Collapse(text), RStrip)
  }

  /** After the collapse no three newlines follow each other, and collapsing again changes nothing. */
  lemma CollapseNoTriple(s: string)
    ensures NoTriple(Collapse(s))
    ensures Collapse(Collapse(s)) == Collapse(s)
  {
    CollapseRunsNoTriple(s, 3);
    CollapseRunsFixed(Collapse(s), 3);
  }

  /**
   * Run by run: three or more newlines in a row become exactly two, and one
   * or two newlines stay as they are; the text around a run is collapsed
   * on its own.
   */
  lemma CollapseRun(x: string, n: nat, y: string)
    requires x == [] || x[|x| - 1] != '\n'
    requires y == [] || y[0] != '\n'
    ensures Collapse(x + Repeat('\n', n) + y) == Collapse(x) + (if n >= 3 then "\n\n" else Repeat('\n', n)) + Collapse(y)
  {
    CollapseRunsSplit(x, n, y, 3);
  }

  /** The collapse removes only newlines. */
  lemma CollapseKeepsText(s: string)
    ensures Drop(Collapse(s), {'\n'}) == Drop(s, {'\n'})
  {
    CollapseRunsKeepsText(s, 3);
  }

  /** After the blank-line pass no line ends in white space, and the lines are those of the collapsed text. */
  lemma CleanEmptyLinesLines(text: string)
    ensures var outs := Split(CleanEmptyLines(text), '\n');
      && outs == MapAll(Split(Collapse(text), '\n'), RStrip)
      && forall k :: 0 <= k < |outs| ==> outs[k] == [] || !IsSpace(outs[k][|outs[k]| - 1])
  {
    var c := Collapse(text);
    RStripKeepsLines(c);
    LineMapLines(c, RStrip);
    var outs := Split(CleanEmptyLines(text), '\n');
    forall k | 0 <= k < |outs| ensures outs[k] == [] || !IsSpace(outs[k][|outs[k]| - 1]) {
      assert outs[k] == RStrip(Split(c, '\n')[k]);
    }
  }

  /** Stripping the end of a line leaves it one line. */
  lemma RStripKeepsLines(c: string)
    ensures KeepsLines(c, RStrip)
  {
    forall k | 0 <= k < |Split(c, '\n')| ensures '\n' !in RStrip(Split(c, '\n')[k]) {
      var l := Split(c, '\n')[k];
      RStripPrefix(l);
      SliceAvoids(l, 0, |RStrip(l)|, '\n');
    }
  }

  // ----- The pipeline ----------------------------------------------------

  /** `format`: the six passes in order, then `strip()`. */
  function KakaoText(markdown: string, tiny: string -> Option<string>): string {
    var t1 := RemoveHeaders(markdown);
    var t2 := ConvertLinks(t1, tiny);
    var t3 := RemoveMarkdownFormatting(t2);
    var t4 := CleanBulletPoints(t3);
    var t5 := ConvertDividers(t4);
    Strip(CleanEmptyLines(t5))
  }

  /** The divider pass adds no character but the divider's. */
  lemma DividersAvoid(text: string, c: char)
    requires c != '\n' && c != '\U{2500}' && c !in text
    ensures c !in ConvertDividers(text)
  {
    SplitAvoids(text, c);
    assert c !in Divider;
    LineMapAvoids(text, DividerLine, c);
  }

  /** The blank-line pass adds no character but newlines. */
  lemma CleanEmptyLinesAvoid(text: string, c: char)
    requires c != '\n' && c !in text
    ensures c !in CleanEmptyLines(text)
  {
    SubAvoids(text, CollapseMatcher(), 0, c);
    var s := Collapse(text);
    SplitAvoids(s, c);
    forall k | 0 <= k < |Split(s, '\n')| ensures c !in RStrip(Split(s, '\n')[k]) {
      var l := Split(s, '\n')[k];
      RStripPrefix(l);
      SliceAvoids(l, 0, |RStrip(l)|, c);
    }
    LineMapAvoids(s, RStrip, c);
  }

  lemma StripAvoids(s: string, c: char)
    requires c !in s
    ensures c !in Strip(s)
  {
    StripShape(s);
    var k :| TrimmedFrom(s, Strip(s), k);
    SliceAvoids(s, k, k + |Strip(s)|, c);
  }

  /** The formatted text holds no `•`. */
  lemma KakaoTextNoBullet(markdown: string, tiny: string -> Option<string>)
    ensures Bullet !in KakaoText(markdown, tiny)
  {
    var t3 := RemoveMarkdownFormatting(ConvertLinks(RemoveHeaders(markdown), tiny));
    CleanBulletPointsLines(t3);
    DividersAvoid(CleanBulletPoints(t3), Bullet);
    CleanEmptyLinesAvoid(ConvertDividers(CleanBulletPoints(t3)), Bullet);
    StripAvoids(CleanEmptyLines(ConvertDividers(CleanBulletPoints(t3))), Bullet);
  }

  /** The formatter, its line passes as loops. */
  method Format(markdown: string, tiny: string -> Option<string>) returns (r: string)
    ensures r == KakaoText(markdown, tiny)
  {
    var text := MapLines(markdown, HeaderLine);
    text := ConvertLinks(text, tiny);
    text := RemoveMarkdownFormatting(text);
    text := MapLines(ReplaceAll(text, [Bullet], [Dot]), BulletLine);
    text := MapLines(text, DividerLine);
    text := MapLines(Collapse(text), RStrip);
    r := Strip(text);
  }
}
