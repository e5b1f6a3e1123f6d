/**
 * The deterministic steps of the compact summarizer around its one model
 * call: the date and the kind of newsletter read from the full summary (they
 * only shape the prompt), the GitHub link appended to the model's answer when
 * the answer lacks it, the template used without a client, the fallback used
 * when the call fails, and the result record. The model's answer is an input.
 */
module Compact {
  import opened Wrappers
  import opened Text
  import opened Scan

  // ----- Date --------------------------------------------------------------

  /** `(\d{2})\.(\d{2})\.(\d{2})` tried at `i`. */
  function DottedDateAt(s: string, i: nat): (r: Option<nat>)
    ensures r.Some? ==> r.value == i + 8 <= |s|
  {
    if i + 8 <= |s| && DigitsAt(s, i, 2) && s[i + 2] == '.' && DigitsAt(s, i + 3, 2) && s[i + 5] == '.' && DigitsAt(s, i + 6, 2)
    then Some(i + 8) else None
  }

  predicate IsDateSep(c: char) {
    c == '/' || c == '-'
  }

  /** `20(\d{2})[/-](\d{2})[/-](\d{2})` tried at `i`. */
  function LongDateAt(s: string, i: nat): (r: Option<nat>)
    ensures r.Some? ==> r.value == i + 10 <= |s|
  {
    if i + 10 <= |s| && s[i] == '2' && s[i + 1] == '0' && DigitsAt(s, i + 2, 2) && IsDateSep(s[i + 4])
      && DigitsAt(s, i + 5, 2) && IsDateSep(s[i + 7]) && DigitsAt(s, i + 8, 2)
    then Some(i + 10) else None
  }

  /** `YY.MM.DD`. */
  predicate IsShortDate(d: string) {
    |d| == 8 && DigitsAt(d, 0, 2) && d[2] == '.' && DigitsAt(d, 3, 2) && d[5] == '.' && DigitsAt(d, 6, 2)
  }

  /** `f"{g1}.{g2}.{g3}"` from three two-digit groups. */
  function Dotted(g1: string, g2: string, g3: string): (r: string)
    requires |g1| == 2 && |g2| == 2 && |g3| == 2 && AllDigits(g1) && AllDigits(g2) && AllDigits(g3)
    ensures IsShortDate(r)
  {
    var r := g1 + "." + g2 + "." + g3;
    assert r[0] == g1[0] && r[1] == g1[1] && r[3] == g2[0] && r[4] == g2[1] && r[6] == g3[0] && r[7] == g3[1];
    r
  }

  /**
   * The date for the prompt: the first `YY.MM.DD` anywhere in the content;
   * only if there is none, the first `20YY-MM-DD` or `20YY/MM/DD`, shortened;
   * otherwise `today` (the current date as `%y.%m.%d`).
   */
  function CompactDate(content: string, today: string): (r: string)
    ensures r == today || IsShortDate(r)
    ensures Leftmost(content, DottedDateAt).Some? ==> Contains(content, r)
    ensures Leftmost(content, DottedDateAt).None? && Leftmost(content, LongDateAt).None? ==> r == today
  {
    match Leftmost(content, DottedDateAt)
    case Some(i) =>
      var r := Dotted(content[i..i + 2], content[i + 3..i + 5], content[i + 6..i + 8]);
      assert r == content[i..i + 8] by {
        assert content[i..i + 8] == content[i..i + 2] + [content[i + 2]] + content[i + 3..i + 5] + [content[i + 5]] + content[i + 6..i + 8];
      }
      assert StartsWith(content[i..], r) by {
        assert content[i..][..8] == content[i..i + 8];
      }
      ContainsAt(content, r, i);
      r
    case None =>
      match Leftmost(content, LongDateAt)
      case Some(i) => Dotted(content[i + 2..i + 4], content[i + 5..i + 7], content[i + 8..i + 10])
      case None => today
  }

  /**
   * The loop over the two date patterns: the first that matches anywhere
   * gives the date from its three groups, and the loop stops there.
   */
  method ScanDate(content: string, today: string) returns (date: string)
    ensures date == CompactDate(content, today)
  {
    date := today;
    var patterns: seq<Pattern> := [DottedDateAt, LongDateAt];
    var firstGroup: seq<nat> := [0, 2];
    for k := 0 to 2
      invariant date == today
      invariant k >= 1 ==> Leftmost(content, DottedDateAt).None?
      invariant k == 2 ==> Leftmost(content, LongDateAt).None?
    {
      var m := Leftmost(content, patterns[k]);
      if m.Some? {
        var i, g := m.value, firstGroup[k];
        ScanDateHit(content, today, k, i);
        date := Dotted(content[i + g..i + g + 2], content[i + g + 3..i + g + 5], content[i + g + 6..i + g + 8]);
        break;
      }
    }
  }

  /** The first pattern of the loop that matches, at its leftmost match `i`, gives the date's three groups. */
  lemma ScanDateHit(content: string, today: string, k: nat, i: nat)
    requires k < 2 && Leftmost(content, [DottedDateAt, LongDateAt][k]) == Some(i)
    requires k == 1 ==> Leftmost(content, DottedDateAt).None?
    ensures var g := [0, 2][k];
      && i + g + 8 <= |content|
      && AllDigits(content[i + g..i + g + 2]) && AllDigits(content[i + g + 3..i + g + 5]) && AllDigits(content[i + g + 6..i + g + 8])
      && Dotted(content[i + g..i + g + 2], content[i + g + 3..i + g + 5], content[i + g + 6..i + g + 8]) == CompactDate(content, today)
  {
    if k == 0 {
      assert MatchesAt(content, DottedDateAt, i);
    } else {
      assert MatchesAt(content, LongDateAt, i);
    }
  }

  /**
   * A content with no `YY.MM.DD` date anywhere is dated by its first
   * `20YY-MM-DD` (or `20YY/MM/DD`) date, shortened to `YY.MM.DD`.
   */
  lemma CompactDateLong(content: string, i: nat, today: string)
    requires forall k :: 0 <= k < |content| ==> DottedDateAt(content, k).None?
    requires LongDateAt(content, i).Some? && forall k :: 0 <= k < i ==> LongDateAt(content, k).None?
    ensures CompactDate(content, today) == content[i + 2..i + 4] + "." + content[i + 5..i + 7] + "." + content[i + 8..i + 10]
  {
    forall k | 0 <= k < |content| ensures !MatchesAt(content, DottedDateAt, k) {
      assert DottedDateAt(content, k).None?;
    }
    assert MatchesAt(content, LongDateAt, i);
    forall k | 0 <= k < i ensures !MatchesAt(content, LongDateAt, k) {
      assert LongDateAt(content, k).None?;
    }
    var r := Leftmost(content, LongDateAt);
    assert r == Some(i);
  }

  /**
   * The first `YY.MM.DD` date is the date as written, wherever any
   * `20YY-MM-DD` date stands.
   */
  lemma CompactDateDottedFirst(content: string, i: nat, today: string)
    requires DottedDateAt(content, i).Some? && forall k :: 0 <= k < i ==> DottedDateAt(content, k).None?
    ensures CompactDate(content, today) == content[i..i + 8]
  {
    assert MatchesAt(content, DottedDateAt, i);
    forall k | 0 <= k < i ensures !MatchesAt(content, DottedDateAt, k) {
      assert DottedDateAt(content, k).None?;
    }
    var r := Leftmost(content, DottedDateAt);
    assert r == Some(i);
    var d := Dotted(content[i..i + 2], content[i + 3..i + 5], content[i + 6..i + 8]);
    assert d == content[i..i + 8] by {
      assert content[i..i + 8] == content[i..i + 2] + [content[i + 2]] + content[i + 3..i + 5] + [content[i + 5]] + content[i + 6..i + 8];
    }
  }

  // ----- Kind of newsletter -------------------------------------------------

  const RoboticsName := "Weekly Robotics"
  const RoboticsSource := "출처: [" + RoboticsName

  /** `'Weekly Robotics' in content or '출처: [Weekly Robotics' in content`. */
  predicate IsRobotics(content: string) {
    Contains(content, RoboticsName) || Contains(content, RoboticsSource)
  }

  /** The second test adds nothing: the content is about robotics exactly when it names Weekly Robotics. */
  lemma IsRoboticsIff(content: string)
    ensures IsRobotics(content) <==> Contains(content, RoboticsName)
  {
    if Contains(content, RoboticsSource) {
      assert Contains(RoboticsSource, RoboticsName) by {
        assert RoboticsSource[|"출처: ["|..] == RoboticsName;
        ContainsAt(RoboticsSource, RoboticsName, |"출처: ["|);
      }
      ContainsTrans(content, RoboticsSource, RoboticsName);
    }
  }

  // ----- The GitHub link -----------------------------------------------------

  const NewsletterLine := "\n📖 상세 뉴스레터: "
  const Divider := "\n\n---"

  /** Python's `s[-100:]`. */
  function Tail100(s: string): (r: string)
    ensures |r| <= 100 && EndsWith(s, r)
  {
    if |s| <= 100 then s else s[|s| - 100..]
  }

  /** The answer right-stripped, with a divider added unless one stands in its last 100 characters. */
  function WithDivider(summary: string): string {
    var t := RStrip(summary);
    if !Contains(Tail100(t), "---") then t + Divider else t
  }

  /**
   * The link step: with a non-empty link the answer lacks, the answer is
   * right-stripped, a divider is added unless one stands in its last 100
   * characters, and the newsletter line with the link is appended. (The
   * answer's strip cannot end with a link the answer lacks, so the inner
   * test always passes.)
   */
  function AppendGithubUrl(summary: string, githubUrl: string): (r: string)
    ensures githubUrl == "" || Contains(summary, githubUrl) ==> r == summary
  {
    if githubUrl != "" && !Contains(summary, githubUrl) then
      if !EndsWith(Strip(summary), githubUrl) then WithDivider(summary) + NewsletterLine + githubUrl
      else summary
    else summary
  }

  /** The link step as the summarizer runs it, extending the answer piece by piece. */
  method AddGithubUrl(summary: string, githubUrl: string) returns (s: string)
    ensures s == AppendGithubUrl(summary, githubUrl)
    ensures githubUrl != "" ==> Contains(s, githubUrl)
  {
    s := summary;
    if githubUrl != "" && !Contains(s, githubUrl) {
      if !EndsWith(Strip(s), githubUrl) {
        s := RStrip(s);
        if !Contains(Tail100(s), "---") {
          s := s + Divider;
        }
        s := s + NewsletterLine + githubUrl;
      }
    }
    if githubUrl != "" {
      AppendGithubUrlContains(summary, githubUrl);
    }
  }

  /** What the strip of `s` ends with, `s` contains. */
  lemma StripEndsContains(s: string, sub: string)
    requires EndsWith(Strip(s), sub)
    ensures Contains(s, sub)
  {
    var r := Strip(s);
    StripShape(s);
    var k :| TrimmedFrom(s, r, k);
    var j := k + |r| - |sub|;
    assert s[j..][..|sub|] == r[|r| - |sub|..];
    ContainsAt(s, sub, j);
  }

  /** With the link absent, the result is the answer with divider, newsletter line and link. */
  lemma AppendGithubUrlAbsent(summary: string, githubUrl: string)
    requires githubUrl != "" && !Contains(summary, githubUrl)
    ensures AppendGithubUrl(summary, githubUrl) == WithDivider(summary) + NewsletterLine + githubUrl
  {
    if EndsWith(Strip(summary), githubUrl) {
      StripEndsContains(summary, githubUrl);
    }
  }

  /** A non-empty link is always in the result: kept if present, appended otherwise. */
  lemma AppendGithubUrlContains(summary: string, githubUrl: string)
    requires githubUrl != ""
    ensures Contains(AppendGithubUrl(summary, githubUrl), githubUrl)
    ensures EndsWith(AppendGithubUrl(summary, githubUrl), githubUrl) || AppendGithubUrl(summary, githubUrl) == summary
  {
    if !Contains(summary, githubUrl) {
      AppendGithubUrlAbsent(summary, githubUrl);
      var pre := WithDivider(summary) + NewsletterLine;
      assert pre + githubUrl == AppendGithubUrl(summary, githubUrl);
      assert (pre + githubUrl)[|pre|..] == githubUrl;
      ContainsAt(githubUrl, githubUrl, 0);
      ContainsRight(pre, githubUrl, githubUrl);
    }
  }

  /** Applying the link step twice is applying it once. */
  lemma AppendGithubUrlTwice(summary: string, githubUrl: string)
    ensures AppendGithubUrl(AppendGithubUrl(summary, githubUrl), githubUrl) == AppendGithubUrl(summary, githubUrl)
  {
    if githubUrl != "" {
      AppendGithubUrlContains(summary, githubUrl);
    }
  }

  /** After the step a divider stands in the last 100 characters before the newsletter line. */
  lemma WithDividerHasDivider(summary: string)
    ensures Contains(Tail100(WithDivider(summary)), "---")
  {
    var t := RStrip(summary);
    if !Contains(Tail100(t), "---") {
      var w := t + Divider;
      var tail := Tail100(w);
      assert w[|w| - 3..] == "---";
      assert tail[|tail| - 3..] == "---";
      assert StartsWith(tail[|tail| - 3..], "---");
      ContainsAt(tail, "---", |tail| - 3);
    }
  }

  // ----- Template and fallback ---------------------------------------------

  const TemplateText := "# 🤖 AI News Summary\n\n## 📌 핵심 뉴스\n• [주요 뉴스 1]\n• [주요 뉴스 2]\n• [주요 뉴스 3]\n\n## 🔍 주요 트렌드\n• [트렌드 분석]\n\n---\n📖 전체 요약: "

  /** The placeholder summary used without a client; it ends with the link, or a placeholder for it. */
  function TemplateSummary(githubUrl: string): (r: string)
    ensures githubUrl != "" ==> EndsWith(r, githubUrl) && Contains(r, githubUrl)
    ensures githubUrl == "" ==> EndsWith(r, "[GitHub Discussion]")
  {
    var tail := if githubUrl != "" then githubUrl else "[GitHub Discussion]";
    var r := TemplateText + tail;
    assert r[|TemplateText|..] == tail;
    assert StartsWith(r[|TemplateText|..], tail);
    ContainsAt(r, tail, |TemplateText|);
    r
  }

  const FallbackText := "AI 뉴스 요약이 생성되었습니다.\n\n📖 자세히 보기: "

  /** The summary returned when the model call fails; it ends with the link. */
  function FallbackSummary(githubUrl: string): (r: string)
    ensures EndsWith(r, githubUrl) && Contains(r, githubUrl)
  {
    var r := FallbackText + githubUrl;
    assert r[|FallbackText|..] == githubUrl;
    assert StartsWith(r[|FallbackText|..], githubUrl);
    ContainsAt(r, githubUrl, |FallbackText|);
    r
  }

  // ----- The result ----------------------------------------------------------

  /** What became of the model call: no client, an answer, or an exception. */
  datatype Reply = NoClient | Answer(text: string) | Raised

  datatype CompactResult = CompactResult(markdown: string, charCount: nat, style: string)

  /**
   * `summarize_with_metadata` after the prompt is built: the summary, its
   * length (0 on failure) and the style echoed back. A non-empty link always
   * ends up in the summary.
   */
  function SummarizeWithMetadata(githubUrl: string, style: string, reply: Reply): (r: CompactResult)
    ensures r.style == style
    ensures reply.Raised? ==> r.charCount == 0 && r.markdown == FallbackSummary(githubUrl)
    ensures !reply.Raised? ==> r.charCount == |r.markdown|
    ensures reply.NoClient? ==> r.markdown == TemplateSummary(githubUrl)
    ensures reply.Answer? ==> r.markdown == AppendGithubUrl(reply.text, githubUrl)
    ensures githubUrl != "" ==> Contains(r.markdown, githubUrl)
  {
    match reply
    case NoClient =>
      var m := TemplateSummary(githubUrl);
      CompactResult(m, |m|, style)
    case Answer(text) =>
      var m := AppendGithubUrl(text, githubUrl);
      assert githubUrl != "" ==> Contains(m, githubUrl) by {
        if githubUrl != "" {
          AppendGithubUrlContains(text, githubUrl);
        }
      }
      CompactResult(m, |m|, style)
    case Raised =>
      CompactResult(FallbackSummary(githubUrl), 0, style)
  }
}
