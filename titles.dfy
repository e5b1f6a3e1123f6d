/**
 * The helpers of the two publishing scripts that name a post: the headline
 * read from the `## 오늘의 요약` section of a summary, and the title built
 * from a summary file's name (`[AI News, YY.MM.DD] ...`). Today's date is a
 * parameter, already written as `%y.%m.%d`.
 */
module Titles {
  import opened Wrappers
  import opened Text
  import opened Scan
  import Rewrite
  import Compact

  // ----- The headline --------------------------------------------------------

  const SummaryHeading := "## 오늘의 요약"

  predicate IsNewline(c: char) {
    c == '\n'
  }

  /**
   * `## 오늘의 요약\s*\n` at `p`: where the section body starts. `\s*` takes
   * the white space after the heading and gives back down to its last `'\n'`;
   * without one the pattern fails here.
   */
  function BodyStart(s: string, p: nat): (r: Option<nat>)
    ensures r.Some? ==> p + |SummaryHeading| < r.value <= |s| && s[r.value - 1] == '\n'
  {
    var h := p + |SummaryHeading|;
    if h <= |s| && s[p..h] == SummaryHeading then
      match Last(s, h, Until(s, h, NotSpace), IsNewline)
      case Some(q) => Some(q + 1)
      case None => None
    else None
  }

  /** `(.*?)(?:\n##|\Z)` from `g`: the body ends at the first `"\n##"` (a deeper heading included) or at the end. */
  function BodyEnd(s: string, g: nat): (e: nat)
    requires g <= |s|
    ensures g <= e <= |s|
    ensures e < |s| ==> StartsWith(s[e..], "\n##") && s[e] == '\n'
    ensures forall k :: g <= k < e ==> !StartsWith(s[k..], "\n##")
    decreases |s| - g
  {
    if g == |s| then g
    else if StartsWith(s[g..], "\n##") then
      assert s[g] == s[g..][0];
      g
    else BodyEnd(s, g + 1)
  }

  /** The whole section pattern at `p`, as a `Pattern`: where its match ends. */
  function SectionAt(s: string, p: nat): (r: Option<nat>)
    ensures r.Some? ==> p < r.value <= |s| && BodyStart(s, p).Some?
  {
    match BodyStart(s, p)
    case Some(g) =>
      var e := BodyEnd(s, g);
      Some(if e < |s| then e + 3 else e)
    case None => None
  }

  /** `group(1)` of the section match at `p`. */
  function Body(s: string, p: nat): string
    requires BodyStart(s, p).Some?
  {
    var g := BodyStart(s, p).value;
    s[g..BodyEnd(s, g)]
  }

  /**
   * Where `(.+?)` of `[-*]\s*(.+?)(?:\n|$)` starts when tried at `q`: after
   * the white space following the marker when something follows it, and
   * otherwise at the last character other than `'\n'` that `\s*` can give back.
   */
  function ItemStart(t: string, q: nat): (r: Option<nat>)
    ensures r.Some? ==> q < r.value < |t| && t[r.value] != '\n' && (t[q] == '-' || t[q] == '*')
  {
    if q < |t| && (t[q] == '-' || t[q] == '*') then
      var w := Until(t, q + 1, NotSpace);
      if w < |t| then Some(w) else Last(t, q + 1, |t|, NotNewline)
    else None
  }

  /** The item pattern at `q`, as a `Pattern`: the group runs to the end of its line, and the match takes the `'\n'`. */
  function ItemAt(t: string, q: nat): (r: Option<nat>)
    ensures r.Some? ==> q < r.value <= |t|
  {
    match ItemStart(t, q)
    case Some(g) =>
      var e := UntilChar(t, g, '\n');
      Some(if e < |t| then e + 1 else e)
    case None => None
  }

  /** `group(1)` of the item match at `q`: never empty, and never more than one line. */
  function Item(t: string, q: nat): (r: string)
    requires ItemStart(t, q).Some?
    ensures |r| > 0 && '\n' !in r
  {
    var g := ItemStart(t, q).value;
    t[g..UntilChar(t, g, '\n')]
  }

  /** `headline[:15] + "..."` when the headline is longer than 15 characters. */
  function Clip(h: string): (r: string)
    ensures |r| <= 18
    ensures |h| <= 15 ==> r == h
    ensures |h| > 15 ==> |r| == 18 && r[..15] == h[..15] && r[15..] == "..."
  {
    if |h| > 15 then h[..15] + "..." else h
  }

  /** The headline once the item is found: stripped, links reduced to their text, clipped. */
  function ItemHeadline(item: string): string {
    Clip(Rewrite.Sub(Strip(item), Rewrite.AnchorMatcher(), 0))
  }

  /**
   * `extract_headline_from_markdown`: the first item of the leftmost summary
   * section, or `""` when there is no section or no item in it.
   */
  function HeadlineFromMarkdown(content: string): (r: string)
    ensures |r| <= 18
    ensures Leftmost(content, SectionAt).None? ==> r == ""
  {
    match Leftmost(content, SectionAt)
    case None => ""
    case Some(p) =>
      var t := Strip(Body(content, p));
      match Leftmost(t, ItemAt)
      case None => ""
      case Some(q) => ItemHeadline(Item(t, q))
  }

  /** A non-empty text keeps some text when its links are reduced to their anchors. */
  lemma SubAnchorsNonEmpty(s: string)
    requires |s| > 0
    ensures |Rewrite.Sub(s, Rewrite.AnchorMatcher(), 0)| > 0
  {
    var l := Rewrite.LinkAt(s, 0);
    if l.Some? {
      assert Rewrite.AnchorMatcher()(s, 0) == Some(Rewrite.Hit(l.value.end, l.value.anchor));
    }
  }

  /** In a text that does not end in white space, the item starts at a character other than white space. */
  lemma ItemStartNotSpace(t: string, q: nat)
    requires |t| == 0 || !IsSpace(t[|t| - 1])
    requires ItemStart(t, q).Some?
    ensures !IsSpace(t[ItemStart(t, q).value])
  {
    var w := Until(t, q + 1, NotSpace);
    assert w < |t| || q + 1 >= |t|;
  }

  /** In such a text, a found item always yields a headline. */
  lemma ItemHeadlineNonEmpty(t: string, q: nat)
    requires |t| == 0 || !IsSpace(t[|t| - 1])
    requires ItemStart(t, q).Some?
    ensures ItemHeadline(Item(t, q)) != ""
  {
    ItemStartNotSpace(t, q);
    var item := Item(t, q);
    assert item[0] == t[ItemStart(t, q).value];
    StripNonEmpty(item, 0);
    SubAnchorsNonEmpty(Strip(item));
  }

  /** The headline is `""` exactly when there is no summary section or no item in its body. */
  lemma HeadlineEmptyIff(content: string)
    ensures HeadlineFromMarkdown(content) == "" <==>
      Leftmost(content, SectionAt).None? || Leftmost(Strip(Body(content, Leftmost(content, SectionAt).value)), ItemAt).None?
  {
    match Leftmost(content, SectionAt)
    case None =>
    case Some(p) =>
      var t := Strip(Body(content, p));
      match Leftmost(t, ItemAt)
      case None =>
      case Some(q) =>
        StripShape(Body(content, p));
        ItemHeadlineNonEmpty(t, q);
  }

  /**
   * A summary that opens with the section and a single bullet gets that
   * bullet's text (links reduced to their anchors, clipped) as its headline.
   */
  lemma HeadlineOfBullet(x: string)
    requires |x| > 0 && !IsSpace(x[0]) && !IsSpace(x[|x| - 1]) && '\n' !in x
    ensures HeadlineFromMarkdown(SummaryHeading + "\n- " + x) == ItemHeadline(x)
  {
    var s := SummaryHeading + "\n- " + x;
    var t := "- " + x;
    BulletSection(x);
    StripTrimmed(t);
    BulletItem(x);
  }

  /** The section opened by the heading is found at the start, and its body is the bullet line. */
  lemma BulletSection(x: string)
    requires '\n' !in x
    ensures var s := SummaryHeading + "\n- " + x;
      Leftmost(s, SectionAt) == Some(0) && BodyStart(s, 0).Some? && Body(s, 0) == "- " + x
  {
    var s := SummaryHeading + "\n- " + x;
    var h := |SummaryHeading|;
    assert s[..h] == SummaryHeading;
    assert s[h] == '\n' && s[h + 1] == '-';
    assert Until(s, h, NotSpace) == h + 1 by {
      UntilUnique(s, h, NotSpace, h + 1);
    }
    assert BodyStart(s, 0) == Some(h + 1);
    assert BodyEnd(s, h + 1) == |s| by {
      forall k | h + 1 <= k < |s| ensures s[k] != '\n' {
        if k >= h + 3 {
          assert s[k] == x[k - h - 3];
        }
      }
    }
    LeftmostAtStart(s, SectionAt);
    assert s[h + 1..] == "- " + x;
  }

  /** The bullet line holds one item: the text after the marker. */
  lemma BulletItem(x: string)
    requires |x| > 0 && !IsSpace(x[0]) && '\n' !in x
    ensures var t := "- " + x;
      Leftmost(t, ItemAt) == Some(0) && ItemStart(t, 0).Some? && Item(t, 0) == x
  {
    var t := "- " + x;
    assert Until(t, 1, NotSpace) == 2 by {
      UntilUnique(t, 1, NotSpace, 2);
    }
    assert ItemStart(t, 0) == Some(2);
    assert UntilChar(t, 2, '\n') == |t| by {
      forall k | 2 <= k < |t| ensures t[k] != '\n' {
        assert t[k] == x[k - 2];
      }
    }
    LeftmostAtStart(t, ItemAt);
    assert t[2..] == x;
  }

  // ----- Titles from file names -------------------------------------------

  predicate IsSlash(c: char) {
    c == '/'
  }

  /** `os.path.basename`: what follows the last `/`. */
  function Basename(path: string): (r: string)
    ensures '/' !in r && EndsWith(path, r)
  {
    match Last(path, 0, |path|, IsSlash)
    case Some(k) =>
      var r := path[k + 1..];
      assert forall j :: 0 <= j < |r| ==> r[j] == path[k + 1 + j];
      r
    case None => path
  }

  /** A name without `/` is its own base name. */
  lemma BasenamePlain(name: string)
    requires '/' !in name
    ensures Basename(name) == name
  {
    assert forall k :: 0 <= k < |name| ==> !IsSlash(name[k]);
  }

  /** The last index whose character satisfies `p` is the one after which none does. */
  lemma LastIs(s: string, lo: nat, hi: nat, p: char -> bool, k: nat)
    requires lo <= k < hi <= |s| && p(s[k])
    requires forall j :: k < j < hi ==> !p(s[j])
    ensures Last(s, lo, hi, p) == Some(k)
  {
  }

  /** Directories never matter: the base name of `dir/name` is that of `name`. */
  lemma BasenameInDir(dir: string, name: string)
    ensures Basename(dir + "/" + name) == Basename(name)
  {
    var path := dir + "/" + name;
    var o := |dir| + 1;
    assert path[o..] == name;
    match Last(name, 0, |name|, IsSlash)
    case Some(k) =>
      LastInTail(path, o, IsSlash, k);
      assert Basename(path) == path[o + k + 1..];
      assert Basename(name) == name[k + 1..];
      assert path[o..][k + 1..] == path[o + k + 1..];
    case None =>
      LastBeforeTail(path, o, IsSlash);
      assert Basename(path) == path[o..];
  }

  /** The last match in a tail `s[o..]` is the last match in `s`, shifted by `o`. */
  lemma LastInTail(s: string, o: nat, p: char -> bool, k: nat)
    requires o <= |s| && Last(s[o..], 0, |s| - o, p) == Some(k)
    ensures Last(s, 0, |s|, p) == Some(o + k)
  {
    var t := s[o..];
    assert p(t[k]) && t[k] == s[o + k];
    forall j | o + k < j < |s| ensures !p(s[j]) {
      assert t[j - o] == s[j];
    }
    LastIs(s, 0, |s|, p, o + k);
  }

  /** With no match in the tail `s[o..]`, the last match in `s` is the one just before it. */
  lemma LastBeforeTail(s: string, o: nat, p: char -> bool)
    requires 0 < o <= |s| && p(s[o - 1]) && Last(s[o..], 0, |s| - o, p).None?
    ensures Last(s, 0, |s|, p) == Some(o - 1)
  {
    var t := s[o..];
    forall j | o - 1 < j < |s| ensures !p(s[j]) {
      assert t[j - o] == s[j];
    }
    LastIs(s, 0, |s|, p, o - 1);
  }

  const SmolPrefix := "smol_ai_news_"

  /** `smol_ai_news_(\d{4})(\d{2})(\d{2})` tried at `i`. */
  function SmolNewsAt(s: string, i: nat): (r: Option<nat>)
    ensures r.Some? ==> r.value == i + 21 <= |s| && DigitsAt(s, i + 13, 8)
  {
    if i + 21 <= |s| && s[i..i + 13] == SmolPrefix && DigitsAt(s, i + 13, 8) then Some(i + 21) else None
  }

  /** `(\d{4})(\d{2})(\d{2})` tried at `i`. */
  function EightDigitsAt(s: string, i: nat): (r: Option<nat>)
    ensures r.Some? ==> r.value == i + 8 && DigitsAt(s, i, 8)
  {
    if DigitsAt(s, i, 8) then Some(i + 8) else None
  }

  /** `f"{year[-2:]}.{month}.{day}"` from the eight digits at `j`. */
  function ShortDate(s: string, j: nat): (r: string)
    requires DigitsAt(s, j, 8)
    ensures Compact.IsShortDate(r)
  {
    assert forall k :: j + 2 <= k < j + 8 ==> IsDigit(s[k]);
    Compact.Dotted(s[j + 2..j + 4], s[j + 4..j + 6], s[j + 6..j + 8])
  }

  /** The date of `generate_title_from_filename`: the `smol_ai_news_` form first, then any eight digits, then today. */
  function FileDate(filename: string, today: string): (r: string)
    ensures r == today || Compact.IsShortDate(r)
  {
    BaseDate(Basename(filename), today)
  }

  /** The search cascade on the base name `b`. */
  function BaseDate(b: string, today: string): (r: string)
    ensures r == today || Compact.IsShortDate(r)
  {
    match Leftmost(b, SmolNewsAt)
    case Some(i) => ShortDate(b, i + 13)
    case None =>
      match Leftmost(b, EightDigitsAt)
      case Some(i) => ShortDate(b, i)
      case None => today
  }

  /**
   * The first `smol_ai_news_YYYYMMDD` in the base name `b` dates the file as
   * `YY.MM.DD`, whatever other digits the name holds.
   */
  lemma FileDateSmol(filename: string, b: string, i: nat, today: string)
    requires b == Basename(filename)
    requires SmolNewsAt(b, i).Some? && forall k :: 0 <= k < i ==> SmolNewsAt(b, k).None?
    ensures FileDate(filename, today) == b[i + 15..i + 17] + "." + b[i + 17..i + 19] + "." + b[i + 19..i + 21]
  {
    assert MatchesAt(b, SmolNewsAt, i);
    forall k | 0 <= k < i ensures !MatchesAt(b, SmolNewsAt, k) {
      assert SmolNewsAt(b, k).None?;
    }
    var m := Leftmost(b, SmolNewsAt);
    assert m == Some(i);
  }

  /**
   * Without a `smol_ai_news_` match, the first eight digits in a row in the
   * base name date the file as `YY.MM.DD`.
   */
  lemma FileDateDigits(filename: string, b: string, i: nat, today: string)
    requires b == Basename(filename)
    requires forall k :: 0 <= k < |b| ==> SmolNewsAt(b, k).None?
    requires EightDigitsAt(b, i).Some? && forall k :: 0 <= k < i ==> EightDigitsAt(b, k).None?
    ensures FileDate(filename, today) == b[i + 2..i + 4] + "." + b[i + 4..i + 6] + "." + b[i + 6..i + 8]
  {
    forall k | 0 <= k < |b| ensures !MatchesAt(b, SmolNewsAt, k) {
      assert SmolNewsAt(b, k).None?;
    }
    assert MatchesAt(b, EightDigitsAt, i);
    forall k | 0 <= k < i ensures !MatchesAt(b, EightDigitsAt, k) {
      assert EightDigitsAt(b, k).None?;
    }
    var m := Leftmost(b, EightDigitsAt);
    assert m == Some(i);
  }

  /** A base name without eight digits in a row leaves today's date. */
  lemma FileDateToday(filename: string, b: string, today: string)
    requires b == Basename(filename)
    requires forall k :: 0 <= k < |b| ==> EightDigitsAt(b, k).None?
    ensures FileDate(filename, today) == today
  {
    forall k | 0 <= k < |b| ensures !MatchesAt(b, SmolNewsAt, k) && !MatchesAt(b, EightDigitsAt, k) {
      assert EightDigitsAt(b, k).None?;
      if k + 13 < |b| {
        assert EightDigitsAt(b, k + 13).None?;
      }
    }
  }

  const TitleOpen := "[AI News, "
  const DefaultHeadline := "AI 뉴스 요약"

  /** `f"[AI News, {date}] {headline}"`. */
  function Title(date: string, headline: string): string {
    TitleOpen + date + "] " + headline
  }

  /** Date and headline can be read back from a title. */
  lemma TitleParts(date: string, headline: string)
    ensures var r := Title(date, headline); var d := |TitleOpen|;
      && StartsWith(r, TitleOpen)
      && r[d..d + |date|] == date
      && r[d + |date|..d + |date| + 2] == "] "
      && r[d + |date| + 2..] == headline
  {
  }

  /** `generate_title_from_filename`: the date in brackets, then the headline or the default one. */
  function TitleFromFilename(filename: string, headline: string, today: string): (r: string)
    ensures headline != "" ==> r == Title(FileDate(filename, today), headline)
    ensures headline == "" ==> r == Title(FileDate(filename, today), DefaultHeadline)
  {
    var date := FileDate(filename, today);
    if headline != "" then Title(date, headline) else Title(date, DefaultHeadline)
  }

  /** `generate_title_from_file`: the same search cascade, each branch returning its own title. */
  function TitleFromFile(filepath: string, today: string): (r: string) {
    BaseTitle(Basename(filepath), today)
  }

  /** The cascade of `generate_title_from_file` on the base name `b`. */
  function BaseTitle(b: string, today: string): (r: string) {
    match Leftmost(b, SmolNewsAt)
    case Some(i) =>
      var year := b[i + 13..i + 17][2..];
      Title(year + "." + b[i + 17..i + 19] + "." + b[i + 19..i + 21], DefaultHeadline)
    case None =>
      match Leftmost(b, EightDigitsAt)
      case Some(i) =>
        var year := b[i..i + 4][2..];
        Title(year + "." + b[i + 4..i + 6] + "." + b[i + 6..i + 8], DefaultHeadline)
      case None =>
        Title(today, DefaultHeadline)
  }

  /**
   * The two scripts name a file alike: `generate_title_from_file` is
   * `generate_title_from_filename` without a headline, so its date is today's
   * or a `YY.MM.DD` one read from the base name.
   */
  lemma TitleFromFileAgrees(filepath: string, today: string)
    ensures TitleFromFile(filepath, today) == TitleFromFilename(filepath, "", today)
    ensures var d := FileDate(filepath, today);
      TitleFromFile(filepath, today) == Title(d, DefaultHeadline) && (d == today || Compact.IsShortDate(d))
  {
    var b := Basename(filepath);
    match Leftmost(b, SmolNewsAt)
    case Some(i) =>
      assert b[i + 13..i + 17][2..] == b[i + 15..i + 17];
    case None =>
      match Leftmost(b, EightDigitsAt)
      case Some(i) =>
        assert b[i..i + 4][2..] == b[i + 2..i + 4];
      case None =>
  }

  /** Only the base name decides the title. */
  lemma TitleIgnoresDirectory(dir: string, name: string, headline: string, today: string)
    ensures TitleFromFile(dir + "/" + name, today) == TitleFromFile(name, today)
    ensures TitleFromFilename(dir + "/" + name, headline, today) == TitleFromFilename(name, headline, today)
  {
    BasenameInDir(dir, name);
  }

  /** A base name opening with `smol_ai_news_` and eight digits is dated from those digits. */
  lemma SmolBaseTitle(b: string, today: string)
    requires 21 <= |b| && b[..13] == SmolPrefix && DigitsAt(b, 13, 8)
    ensures BaseTitle(b, today) == Title(b[15..17] + "." + b[17..19] + "." + b[19..21], DefaultHeadline)
  {
    assert b[0..13] == b[..13];
    LeftmostAtStart(b, SmolNewsAt);
    assert b[13..17][2..] == b[15..17];
  }

  lemma SmolNameNoSlash(digits: string, rest: string)
    requires AllDigits(digits) && '/' !in rest
    ensures '/' !in SmolPrefix + digits + rest
  {
    assert forall j :: 0 <= j < |SmolPrefix| ==> SmolPrefix[j] != '/';
    assert forall j :: 0 <= j < |digits| ==> digits[j] != '/';
  }

  /**
   * A `smol_ai_news_YYYYMMDD` file is titled with the last two digits of its
   * year, its month and its day (in any directory, by `TitleIgnoresDirectory`).
   */
  lemma SmolTitle(digits: string, rest: string, today: string)
    requires |digits| == 8 && AllDigits(digits) && '/' !in rest
    ensures TitleFromFile(SmolPrefix + digits + rest, today)
      == Title(digits[2..4] + "." + digits[4..6] + "." + digits[6..8], DefaultHeadline)
  {
    var name := SmolPrefix + digits + rest;
    assert Basename(name) == name by {
      SmolNameNoSlash(digits, rest);
      BasenamePlain(name);
    }
    assert 21 <= |name| && name[..13] == SmolPrefix && DigitsAt(name, 13, 8) by {
      assert name[..13] == SmolPrefix;
      assert forall j :: 13 <= j < 21 ==> name[j] == digits[j - 13];
    }
    SmolBaseTitle(name, today);
    assert name[15..17] == digits[2..4] && name[17..19] == digits[4..6] && name[19..21] == digits[6..8];
  }

  /** Eight digits followed by a text without `smol_ai_news_` hold no match of the `smol_ai_news_` form. */
  lemma NoSmolMatch(digits: string, rest: string)
    requires |digits| == 8 && AllDigits(digits) && !Contains(rest, SmolPrefix)
    ensures Leftmost(digits + rest, SmolNewsAt).None?
  {
    var b := digits + rest;
    forall i | 0 <= i < |b| ensures SmolNewsAt(b, i).None? {
      NoSmolAt(digits, rest, i);
    }
  }

  /** No position of such a text starts a match. */
  lemma NoSmolAt(digits: string, rest: string, i: nat)
    requires |digits| == 8 && AllDigits(digits) && !Contains(rest, SmolPrefix)
    ensures SmolNewsAt(digits + rest, i).None?
  {
    var b := digits + rest;
    if i + 21 <= |b| {
      if i < 8 {
        assert b[i..i + 13][0] == digits[i];
        assert IsDigit(digits[i]);
      } else {
        NotContainsAt(rest, SmolPrefix, i - 8);
        assert b[i..i + 13] == rest[i - 8..][..13];
      }
    }
  }

  /** Otherwise a file whose name opens with eight digits is dated from them. */
  lemma DigitsTitle(digits: string, rest: string, today: string)
    requires |digits| == 8 && AllDigits(digits) && '/' !in rest && !Contains(rest, SmolPrefix)
    ensures TitleFromFile(digits + rest, today)
      == Title(digits[2..4] + "." + digits[4..6] + "." + digits[6..8], DefaultHeadline)
  {
    var b := digits + rest;
    DigitsThenPlain(digits, rest);
    BasenamePlain(b);
    NoSmolMatch(digits, rest);
    LeftmostAtStart(b, EightDigitsAt);
    assert BaseTitle(b, today) == Title(b[0..4][2..] + "." + b[4..6] + "." + b[6..8], DefaultHeadline);
    assert b[0..4][2..] == digits[2..4] && b[4..6] == digits[4..6] && b[6..8] == digits[6..8];
  }

  /** Eight digits and then a text without `/`: no `/` at all, and eight digits at the start. */
  lemma DigitsThenPlain(digits: string, rest: string)
    requires |digits| == 8 && AllDigits(digits) && '/' !in rest
    ensures '/' !in digits + rest && DigitsAt(digits + rest, 0, 8)
  {
    var b := digits + rest;
    forall j | 0 <= j < |b| ensures b[j] != '/' {
      if j < 8 {
        assert b[j] == digits[j] && IsDigit(digits[j]);
      } else {
        assert b[j] == rest[j - 8];
      }
    }
    assert forall j :: 0 <= j < 8 ==> b[j] == digits[j];
  }
}
