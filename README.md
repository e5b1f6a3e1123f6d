# news_bot text handling, in Dafny

news_bot turns AI and robotics newsletters into short Korean summaries. It posts
them to GitHub Discussions, Discord and KakaoTalk. Its language-model calls and
its webhook and GraphQL posts sit around a deterministic layer of text handling.
This project models that layer and proves what it promises:

- the link placeholder registry (`LinkPreserver`): it swaps every markdown-link
  target and every bare URL for `[LINK_nnnn]` and later restores them;
- the Discord chunker: greedy line packing under 1900 characters, forced cuts of
  over-long lines, page suffixes, and the tag on the first message;
- the KakaoTalk formatter and the Kakao bot's text preparation, with its
  1000-character ceiling;
- the markdown section utilities: header scan, section extraction,
  split-by-sections, validation, and insertion of the "오늘의 요약" (today's
  summary) section;
- the small deterministic steps of the Weekly Robotics and compact summarizers;
- the headline and title builders of the upload and publish scripts;
- the error notifier's Discord embed.

Python's regular expressions are written out as scanners for the patterns the
code uses. A left-to-right `re.sub` is `Rewrite.Sub` over a matcher. A
`re.search` is `Scan.Leftmost` over a pattern. `str.split`, `splitlines`,
`strip` and `join` are in `Text`. Strings are sequences of code points, as
Python's `len` counts them.

The current date, the error timestamp, the TinyURL answer and every
language-model output are parameters of the functions that use them.

Where the code changes state, the model does too:

- `LinkPreserver.Preserver` keeps `link_map` as a field;
- `WeeklyRobotics.WeeklyRoboticsSummarizer` keeps the last headline and thumbnail;
- the loops of the chunker, the header scan, the section split, the date scans
  and the line filters are methods with loop invariants. Each is proved equal to
  the function that states its result.

## Model

| member | source | states |
|---|---|---|
| LinkPreserver.PlaceholderInjective | src/utils/link_preserver.py:45-47 | distinct counters give distinct `LINK_nnnn` keys, so no key is reused |
| LinkPreserver.MdToks | src/utils/link_preserver.py:38-49 | the k-th markdown link (from 0) gets number k+1 and keeps its target |
| LinkPreserver.Converted | src/utils/link_preserver.py:38-49 | a converted markdown link keeps its anchor verbatim and has `[LINK_nnnn]` as its target |
| LinkPreserver.UrlAtFinds | src/utils/link_preserver.py:36 | `http://` or `https://` followed by a URL character always starts a bare-URL match |
| LinkPreserver.ShieldedCount | src/utils/link_preserver.py:71-77 | only the converted links with a four-digit number (at most 9999) are shielded from the bare-URL pass |
| LinkPreserver.UrlScanSource | src/utils/link_preserver.py:51-64 | the bare-URL pass loses no text: its template renders, with URLs, to the region it scanned |
| LinkPreserver.UrlScanToks | src/utils/link_preserver.py:60-62 | bare URLs are numbered after every markdown link, consecutively, in text order |
| LinkPreserver.AssembleSource | src/utils/link_preserver.py:67-84 | both passes together render, with URLs, to the input's regions and links in order |
| LinkPreserver.SecondPassIds | src/utils/link_preserver.py:45-47 | every number is used once: shielded links 1..p, bare URLs after all markdown links |
| LinkPreserver.SecondPassSource | src/utils/link_preserver.py:67-84 | with at most 9999 markdown links, putting the URLs back into the template gives the input |
| LinkPreserver.PreserveKeys | src/utils/link_preserver.py:29-30 | the map is rebuilt on each call: key `LINK_k` at position k, with the markdown targets first and in order |
| LinkPreserver.PreserveRestore | src/utils/link_preserver.py:20-142 | round trip: restoring the preserved text with its map, each URL put back literally, gives the input, when the input has no `LINK_` and at most 9999 markdown links |
| LinkPreserver.RestoreAbsent | src/utils/link_preserver.py:117-128 | entries whose key is absent change nothing (fail-open restore) |
| LinkPreserver.RestoreTemplate | src/utils/link_preserver.py:117-128 | restoring every token of a template, in any map order, gives back the text with URLs |
| LinkPreserver.FindUrlsMatch | src/utils/link_preserver.py:162 | soundness: every URL `findall` reports is a maximal bare-URL match in the text (that every match is reported is not stated) |
| LinkPreserver.MdTargets | src/utils/link_preserver.py:156-159 | the markdown targets kept are exactly those not starting with `[LINK_` |
| LinkPreserver.UnseenMembers | src/utils/link_preserver.py:162-165 | a bare URL is appended iff it is not already listed, and none is appended twice |
| LinkPreserver.ExtractedSet | src/utils/link_preserver.py:144-167 | the listed links, as a set, are the non-placeholder markdown targets plus the bare URLs |
| LinkPreserver.Compare | src/utils/link_preserver.py:179-193 | missing = original − processed, added = processed − original; the totals split into preserved plus missing/added; a rate of 100 without links |
| LinkPreserver.CompareFull | src/utils/link_preserver.py:192 | the success rate is 100% exactly when no link is missing |
| LinkPreserver.ValidateSame | src/utils/link_preserver.py:169-193 | validating a text against itself finds nothing missing or added, at 100% |
| LinkPreserver.Preserver.constructor | src/utils/link_preserver.py:15-17 | the map starts empty |
| LinkPreserver.Preserver.LinkPass | src/utils/link_preserver.py:29-49 | the markdown-link pass resets the map and records each link's target under its number |
| LinkPreserver.Preserver.UrlPass | src/utils/link_preserver.py:51-64 | the bare-URL loop over one region emits each URL's token and adds it to `link_map` |
| LinkPreserver.Preserver.PreserveLinks | src/utils/link_preserver.py:20-94 | the processed text and the returned copy of `link_map` are those of `Preserve`; the field equals the copy |
| LinkPreserver.Preserver.RegionPass | src/utils/link_preserver.py:70-83 | one region of the protected text: its bare URLs become tokens recorded in `link_map`, then the protected link after it is put back unchanged; the result is one step of `Assemble` |
| LinkPreserver.Preserver.RestoreLinks | src/utils/link_preserver.py:96-142 | with no map given, the stored one is used; each entry replaces its bracketed key if present, else its bare key |
| LinkPreserver.Preserver.RestoreEntry | src/utils/link_preserver.py:117-127 | one entry: the bracketed key is replaced by the URL when the text holds it, otherwise the bare key when the text holds that, otherwise nothing changes (`RestoreStep`) |
| LinkPreserver.Preserver.ExtractLinks | src/utils/link_preserver.py:144-167 | the loops return exactly `Extracted(content)` |
| LinkPreserver.Preserver.CollectTargets | src/utils/link_preserver.py:156-159 | the first loop returns exactly `MdTargets` of the markdown links, in order |
| LinkPreserver.Preserver.AppendUnseen | src/utils/link_preserver.py:162-165 | the second loop appends exactly `Unseen(urls, targets)` after the targets |
| Discord.FirstMaxAsWritten | src/publishers/discord.py:100-102 | the first-chunk budget as written: 1901 − len(tag) with a tag, 1900 without |
| Discord.FirstMax | src/publishers/discord.py:100-102 | the corrected first-chunk budget leaves room for the tag and its line break |
| Discord.Pieces | src/publishers/discord.py:114-124 | an over-long line is cut into non-empty pieces of at most 1900 characters whose concatenation is the line |
| Discord.ChunksWithin | src/publishers/discord.py:99-143 | for any first-chunk budget: at least one chunk, and content within the budget is the single chunk `[content]` |
| Discord.Chunks | src/publishers/discord.py:99-105 | with the corrected budget: at least one chunk; content within it is sent as the single chunk `[content]` |
| Discord.ChunksAsWritten | src/publishers/discord.py:99-105 | with the budget as written (1901 − len(tag)): at least one chunk; content within it is the single chunk `[content]` |
| Discord.StepKeeps | src/publishers/discord.py:126-137 | one packing step keeps every finished chunk and the current chunk within 1900 characters |
| Discord.ChunksWithinBounded | src/publishers/discord.py:17 | for any budget of at most 1900, every chunk has at most 1900 characters |
| Discord.ChunksBounded | src/publishers/discord.py:17 | with either budget, every chunk has at most 1900 characters |
| Discord.ChunksCover | src/publishers/discord.py:108-141 | for any budget the content exceeds, lines are neither lost, reordered nor altered: the lines behind the chunks, joined by `\n`, are the content |
| Discord.MessageShape | src/publishers/discord.py:53-64 | a message is the tag and `\n` (first message only), the chunk, and the `(i/n)` suffix exactly when there are several chunks and it fits |
| Discord.MessagesBounded | src/publishers/discord.py:55-58 | every message but a tagged first one has at most 1900 characters |
| Discord.TaggedMessageOverflows | src/publishers/discord.py:100-105 | with the budget as written, a tagged content that just fits (and exceeds the corrected budget) is the single chunk `[content]`, sent as one 1902-character message |
| Discord.TaggedMessageFits | src/publishers/discord.py:100-105 | with the corrected budget, a content sent as one tagged message stays within 1900 characters |
| Discord.AppendPieces | src/publishers/discord.py:120-124 | the inner loop appends exactly the pieces of the line |
| Discord.SplitMessage | src/publishers/discord.py:89-143 | for the first-chunk budget it is given, the packing loop returns exactly `ChunksWithin(content, budget)` |
| Discord.Publish | src/publishers/discord.py:42-64 | nothing is sent without a webhook; otherwise one message per chunk of `Chunks(content, tag)` (corrected budget), in order, each `Message(chunks, k, tag)` |
| KakaoFormatter.RemoveHeadersLines | src/formatters/kakao.py:63-79 | same line count; `### x` becomes `- x`, `## x` becomes `[x]`, `# x` becomes `x`, in that order; other lines are unchanged |
| KakaoFormatter.ShortenUrl | src/formatters/kakao.py:113-134 | URLs of at most 30 characters and failed requests give the URL back; otherwise the stripped answer |
| KakaoFormatter.ConvertLinksShape | src/formatters/kakao.py:87-101 | only the links change: `[t](u)` becomes `t (u)` for GitHub discussions and `t (short(u))` otherwise |
| KakaoFormatter.PassKeepsText | src/formatters/kakao.py:145-158 | each emphasis pass removes only marker characters |
| KakaoFormatter.RemoveFormattingKeepsText | src/formatters/kakao.py:144-160 | the six emphasis passes remove nothing but `*`, `_`, backticks and `~` |
| KakaoFormatter.BulletLineShape | src/formatters/kakao.py:176-181 | a `- `/`* ` line becomes indent-width spaces, `ㆍ`, and the rest; other lines are unchanged; the length is kept |
| KakaoFormatter.CleanBulletPointsLines | src/formatters/kakao.py:169-183 | same line count, each line rewritten by the bullet rule after `•` became `ㆍ`, and no `•` left |
| KakaoFormatter.DividerLineTwice | src/formatters/kakao.py:194-197 | the divider rule is idempotent on a line |
| KakaoFormatter.ConvertDividersLines | src/formatters/kakao.py:190-199 | same line count; exactly the lines that strip to `---` become `─────────` |
| KakaoFormatter.ConvertDividersTwice | src/formatters/kakao.py:190-199 | converting dividers twice equals converting once |
| KakaoFormatter.CollapseNoTriple | src/formatters/kakao.py:205 | after collapsing, no three newlines in a row remain, and collapsing again changes nothing |
| KakaoFormatter.CollapseRun | src/formatters/kakao.py:205 | a maximal run of n newlines becomes `\n\n` when n ≥ 3 and is kept as it is when shorter; the text on either side is collapsed on its own |
| KakaoFormatter.CollapseKeepsText | src/formatters/kakao.py:205 | collapsing removes only newlines |
| KakaoFormatter.CleanEmptyLinesLines | src/formatters/kakao.py:204-212 | the output lines are the collapsed text's lines right-stripped, so none ends in whitespace |
| KakaoFormatter.KakaoTextNoBullet | src/formatters/kakao.py:29-50 | the formatted text holds no `•` |
| KakaoFormatter.Format | src/formatters/kakao.py:20-54 | the pipeline with its line loops returns exactly `KakaoText` |
| MarkdownUtils.HeaderLevel | src/markdown_utils.py:13 | a header's level is between 1 and 6, and the `#` run leaves at least one character of the line after it |
| MarkdownUtils.HeadersIn | src/markdown_utils.py:87-94 | headers are found only on header lines, at strictly increasing indices |
| MarkdownUtils.HeadersSpec | src/markdown_utils.py:78-94 | each header line is found, with level 1..6 and a stripped title, at strictly increasing indices |
| MarkdownUtils.FindHeaders | src/markdown_utils.py:87-94 | the loop returns exactly `Headers(lines)` |
| MarkdownUtils.FirstMatch | src/markdown_utils.py:30-31 | the first header whose title satisfies the test, none before it |
| MarkdownUtils.NextBoundary | src/markdown_utils.py:34-38 | the first later header of the same or a shallower level; all in between are deeper |
| MarkdownUtils.SectionEnd | src/markdown_utils.py:33-38 | a section ends after its header line and no later than the end |
| MarkdownUtils.SectionEmptyIff | src/markdown_utils.py:26-44 | the extracted section is `""` exactly when no header title matches |
| MarkdownUtils.FindSectionEnd | src/markdown_utils.py:33-38 | the inner loop with `break` returns `SectionEnd` |
| MarkdownUtils.Extract | src/markdown_utils.py:57-75 | the nested loops return the section of the first matching header, stripped |
| MarkdownUtils.SectionsUpToKeys | src/markdown_utils.py:172-183 | a title is a key iff some header with that title has non-empty content |
| MarkdownUtils.SectionsUpToValues | src/markdown_utils.py:172-183 | each key's value is the content of the last header with that title and non-empty content |
| MarkdownUtils.SplitBySectionsSpec | src/markdown_utils.py:159-185 | the dictionary's keys and values, as the two lemmas above state them for all headers |
| MarkdownUtils.SplitSections | src/markdown_utils.py:168-185 | the loop that fills the dictionary returns exactly `SplitBySections` |
| MarkdownUtils.AddSection | src/markdown_utils.py:172-183 | one turn of the loop extends the dictionary of the first `idx` headers to that of the first `idx + 1`: a non-empty section is entered under its title, overwriting an earlier one |
| MarkdownUtils.SectionContent | src/markdown_utils.py:174-180 | the stripped lines strictly between a header and the next header |
| MarkdownUtils.ValidateMarkdownSpec | src/markdown_utils.py:138-156 | valid iff some line starts a header and the stripped text is over 100 characters |
| MarkdownUtils.HeaderLineFound | src/markdown_utils.py:151 | a `#` at a line start followed by something other than a line break is a header |
| MarkdownUtils.AddedSectionFound | src/markdown_utils.py:207-209 | the section that is appended is then found by `extract_today_summary` |
| MarkdownUtils.AddTodaySummaryTwice | src/markdown_utils.py:188-209 | adding the today-summary section twice equals adding it once |
| KakaoPublisher.BracketHeaderAt | src/publishers/kakao.py:142 | a header match starts at a line start, ends at a line end, and is replaced by `[title]` with a title of one line |
| KakaoPublisher.BracketHeaderLine | src/publishers/kakao.py:142 | `#`×h, white space and a title on one line become `[title]` |
| KakaoPublisher.CodeBlockAt | src/publishers/kakao.py:154 | a fenced block is replaced by its body after the first line, which holds no backtick |
| KakaoPublisher.QuoteAt | src/publishers/kakao.py:160 | `>` and its white space at a line start become `" ` |
| KakaoPublisher.BulletAt | src/publishers/kakao.py:163 | an indented `-`/`*` and its white space at a line start become `• ` |
| KakaoPublisher.LinksBecomeAnchors | src/publishers/kakao.py:145 | each markdown link becomes its anchor and the text between links is kept |
| KakaoPublisher.SimplifyShape | src/publishers/kakao.py:165-168 | the simplified text is stripped and holds no three newlines in a row |
| KakaoPublisher.BlankLinesRun | src/publishers/kakao.py:166 | a maximal run of n newlines becomes `\n\n` when n ≥ 2 (so a single one is kept); the text on either side is rewritten on its own |
| Rewrite.CollapseRunsSplit | src/publishers/kakao.py:166 | for any least run length, a maximal run of n newlines becomes `\n\n` when n ≥ least and is kept otherwise, and the rewrite of the whole is that of the parts around it |
| KakaoPublisher.PrepareTodaySummary | src/publishers/kakao.py:84-108 | `None` iff there is no today-summary section; else the simplified text, cut to 997 characters and `...` when over 1000 |
| KakaoPublisher.PrepareFullContent | src/publishers/kakao.py:110-126 | `None` iff the simplified text is over 1000 characters; else that text |
| KakaoPublisher.Publish | src/publishers/kakao.py:42-59 | nothing is posted without a webhook or a text; a full text within the limit is posted when asked for, otherwise the today-summary text |
| KakaoPublisher.SimpleMessage | src/publishers/kakao.py:179-184 | nothing is posted without a webhook; the message is cut to 997 characters and `...` when over 1000 |
| WeeklyRobotics.FirstIssueAt | src/summarizers/weekly_robotics.py:98 | the leftmost `weekly-robotics-<digit>` in the URL |
| WeeklyRobotics.IssueNumber | src/summarizers/weekly_robotics.py:98-99 | `Unknown` without a match; otherwise the whole digit run right after the leftmost `weekly-robotics-<digit>`, up to the first non-digit or the end |
| WeeklyRobotics.IssueNumberAt | src/summarizers/weekly_robotics.py:98-99 | when the first `weekly-robotics-<digit>` is at p and its digits run to e, the issue number is exactly `url[p+16..e]` |
| WeeklyRobotics.NoIssueBefore | src/summarizers/weekly_robotics.py:98 | when `weekly-robotics-` starts at p and nothing before p is a `-`, no match starts before p |
| WeeklyRobotics.IssueNumberOf | src/summarizers/weekly_robotics.py:98-99 | a URL `x` + `weekly-robotics-` + `d` + rest gives issue `d` |
| WeeklyRobotics.FirstPattern | src/summarizers/weekly_robotics.py:108-113 | `None` iff no pattern matches; otherwise the leftmost match of the first pattern, in list order, that matches anywhere |
| WeeklyRobotics.WeeklyDate | src/summarizers/weekly_robotics.py:102-117 | today's when none of the three patterns matches in the first 500 characters; otherwise the leftmost match there of the first pattern (D Month YYYY, YYYY-MM-DD, M/D/YYYY) that matches |
| WeeklyRobotics.ExtractDate | src/summarizers/weekly_robotics.py:108-117 | the loop with `break` returns exactly `WeeklyDate` |
| WeeklyRobotics.WeeklyDateHead | src/summarizers/weekly_robotics.py:110 | text after the first 500 characters never affects the date |
| WeeklyRobotics.DayMonthYearOf | src/summarizers/weekly_robotics.py:103 | `D Month YYYY` at the start matches the first pattern |
| WeeklyRobotics.WeeklyDateLeading | src/summarizers/weekly_robotics.py:103-112 | a leading `D Month YYYY` is the date |
| WeeklyRobotics.WeeklyDateNoDigits | src/summarizers/weekly_robotics.py:115-117 | without digits in the first 500 characters, the date is today's |
| WeeklyRobotics.FirstTagged | src/summarizers/weekly_robotics.py:234-236 | the first line starting with the tag |
| WeeklyRobotics.ExtractTagged | src/summarizers/weekly_robotics.py:234-240 | `None` iff no line starts with the tag |
| WeeklyRobotics.ExtractTaggedOf | src/summarizers/weekly_robotics.py:242-257 | a first tagged line `**tag v**` yields `v` |
| WeeklyRobotics.TaggedValueOf | src/summarizers/weekly_robotics.py:238 | removing the tag and every `**`, then stripping, recovers the value |
| WeeklyRobotics.Untagged | src/summarizers/weekly_robotics.py:165-169 | exactly the lines that carry neither tag are kept |
| WeeklyRobotics.UntaggedAppend | src/summarizers/weekly_robotics.py:167-169 | the filter works line by line, so it distributes over concatenation |
| WeeklyRobotics.UntaggedNone | src/summarizers/weekly_robotics.py:167-169 | a text without tagged lines is kept whole |
| WeeklyRobotics.FilterDropsTags | src/summarizers/weekly_robotics.py:164-170 | after filtering, neither a headline nor a thumbnail can be extracted |
| WeeklyRobotics.FilterTagLines | src/summarizers/weekly_robotics.py:165-170 | the filter loop returns exactly `FilteredText` |
| WeeklyRobotics.WithThumbnail | src/summarizers/weekly_robotics.py:173-174 | the body is kept at the end; it is unchanged iff there is no non-empty thumbnail |
| WeeklyRobotics.WithSource | src/summarizers/weekly_robotics.py:176-179 | the source marker is always present afterwards; it is appended only when absent |
| WeeklyRobotics.WithSourceTwice | src/summarizers/weekly_robotics.py:176-179 | appending the source line is idempotent |
| WeeklyRobotics.Summarized | src/summarizers/weekly_robotics.py:164-179 | the summary starts with the thumbnail and the filtered text, and names its source |
| WeeklyRobotics.ResultMetadata | src/summarizers/weekly_robotics.py:274-293 | the headline is non-empty, falling back to `Weekly Robotics #<issue>`; the date, issue, source, URL and thumbnail fields |
| WeeklyRobotics.WeeklyRoboticsSummarizer.constructor | src/summarizers/weekly_robotics.py:277-278 | no headline or thumbnail is stored before the first summary |
| WeeklyRobotics.WeeklyRoboticsSummarizer.Summarize | src/summarizers/weekly_robotics.py:164-186 | returns `Summarized(raw, url)` and stores the extracted headline and thumbnail |
| WeeklyRobotics.WeeklyRoboticsSummarizer.SummarizeWithResult | src/summarizers/weekly_robotics.py:259-294 | the summary, and metadata built from the stored headline and thumbnail |
| Compact.DottedDateAt | src/summarizers/compact.py:73 | a `YY.MM.DD` match spans eight characters |
| Compact.LongDateAt | src/summarizers/compact.py:74 | a `20YY-MM-DD` or `20YY/MM/DD` match spans ten characters |
| Compact.Dotted | src/summarizers/compact.py:81 | three two-digit groups render as a `YY.MM.DD` date |
| Compact.CompactDate | src/summarizers/compact.py:71-82 | a `YY.MM.DD` date or today's; today's when neither pattern matches anywhere |
| Compact.ScanDate | src/summarizers/compact.py:77-82 | the loop with `break` returns exactly `CompactDate` |
| Compact.CompactDateLong | src/summarizers/compact.py:74-82 | when no `YY.MM.DD` match exists anywhere, the leftmost `20YY-MM-DD`/`20YY/MM/DD` match at i gives its three groups joined by dots |
| Compact.CompactDateDottedFirst | src/summarizers/compact.py:73-82 | the leftmost `YY.MM.DD` match, at i, is the date `content[i..i+8]`, whatever long-form dates there are |
| Compact.IsRoboticsIff | src/summarizers/compact.py:88 | robotics mode holds iff the content names `Weekly Robotics` |
| Compact.Tail100 | src/summarizers/compact.py:205 | the last (at most) 100 characters |
| Compact.AppendGithubUrl | src/summarizers/compact.py:202-207 | a text without a URL, or already holding it, is unchanged |
| Compact.AddGithubUrl | src/summarizers/compact.py:202-207 | the successive `+=` steps give `AppendGithubUrl`, which holds the URL |
| Compact.AppendGithubUrlAbsent | src/summarizers/compact.py:202-207 | an absent URL is appended after the right-stripped text, with the divider only when needed |
| Compact.AppendGithubUrlContains | src/summarizers/compact.py:202-207 | the URL is always present afterwards, at the end unless it was already there |
| Compact.AppendGithubUrlTwice | src/summarizers/compact.py:202-207 | appending the URL twice equals appending it once |
| Compact.WithDividerHasDivider | src/summarizers/compact.py:205-206 | after the divider step, the last 100 characters hold `---` |
| Compact.TemplateSummary | src/summarizers/compact.py:227-243 | the template ends with the URL, or with `[GitHub Discussion]` without one |
| Compact.FallbackSummary | src/summarizers/compact.py:245-247 | the fallback ends with the URL |
| Compact.SummarizeWithMetadata | src/summarizers/compact.py:175-225 | the style is echoed; `char_count` is the length, or 0 on failure; template without a client; a non-empty URL is always in the markdown |
| Titles.BodyStart | upload_markdown.py:53 | the section body starts after a line break that follows the heading |
| Titles.BodyEnd | upload_markdown.py:53 | the body ends at the first `\n##` or at the end of the text |
| Titles.Item | upload_markdown.py:57-59 | the first item's text is non-empty and on one line |
| Titles.Clip | upload_markdown.py:63-64 | unchanged up to 15 characters; over 15, exactly the first 15 followed by `...` (18 characters) |
| Titles.HeadlineFromMarkdown | upload_markdown.py:50-66 | at most 18 characters, and `""` without a today-summary section |
| Titles.SubAnchorsNonEmpty | upload_markdown.py:61 | replacing links by their anchors never empties a non-empty text |
| Titles.ItemHeadlineNonEmpty | upload_markdown.py:57-65 | an item found gives a non-empty headline |
| Titles.HeadlineEmptyIff | upload_markdown.py:53-66 | the headline is `""` exactly when there is no section or its body has no `-`/`*` item |
| Titles.HeadlineOfBullet | upload_markdown.py:53-65 | a section with one bullet `x` gives `x`, with links reduced to their anchors and clipped, as the headline |
| Titles.Basename | upload_markdown.py:70 | the base name has no `/` and ends the path |
| Titles.BasenameInDir | publish_existing.py:59 | a directory in front does not change the base name |
| Titles.ShortDate | upload_markdown.py:75-78 | eight digits give the date `YY.MM.DD` |
| Titles.FileDate | upload_markdown.py:70-89 | the date is today's or a `YY.MM.DD` date |
| Titles.FileDateSmol | upload_markdown.py:72-78 | the leftmost `smol_ai_news_YYYYMMDD` match in the base name gives its YY, MM and DD joined by dots |
| Titles.FileDateDigits | upload_markdown.py:80-86 | with no smol match, the leftmost eight-digit date in the base name gives its YY, MM and DD joined by dots |
| Titles.FileDateToday | upload_markdown.py:87-89 | with no eight-digit date in the base name, the date is today's |
| Titles.TitleParts | upload_markdown.py:91-94 | a title reads back as `[AI News, `, the date, `] ` and the headline |
| Titles.TitleFromFilename | upload_markdown.py:68-94 | `[AI News, date] headline`, with `AI 뉴스 요약` for an empty headline |
| Titles.TitleFromFileAgrees | publish_existing.py:57-78 | every title has the shape `[AI News, d] AI 뉴스 요약`, with d as the upload script computes it |
| Titles.TitleIgnoresDirectory | publish_existing.py:59 | directory components never affect either title |
| Titles.SmolTitle | publish_existing.py:62-67 | `smol_ai_news_YYYYMMDD…` gives `[AI News, YY.MM.DD] AI 뉴스 요약` |
| Titles.NoSmolMatch | publish_existing.py:62 | a name without `smol_ai_news_` has no smol match |
| Titles.DigitsTitle | publish_existing.py:70-75 | otherwise a leading run of eight digits gives the same title form |
| Notifier.Render | src/notifier.py:84 | `str()` of a string is itself; of an integer, its decimal digits with an optional minus |
| Notifier.Get | src/notifier.py:80 | `dict.get` with a default |
| Notifier.LevelColor | src/notifier.py:74-81 | CRITICAL is dark red, WARNING orange, and any other level red |
| Notifier.ClipTraceback | src/notifier.py:109-111 | at most 1000 characters; over 1000 it keeps the first 997 and ends with `...` |
| Notifier.ErrorEmbed | src/notifier.py:64-119 | fails only on a non-string traceback; three base fields, and a fourth iff a traceback is present |
| Notifier.ErrorEmbedHeader | src/notifier.py:80-86 | the title is `🚨 level: message`; the colour comes from the level (ERROR by default); the timestamp defaults to now |
| Notifier.TracebackFieldFits | src/notifier.py:107-117 | the traceback field is not inline, wrapped in a python code fence, and at most 1014 characters |
| Notifier.FormatErrorEmbed | src/notifier.py:64-119 | building the fields, then appending the traceback, gives `ErrorEmbed` |
| Notifier.SendError | src/notifier.py:40-62 | nothing is sent without a webhook or when formatting fails; otherwise the one embed from the reporter |

## Findings

| source | as written | input that shows it | evidently intended | confidence | as-written member | corrected member |
|---|---|---|---|---|---|---|
| src/publishers/discord.py:102 | `first_chunk_max -= len(tag) - 1`; the comment says the line break is included | tag `"T"` and 1900 characters of content: within the budget, so sent as one message `"T\n" + content` of 1902 characters | `len(tag) + 1`, leaving room for the tag and its line break | not executed | Discord.TaggedMessageOverflows | Discord.TaggedMessageFits |

`Discord.FirstMaxAsWritten` is the budget as written, and
`Discord.ChunksAsWritten` is `_split_message` with it; `Discord.TaggedMessageOverflows`
exhibits the overflow on that member. `Discord.FirstMax` is the corrected
budget. `Discord.ChunksWithin` and `Discord.SplitMessage` take the budget as a
parameter, so the packing itself is the code as written for either budget.
`Discord.Chunks` and `Discord.Publish` use the corrected budget, and
`Discord.TaggedMessageFits` proves the intended bound for it.

## Left out

- Network posts are not modelled: the Discord, Kakao and notifier webhooks, and the TinyURL request.
  - Each is a "send" result or a parameter.
  - A failed post, which makes the Python return `False`, is not modelled.
- Language-model calls and prompt text are left out. Every model answer is an arbitrary input string: `raw` for Weekly Robotics, `Reply` for the compact summarizer. `_extract_markdown` (response parsing) is left out.
- `datetime.now()` is a parameter (`today`, `now`), given already formatted.
- Logging, configuration defaults for webhook URLs, and file reading and saving are left out.
- `Compact.CompactDate`: the date and the robotics flag only shape the prompt, so nothing downstream of them is modelled. `max_length` is unused in the code.
- `Compact.CompactDate`: the check `len(match.groups()) == 3` is always true for both patterns and is not modelled.
- `Discord.MessagesBounded`: states no bound for the tagged first message. Even with the corrected budget, the suffix check at src/publishers/discord.py:57 ignores the tag.
- `Discord.Chunks`: uses the corrected first-chunk budget (see Findings); `Discord.ChunksAsWritten` is the split with the budget as written. Everything else in `_split_message` is as written, including the empty chunk emitted when a line does not fit an empty first chunk.
- `Discord.Publish`: sends the chunks of the corrected budget. The Python differs when a tagged content's length lies between the two budgets: with tag `"T"` and a 1899-character line it sends `[content]`, where the model sends `["", content]`.
- `Discord.SplitMessage`: takes the first-chunk budget as a parameter; `Discord.Publish` passes the corrected one, where the Python computes 1901 − len(tag).
- `LinkPreserver.Preserver.RestoreLinks`: requires every key to be a plain `LINK_nnnn` and no URL to hold a backslash. `re.sub` treats its pattern and replacement as regular expression and template; for such maps they act literally.
- `LinkPreserver.PreserveRestore`: proved for inputs without `LINK_` text and with at most 9999 markdown links, with each URL put back literally.
  - The Python's `re.sub` reads each URL as a replacement template, so its round trip matches this only when no URL holds a backslash (the condition `RestoreLinks` requires).
  - A pre-existing token would be restored too.
  - A five-digit number escapes the shielding pattern `\d{4}`.
- The `<<<PROTECTED_i>>>` markers are not modelled as text. The bare-URL pass scans the regions between shielded links directly. The two differ only for an input that already contains such marker text.
- The unresolved-placeholder warnings in `restore_links` are logging only. `success_rate` is the pair `Rate` (preserved, total), not a float.
- `\d` is the ASCII digits. Python also accepts other Unicode digits.
- `WeeklyRobotics.DayMonthYearAt`: `\w` is ASCII letters, digits, `_` and Hangul syllables, not every Unicode word character.
- `MarkdownUtils.TitleMatches`: `lower()` folds ASCII letters only.
- `KakaoFormatter.Format`: the `except` branch that returns the input unchanged is not modelled, since no pass can raise once the shortener is a parameter.
- `KakaoFormatter.KakaoText`: no idempotence is claimed. `rstrip` after the blank-line collapse can create new runs of blank lines.
- `Notifier.ErrorEmbed`: dictionary values are strings or integers only. A traceback that is not a string makes Python's `len` raise, and is modelled as `None` (nothing sent).
- `Titles.HeadlineOfBullet`: states the headline only for a section holding a single bullet line. `Titles.HeadlineEmptyIff` covers the general empty case.
- The date extraction `extract_issue_info` performs inside `summarize` (line 178) is unused there, and only the issue number is modelled at that point.
