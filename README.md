# Markdown heading extraction and reading time

This project models the two text utilities of a static blog site,
`src/utils/content.ts`, and proves properties of the model in Dafny.

- `getHeadings(content)` scans markdown with the global, multiline pattern
  `^(#{1,6})\s+(.+)$`. For every match it builds `{depth, slug, text}`:
  `depth` is the length of the `#` run, `text` is the trimmed second group,
  and `slug` is `text` lower-cased, with everything outside `[\w\s-]`
  dropped, each run of `[\s_-]` collapsed to one `-`, and leading and
  trailing `-` removed.
- `calculateReadingTime(content, wordsPerMinute = 200)` applies seven
  rewriting passes in a fixed order: fenced code, inline code, links to
  their label, images, `#`, emphasis markers, quote markers. It then counts
  `trim().split(/\s+/).length` words and returns
  `"<ceil(words / wordsPerMinute)> min read"`.

Files:

- `text.dfy` (module `Text`): JavaScript's `\s`, `\w` and line terminators,
  `Filter`, runs of a character class, `String.prototype.trim`.
- `slug.dfy` (modules `Slugs`, `SlugProperties`): the four slug passes and
  the shape, idempotence and join properties of slugs.
- `headings.dfy` (module `Headings`): the pattern as a declarative predicate
  (`MatchesAt`), the backtracking engine's attempt at one position
  (`MatchAt`), one `exec` from `lastIndex` (`NextMatch`), the matches the
  loop sees (`MatchesFrom`), and the loop itself as the method `GetHeadings`.
- `reading_time.dfy` (module `ReadingTime`): each pass as a left-to-right
  scanner, the word count, ceiling division, decimal formatting and
  `CalculateReadingTime`.
- `heading_examples.dfy`, `reading_time_examples.dfy`: worked inputs proved
  against the model.

## Model

| member | source | states |
|---|---|---|
| Slugs.ToLowerCase | src/utils/content.ts:16 | same length; ASCII upper-case letters map to lower-case (code point + 32), every other character is kept |
| Slugs.DropNonSlugChars | src/utils/content.ts:17 | only `\w`, `\s` and `-` remain, and a character remains exactly when it occurs in the input and is in that class |
| Slugs.CollapseSeparators | src/utils/content.ts:18 | no `[\s_-]` character other than `-` remains, no `--`, every other character comes from the input, and the output starts with `-` exactly when the input starts with a separator |
| Slugs.CollapseKeepsNonSeparators | src/utils/content.ts:18 | collapsing keeps every non-separator character, in order |
| Slugs.TrimHyphens | src/utils/content.ts:19 | the result is the input with only `-` cut from both ends, and neither end is `-` |
| Slugs.Slug | src/utils/content.ts:15-19 | every slug is `[a-z0-9-]*`, never starts or ends with `-` and never contains `--` |
| SlugProperties.SlugKeepsLettersAndDigits | src/utils/content.ts:15-19 | the lower-case letters and digits of the lower-cased text reach the slug in order, and nothing else but `-` does |
| SlugProperties.SlugUnchanged | src/utils/content.ts:15-19 | a string of slug shape is its own slug |
| SlugProperties.SlugIdempotent | src/utils/content.ts:15-19 | deriving the slug of a slug gives the same slug |
| SlugProperties.SlugIgnoresCase | src/utils/content.ts:16 | lower-casing the text first does not change its slug |
| SlugProperties.SlugJoin | src/utils/content.ts:18 | two slugs joined by any run of spaces, `_` or `-` give the slug `a-b`, with a single `-` |
| SlugProperties.CollapseAppend | src/utils/content.ts:18 | collapsing distributes over a split after a non-separator |
| Text.Trim | src/utils/content.ts:14 | the result is a slice of the input with only whitespace before and after it, and neither end is whitespace |
| Text.FilterOfStrip | src/utils/content.ts:14 | trimming does not change the non-whitespace characters |
| Headings.MatchAt | src/utils/content.ts:8 | an attempt at a position returns a match starting there with 1 to 6 `#`, at least one whitespace character and a non-empty second group |
| Headings.MatchAtSound | src/utils/content.ts:8 | what the attempt returns is a match of the pattern |
| Headings.MatchAtIsGreedy | src/utils/content.ts:8 | the attempt fails exactly when the pattern cannot match at that position, and otherwise returns the match with the latest start of group 2 |
| Headings.HashRunIsGroupOne | src/utils/content.ts:8-13 | in any match, group 1 is the whole `#` run at the line start |
| Headings.NoMatchWithoutShortHashRun | src/utils/content.ts:8 | a run of 7 or more `#`, or a `#` run not followed by whitespace, never matches |
| Headings.MatchAtHeadingLine | src/utils/content.ts:8 | a line of 1 to 6 `#`, whitespace and text is matched with exactly those groups |
| Headings.NextMatch | src/utils/content.ts:12 | `exec` from `lastIndex` returns the first position at or after it where the pattern matches, or nothing when there is none |
| Headings.NextMatchSkips | src/utils/content.ts:12 | when nothing matches before position `q` and something matches at `q`, `exec` returns the match at `q` |
| Headings.MatchesFrom | src/utils/content.ts:12 | the matches the loop sees are well formed, start at or after `lastIndex` and do not overlap, in source order |
| Headings.MatchesFromSound | src/utils/content.ts:12 | each match the loop sees is the engine's match at its start |
| Headings.MatchesFromComplete | src/utils/content.ts:12 | every position where the pattern matches lies inside some match the loop sees |
| Headings.ToHeading | src/utils/content.ts:13-25 | depth is 1 to 6, the text has no whitespace at either end, and the slug has slug shape and is the slug of the text |
| Headings.HeadingsOfAt | src/utils/content.ts:21-25 | the i-th heading is built from the i-th match |
| Headings.HeadingsOf | src/utils/content.ts:21-25 | one heading is pushed per match |
| Headings.HeadingsOfFields | src/utils/content.ts:13-25 | every heading built from a well-formed match has depth 1 to 6, text with no whitespace at either end, and the slug of that text, of slug shape |
| Headings.Headings | src/utils/content.ts:6-29 | every heading `getHeadings` returns has depth 1 to 6, text with no whitespace at either end, and the slug of that text, of slug shape |
| Headings.HeadingsSpec | src/utils/content.ts:6-29 | one heading per match, in source order; each heading's depth is its match's `#` run and its text the trimmed group 2; matches do not overlap; every match of the pattern is covered |
| Headings.NoHeadingsIff | src/utils/content.ts:6-29 | the result is empty exactly when no position of the input matches the pattern |
| Headings.NoHashNoHeadings | src/utils/content.ts:8 | content without `#` has no headings |
| Headings.GetHeadings | src/utils/content.ts:9-28 | the `while` loop over `exec` returns exactly the headings of all matches, in order |
| HeadingExamples.ExampleDocument | src/utils/content.ts:6-29 | `"# Title\n\nSome text\n## Sub Heading\n"` gives `{1, "title", "Title"}` and `{2, "sub-heading", "Sub Heading"}` |
| HeadingExamples.ExampleHashtag | src/utils/content.ts:8 | `"#hashtag"` gives no heading |
| HeadingExamples.ExampleSevenHashes | src/utils/content.ts:8 | `"####### x"` gives no heading |
| HeadingExamples.ExampleNextLine | src/utils/content.ts:8 | `"#\nfoo"` gives depth 1 with text `"foo"`, since `\s+` crosses the newline |
| HeadingExamples.ExampleBlank | src/utils/content.ts:8-14 | `"#  "` gives depth 1 with empty text and empty slug |
| HeadingExamples.NoMatchOffLineStart | src/utils/content.ts:8 | in a single line, no match starts after the first character |
| ReadingTime.FindFence | src/utils/content.ts:40 | the first fence at or after a position, and no fence before it |
| ReadingTime.FenceEnd | src/utils/content.ts:40 | the non-greedy block ends at the first closing fence after the opening one |
| ReadingTime.StripFencedCodeFrom | src/utils/content.ts:40 | from any position, the pass never gives more than the rest of the input |
| ReadingTime.StripFencedCode | src/utils/content.ts:40 | the result is never longer than the input, and text without a backtick is unchanged |
| ReadingTime.FencedCodeKeepsPlain | src/utils/content.ts:40 | text without backticks passes the fenced-code pass unchanged |
| ReadingTime.FencedBlockRemoved | src/utils/content.ts:40 | a fenced block between backtick-free text is removed with its fences; its body may hold backticks as long as no fence starts inside it |
| ReadingTime.InlineCodeEnd | src/utils/content.ts:41 | a match is a backtick, text without backticks and a closing backtick; when a backtick starts no match, no backtick follows it |
| ReadingTime.StripInlineCodeFrom | src/utils/content.ts:41 | text without backticks is unchanged, and the result is never longer |
| ReadingTime.InlineCodeLeavesOneBacktick | src/utils/content.ts:41 | at most one backtick survives the inline-code pass |
| ReadingTime.StripInlineCode | src/utils/content.ts:41 | at most one backtick survives, and text without backticks is unchanged |
| ReadingTime.InlineCodeKeepsPlain | src/utils/content.ts:41 | a backtick-free stretch is copied by the inline-code pass |
| ReadingTime.InlineCodeInContext | src/utils/content.ts:41 | a code span with no backtick before or after it is deleted with its backticks, leaving the text on either side |
| ReadingTime.InlineCodeRemoved | src/utils/content.ts:41 | ``pre + "`" + code + "`" + post``, all three free of backticks, becomes `pre + post` |
| ReadingTime.LinkAt | src/utils/content.ts:42 | a link found is `[`, a label without `]`, `](`, a target without `)`, and `)`; nothing is found exactly when no such link starts at the position |
| ReadingTime.LinkAtIs | src/utils/content.ts:42 | a link has one reading: any link starting at a position is the one found there |
| ReadingTime.ReplaceLinksFrom | src/utils/content.ts:42 | from any position, the pass never gives more than the rest of the input |
| ReadingTime.ReplaceLinks | src/utils/content.ts:42 | the result is never longer than the input, and text without `[` is unchanged |
| ReadingTime.LinksKeepPlain | src/utils/content.ts:42 | text without `[` passes the link pass unchanged |
| ReadingTime.LinkBecomesText | src/utils/content.ts:42 | a link between link-free text is replaced by its label |
| ReadingTime.ImageEnd | src/utils/content.ts:43 | what is found is a `!` followed by a link that ends at the result; nothing is found exactly when no `!` followed by a link starts at the position |
| ReadingTime.RemoveImagesFrom | src/utils/content.ts:43 | text without `!` is unchanged, and the result is never longer |
| ReadingTime.RemoveImages | src/utils/content.ts:43 | the result is never longer than the input, and text without `!` is unchanged |
| ReadingTime.ImageInContext | src/utils/content.ts:43 | an image with no `!` before or after it is cut out whole, leaving the text on either side |
| ReadingTime.ImageRemoved | src/utils/content.ts:43 | `pre + "![alt](src)" + post`, with no `!` in `pre` or `post`, becomes `pre + post` |
| ReadingTime.RemoveHashes | src/utils/content.ts:44 | no `#` survives |
| ReadingTime.StripEmphasis | src/utils/content.ts:45 | the result is the input with exactly its `*` and `_` characters removed |
| ReadingTime.StripEmphasisIsFilter | src/utils/content.ts:45 | removing `**`, `*`, `__` and `_` left to right removes exactly the `*` and `_` characters |
| ReadingTime.StripQuoteMarkersFrom | src/utils/content.ts:46 | no `>` survives |
| ReadingTime.StripQuoteMarkers | src/utils/content.ts:46 | no `>` survives, and the characters that are neither `>` nor whitespace are kept, in order |
| ReadingTime.StripQuoteMarkersKeeps | src/utils/content.ts:46 | the quote pass keeps every character that is neither `>` nor whitespace, in order |
| ReadingTime.QuoteKeepsPlain | src/utils/content.ts:46 | a `>`-free stretch is copied by the quote pass, whitespace included |
| ReadingTime.QuoteMarkerInContext | src/utils/content.ts:46 | the only `>` of the text is deleted with the one whitespace character after it, if any; every other character is kept |
| ReadingTime.QuoteMarkerRemoved | src/utils/content.ts:46 | `pre + ">" + post`, with no `>` in `pre` or `post`, becomes `pre` followed by `post` without its first character when that is whitespace |
| ReadingTime.QuoteFreeUnchanged | src/utils/content.ts:46 | text without `>` is unchanged |
| ReadingTime.QuotePassAddsNothing | src/utils/content.ts:46 | the quote pass adds no character that was absent |
| ReadingTime.CleanText | src/utils/content.ts:39-46 | the cleaned text contains no `#`, `*`, `_` or `>` |
| ReadingTime.NoMarkersSurvive | src/utils/content.ts:44-46 | after the last three passes none of `#*_>` remains |
| ReadingTime.PlainTextUnchanged | src/utils/content.ts:39-46 | text free of markdown markers is unchanged by cleaning |
| ReadingTime.FencedCodeDoesNotCount | src/utils/content.ts:40 | a fenced block, between backtick-free text and with no fence starting inside it, contributes nothing to the cleaned text |
| ReadingTime.LinkCountsAsText | src/utils/content.ts:42 | a link cleans to the same text as its label alone |
| ReadingTime.ImageKeepsBangAndAlt | src/utils/content.ts:42-43 | because the link pass runs first, an image cleans to `!` followed by its alternative text |
| ReadingTime.LinkPassUnwrapsImage | src/utils/content.ts:40-42 | the first three passes turn a linked image `[![alt](src)](url)` into the image `![alt](url)` |
| ReadingTime.LinkedImageDisappears | src/utils/content.ts:39-46 | a linked image `[![alt](src)](url)` cleans to nothing: the link pass leaves `![alt](url)` and the image pass removes it |
| ReadingTime.Split | src/utils/content.ts:49 | splitting on `\s+` gives at least one piece and no piece holds whitespace |
| ReadingTime.WordCount | src/utils/content.ts:49 | the word count is at least 1 |
| ReadingTime.SplitCountsWords | src/utils/content.ts:49 | on trimmed non-empty text, the number of pieces is the number of maximal non-whitespace runs |
| ReadingTime.CountWordsOfTrim | src/utils/content.ts:49 | trimming does not change the number of words |
| ReadingTime.WordCountIsWords | src/utils/content.ts:49 | the count is the number of words, or 1 when there are none |
| ReadingTime.CeilDiv | src/utils/content.ts:50 | the result is the least `r` with `a <= r * b`, and positive for positive `a` |
| ReadingTime.NatToString | src/utils/content.ts:52 | decimal digits only, at least one, no leading zero |
| ReadingTime.NatToStringRoundTrip | src/utils/content.ts:52 | reading the decimal string back gives the number |
| ReadingTime.CalculateReadingTime | src/utils/content.ts:37-53 | the result is the decimal form of `ceil(words / wordsPerMinute)` followed by `" min read"`, and the minutes are at least 1 |
| ReadingTime.NeverZeroMinutes | src/utils/content.ts:49-52 | the result is never `"0 min read"` |
| ReadingTimeExamples.RepeatedWordCount | src/utils/content.ts:49 | `n` copies of `"word "` count `n` words |
| ReadingTimeExamples.RepeatedWordReadingTime | src/utils/content.ts:37-53 | `n` copies of `"word "` read as `ceil(max(n, 1) / wordsPerMinute)` minutes |
| ReadingTimeExamples.ExampleTwoHundredWords | src/utils/content.ts:50-52 | 200 words at the default 200 per minute give `"1 min read"` |
| ReadingTimeExamples.ExampleTwoHundredAndOneWords | src/utils/content.ts:50-52 | 201 words give `"2 min read"` |
| ReadingTimeExamples.ExampleEmpty | src/utils/content.ts:37-53 | empty content gives `"1 min read"` |
| ReadingTimeExamples.TwoWords | src/utils/content.ts:49 | two non-blank runs separated by whitespace count 2 words |
| ReadingTimeExamples.ExampleFencedBlock | src/utils/content.ts:40-49 | `"one ```two three``` four"` counts 2 words |
| ReadingTimeExamples.ExampleLink | src/utils/content.ts:42-49 | `"[Click here](http://x.com)"` counts 2 words |
| ReadingTimeExamples.ExampleImage | src/utils/content.ts:42-43 | `"![alt](url)"` cleans to `"!alt"` |

## Left out

- `astro.config.mjs` and the rest of the site are framework configuration with no algorithm; they are not part of this model.
- The `async` wrapper of `getHeadings` is left out; the model is a plain function and a method that computes the same list.
- The regular-expression engine in general, including `lastIndex` mechanics beyond what the loop uses: each pattern is written out as a scanner of its own.
- Slugs.ToLowerCase: lower-cases ASCII letters only, not full Unicode case mapping. Non-ASCII letters are dropped by the next pass anyway, except where their lower-case form is ASCII.
- Text.IsSpace: written out as the JavaScript WhiteSpace and LineTerminator sets, with the Unicode space separators listed by code point.
- CalculateReadingTime: requires a positive whole `wordsPerMinute`. Zero, negative or fractional rates give `Infinity`, `-0` or non-integer division in JavaScript, and they are not modelled.
- CeilDiv: uses integer ceiling division. `Math.ceil(words / wordsPerMinute)` on doubles agrees with it while both numbers stay below 2^53.
- StripFencedCode, StripInlineCode, ReplaceLinks, RemoveImages, StripQuoteMarkers: their contracts do not pin the pass down for every input. What each does to one piece of markup between plain text is stated by a lemma: `FencedBlockRemoved`, `InlineCodeRemoved`, `LinkBecomesText`, `ImageRemoved` and `QuoteMarkerRemoved`. Inputs with several pieces of markup are covered only by the invariants in the contracts (length bound, at most one surviving backtick, no surviving `>`, kept characters).
- Strings are sequences of Dafny `char`, which are Unicode scalar values, while JavaScript strings are UTF-16 code units. For these patterns no result changes: `\s` holds no character outside the Basic Multilingual Plane, and `[^\w\s-]` and `.` treat both halves of a surrogate pair alike. Strings holding a lone surrogate cannot be represented.

## Notes on the behaviour

In three places the code does something other than what its comments, or a
markdown reader following CommonMark, would lead one to expect. The model
follows the code.

- Images: the comment on line 43 says that pass removes images. But the link
  pass on line 42 runs first and rewrites the `[alt](url)` inside
  `![alt](url)` to `alt`, so `![alt](url)` cleans to `!alt`
  (`ImageKeepsBangAndAlt`, `ExampleImage`). The image pass only removes an
  image that survives the link pass. An example is the `![alt](url)` that a
  linked image `[![alt](src)](url)` becomes (`ImageRemoved`,
  `LinkedImageDisappears`).
- Blank headings: `.+` in `^(#{1,6})\s+(.+)$` reads as "the heading has
  text". With backtracking, `\s+` gives one whitespace character back to
  `.+`, so `"#  "` matches. Its text trims to empty and its slug is empty
  (`ExampleBlank`).
- Headings across lines: for CommonMark, `"#\nfoo"` is an empty ATX heading
  followed by the paragraph `foo`. Here `\s+` crosses the line end, so it is
  a depth-1 heading with text `"foo"` (`ExampleNextLine`).
