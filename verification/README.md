# Text processing of the news and travel-blog assistant

This project models the deterministic text-processing core of a Korean news
summariser and travel-blog writer. It also proves properties of that model.

- **News summariser** (`app.py`):
  - **Article-list helpers**: de-duplicating RSS entries by link, and keeping the
    entries whose title or description mentions a keyword.
  - **Crawl clean-up chain**: turns a crawled article body into at most 2500
    characters of text, or into a no-content sentinel.
  - **Summary clean-up chain**: prepares text for the summariser.
  - **`simple_summarize`**: an extractive summariser. It splits sentences, filters
    boilerplate, weights terms by frequency, weights sentences by position and
    length, ranks with a stable sort, and restores text order.
  - **`extract_keywords`**: a frequency-based keyword ranker with a bonus for long
    tokens.
- **Blog scraper** (`blog_scraper.py`):
  - `clean_text`;
  - the line filter of the Naver fallback scraper;
  - the supported-platform check.
- **Blog template helpers** (`template_generator.py`): collecting what the photo
  analysis found, picking the main city, choosing the activity line and the
  title, and formatting the visited-place and photo-text sections.

`test12.py` is a line-for-line copy of `app.py`, so the rows below cite `app.py`.
The same lines hold in `test12.py`.

## Modelling choices

**Modules.** Modules follow the program:
- `Articles`, `Cleanup`, `Summarizer`, `Keywords` model `app.py`;
- `Blog` models `blog_scraper.py`;
- `Templates` models `template_generator.py`;
- `Text`, `Chars`, `Rules`, `Ranking` and `Doubles` hold what the others share:
  - Python's string operations;
  - character classes;
  - the substitution rules;
  - the stable descending sort;
  - binary64 rounding.

**Loops become methods.** Each loop that grows a list, a set or a dict is a
method with a `while` loop. The method is proved equal to a specification
function, and the properties are lemmas about that function. The pure pipelines
are functions.

**Substitution rules.** A rule is one of:
- a literal deletion;
- `a\s*b` (greedy);
- a lazy span `a.*?b`, where `.` stops at a newline;
- whitespace collapsing;
- an uninterpreted step.

Uninterpreted steps are applied through a function parameter `other`, indexed
by the source line.

**Integer scaling.** The source computes its weights in binary64 doubles. The
model computes with the decimal values the literals denote, scaled to integers:
- a sentence score is 100 times the exact score (position and length weights
  are each 10 times the literal's value);
- a keyword weight is 2 times the source's, so the threshold `freq >= 2`
  becomes `>= 4`. Here nothing is lost: `count * 1.5` is exact in a double for
  every count below 2^53/3 (about 3 × 10^15), far beyond any text's word count.

The sentence scores are where exact and double arithmetic part ways. The 30 %
and 70 % position tests compare with the rounded products `n * 0.3` and
`n * 0.7`, and the score itself is a product of doubles. The double position
test is modelled separately (`Summarizer.PositionWeightAsWritten`), and the
Findings section shows an input where it differs from the exact one. The scores
the summariser ranks use the exact test.

**Dictionary order** is insertion order, modelled by `Text.Distinct` and `Keywords.Keys`.

## Model

| member | source | states |
|---|---|---|
| Articles.Dedup | app.py:148-156 | The `seen_urls` loop computes exactly `UniqueByLink` of the input. |
| Articles.UniqueByLinkShape | app.py:148-156 | The de-duplicated list is an order-preserving subsequence of the input. Its links are pairwise distinct, and it has every link of the input. |
| Articles.UniqueByLinkFirst | app.py:148-156 | The article kept for each link is the first article in the input with that link. |
| Articles.UniqueByLink | app.py:148-156 | The articles kept by the `seen_urls` loop: the first article for each link, in input order. It has no contract of its own; `Articles.UniqueByLinkShape` and `Articles.UniqueByLinkFirst` state its properties. |
| Articles.FirstWithLink | app.py:152 | It returns the position of the first article with a given link. No earlier article has it. |
| Articles.FilterByKeywords | app.py:158-171 | The filter loop computes exactly `Filtered` of the articles and keywords. |
| Articles.Filtered | app.py:158-171 | The articles whose lower-cased title or description holds a lower-cased keyword, in input order. It has no contract of its own; `Articles.FilteredShape` states its properties: order, membership and multiplicity. |
| Articles.FilteredShape | app.py:158-171 | The result is an order-preserving subsequence. An article is in it iff some lower-cased keyword occurs in its lower-cased title or description. A matching article appears as many times as in the input, any other not at all. No keywords give the empty list. |
| Articles.LowerAll | app.py:161 | It lower-cases each keyword, position by position. |
| Chars.Lower | app.py:163 | The result has the same length as the input and is lower-cased character by character. |
| Chars.LowerIdempotent | blog_scraper.py:189 | Lower-casing twice is the same as lower-casing once. |
| Chars.LowerChar | blog_scraper.py:189 | Each ASCII capital becomes its own small letter (32 code points on), and ASCII small letters, Hangul, digits and whitespace are unchanged. |
| Text.Collapse | app.py:300 | `re.sub(r'\s+', ' ', s)`: the result has no two adjacent whitespace characters and uses only plain spaces. It is empty iff the input is, and it starts and ends with whitespace iff the input does. |
| Text.CollapseKeepsWords | app.py:300 | Collapsing whitespace keeps the words: `s.split()` is the same before and after. |
| Text.CollapseFixpoint | app.py:300 | A string whose whitespace is already single plain spaces is unchanged by the collapse. |
| Text.Strip | app.py:301 | `str.strip()`: the result has no whitespace at either end and is no longer than the input. `Text.StripIsSlice` and `Text.StripDropsSpace` state what it keeps and drops. |
| Text.StripDropsSpace | app.py:301 | Everything before and after the kept slice is whitespace, so stripping drops nothing else. |
| Text.StripIsSlice | app.py:301 | The stripped string is the slice of the input that starts after its leading whitespace. |
| Text.StripTrimmed | app.py:301 | A string with no whitespace at its ends is its own strip. |
| Text.StripKeepsShape | app.py:300-301 | Stripping keeps single plain spaces single and plain. |
| Text.NormalizedShape | app.py:300-301 | Collapse followed by strip gives single plain spaces between words and none at either end. |
| Text.NormalizeIdempotent | app.py:300-301 | Normalising twice gives the same text as normalising once. |
| Text.Split | blog_scraper.py:166 | `s.split(sep)`: there is at least one piece, and no piece contains the separator. |
| Text.SplitJoin | blog_scraper.py:166 | Joining the pieces of a split with the separator gives back the original string. |
| Text.SplitNoSep | blog_scraper.py:166 | A string without the separator splits into itself. |
| Text.Words | blog_scraper.py:286 | `s.split()`: every word is non-empty, contains no whitespace, and occurs in the string. |
| Text.WordsOfNormal | blog_scraper.py:286 | In normalised non-empty text, `split()` equals `split(' ')`. |
| Text.Runs | app.py:617 | `re.findall` of a character class with a minimum length: each run is long enough, is made of class characters only, and occurs in the text. |
| Text.RunsSplit | app.py:617 | A character outside the class cuts the text: the runs of the whole are the runs before it followed by the runs after it. |
| Text.RunsWhole | app.py:617 | A text made only of class characters is a single run when it is long enough, and gives no run otherwise. |
| Text.WordsAround | blog_scraper.py:286 | Whitespace between two texts separates their words: the words of `a + w + b` are those of `a` followed by those of `b`. |
| Text.Distinct | app.py:442-468 | The keys of a dict filled from a list: the same members as the list, each once. A key comes before another iff its first occurrence in the list comes first. |
| Text.IndexOf | app.py:455 | `list.index(x)`: the position holds `x`, and no earlier position does. |
| Rules.DeleteMatches | app.py:245-297 | `re.sub(pattern, '', s)` for a concrete pattern: the result is a subsequence of the input and no longer than it. |
| Rules.DeleteFirstMatch | app.py:245-297 | Scanning left to right, the first match is removed: the text before it is kept, the match is dropped, and deletion goes on after it. |
| Rules.DeleteKeepsPrefix | app.py:245-297 | Where the pattern matches nowhere before an index, everything before that index is kept as it is. |
| Rules.DeleteShrinks | app.py:245-297 | A pattern that matches somewhere makes the text strictly shorter. |
| Rules.MatchAt | app.py:245-297 | A literal matches at the start iff it is non-empty and the text starts with it. A lazy span only matches where its opening literal starts. |
| Rules.CloseAt | app.py:246-297 | The lazy `.*?close` match ends at the nearest `close`, and no newline comes before it. |
| Rules.SpacedEnd | app.py:265-289 | The greedy `first\s*second` match ends right after an occurrence of `second`. |
| Rules.DeleteNoMatch | app.py:245-297 | A pattern that matches nowhere changes nothing. |
| Rules.LiteralAbsent | app.py:255-283 | Deleting an absent literal changes nothing. |
| Rules.LazySpanAbsent | app.py:246-297 | A lazy span whose opening literal is absent changes nothing. |
| Rules.ChainDeletes | app.py:245-297 | A chain of deleting steps, uninterpreted ones included, returns a subsequence of its input. |
| Cleanup.CleanContentShape | app.py:243-301 | The cleaned crawl body has single plain spaces between words and none at either end. |
| Cleanup.CleanContent | app.py:243-301 | The crawl clean-up chain: the deletion rules in source order, then whitespace collapse and strip. It has no contract of its own; `Cleanup.CleanContentShape` and `Cleanup.CrawlChainDeletes` state its properties. |
| Cleanup.CleanContentOfNormal | app.py:243-301 | A body that is already normalised, where no concrete rule finds its opening literal and the uninterpreted steps change nothing, comes out unchanged. |
| Cleanup.ChainUntouched | app.py:245-297 | Rules whose opening literal is absent, and uninterpreted rules that change nothing, leave the text alone. |
| Cleanup.SpacedAbsent | app.py:265-289 | A `first\s*second` rule whose first literal is absent changes nothing. |
| Cleanup.CrawlChainDeletes | app.py:245-297 | With deleting steps, the crawl chain's output is a subsequence of the raw body. |
| Cleanup.CrawlResultShape | app.py:303 | The result is the sentinel exactly when the cleaned body is empty. Otherwise it is a non-empty prefix of the body, at most 2500 characters long, and equal to the body when the body fits. A longer body is cut to exactly its first 2500 characters. The result starts with a non-space and keeps single plain spaces. |
| Cleanup.CrawlResult | app.py:243-303 | The cleaned body capped at 2500 characters, or the no-content sentinel. It has no contract of its own; `Cleanup.CrawlResultShape` states its properties. |
| Cleanup.CapShape | app.py:303 | The same prefix-or-sentinel facts, for any normalised body. |
| Cleanup.Mask | app.py:580 | Each character the mask keeps (`\w`, `\s`, Hangul, `.,!?`) stays in place, and every other character becomes a space. The length is unchanged. |
| Cleanup.MaskShape | app.py:580 | After the mask every character is one it keeps, and the only whitespace is plain spaces. |
| Cleanup.StripBasic | app.py:581 | Stripping masked text keeps it masked and plain-spaced. |
| Cleanup.FinishShape | app.py:579-581 | The last three steps leave only kept characters and plain spaces, with none at either end. Runs of spaces are not excluded. |
| Cleanup.PreprocessShape | app.py:498-581 | The text handed to the summariser holds only mask-approved characters and plain spaces, with no whitespace at either end. |
| Cleanup.Preprocess | app.py:498-581 | The summary clean-up chain. It has no contract of its own; `Cleanup.PreprocessShape` states its properties. |
| Cleanup.SummarizeTextShape | app.py:491-605 | Short input gets the insufficient-content sentinel before any clean-up. Every result of the modelled path ends with a period. |
| Cleanup.SummarizeText | app.py:491-605 | `summarize_text` on its `simple_summarize` path. It has no contract of its own; `Cleanup.SummarizeTextShape` states its properties. |
| Summarizer.SummaryOfShortText | app.py:368-369 | Empty input, or input whose stripped length is below 50, gives exactly the insufficient-content sentinel. |
| Summarizer.SeparatorAt | app.py:374 | A separator match stays inside the text. Where none starts, the character is not `.`, `!` or `?`. |
| Summarizer.SeparatorAtMeaning | app.py:374 | A separator of length 1 starts exactly at `.`, `!` or `?`. A longer one is a verb ending of the pattern followed by one whitespace character. None starts exactly where neither occurs. |
| Summarizer.SeparatorShape | app.py:374 | What the scan finds is a match of the pattern: a terminal, or a verb ending and one whitespace character. |
| Summarizer.SplitSentences | app.py:374 | `re.split` with the sentence pattern: at least one piece, and no piece holds `.`, `!` or `?`. |
| Summarizer.SplitSentencesRoundTrip | app.py:374 | There is one more piece than separators, and pieces and separators taken in turn give back the text. |
| Summarizer.SeparatorsMatch | app.py:374 | Every separator the split cuts out is a match of the pattern. |
| Summarizer.PiecesHoldNoSeparator | app.py:374 | No piece of the split holds a match of the pattern anywhere. |
| Summarizer.SplitWithoutSeparator | app.py:374 | Text with no separator is one piece, the text itself. |
| Summarizer.CollectSentences | app.py:376-402 | The filter loop computes exactly `KeptSentences` of the pieces. |
| Summarizer.KeptSentencesShape | app.py:376-402 | Every primary sentence is stripped, longer than 15 characters, and free of terminal punctuation. It has no `기자` in its first 10 characters and none of the markers. |
| Summarizer.KeptSentencesSelect | app.py:376-402 | The primary sentences are an order-preserving subsequence of the stripped pieces. A stripped piece is a sentence iff it is longer than 15 characters, has no `기자` in its first 10 and holds no marker. A passing piece is kept as many times as it occurs. |
| Summarizer.LongPiecesShape | app.py:406 | Every fallback sentence is stripped, longer than 15 characters, and free of periods. |
| Summarizer.LongPiecesSelect | app.py:406 | The fallback sentences are an order-preserving subsequence of the stripped pieces, and a stripped piece is kept iff it is longer than 15 characters, as many times as it occurs. |
| Summarizer.NotInStrip | app.py:406 | Stripping adds no character. |
| Summarizer.SentencesShape | app.py:404-409 | The sentence list is the primary pass when it is non-empty, and the period split otherwise. Every sentence is stripped, longer than 15 characters, and period-free. |
| Summarizer.Sentences | app.py:404-409 | The sentence list `simple_summarize` scores. It has no contract of its own; `Summarizer.SentencesShape` states its properties. |
| Summarizer.CountWords | app.py:437-439 | The counting loop computes exactly `WordFreq` of the terms. |
| Summarizer.WordFreqMeaning | app.py:437-439 | A term's frequency is its number of occurrences when it is counted (length 2 or more, not a stop word), and 0 otherwise. |
| Summarizer.PositionWeight | app.py:454-459 | The position weight, times ten, lies between 8 and 13. |
| Summarizer.PositionWeightMonotone | app.py:454-459 | An earlier sentence never gets a smaller position weight than a later one. |
| Summarizer.PositionWeightScaleInvariant | app.py:456-459 | The exact weight depends only on the relative position: scaling the index and the sentence count by the same factor leaves it unchanged. |
| Summarizer.PositionWeightAsWritten | app.py:454-459 | With the double products `n * 0.3` and `n * 0.7`, the weight is 1.3, 1.0 or 0.8 (times ten). |
| Summarizer.PositionWeightAsWrittenNotScaleInvariant | app.py:456-459 | As written, index 7 of 10 gets 1.0, but index 63 of 90 (the same 70 % mark) gets 0.8. The exact weight gives 1.0 to both. |
| Summarizer.LengthWeight | app.py:462-466 | The length weight, times ten, lies between 7 and 12. |
| Summarizer.ScoreSentences | app.py:442-468 | The scoring loop's dict has the sentences as keys, in first-occurrence order. Each key scores term sum × position weight × length weight, placed by its first occurrence. |
| Summarizer.ChosenOutrank | app.py:474-475 | A chosen sentence outranks every sentence left out: it has a higher score, or an equal score and an earlier key. |
| Summarizer.ChosenOutrankInText | app.py:442-475 | The same for the sentences themselves: a chosen sentence scores higher than every sentence left out, or equal with an earlier first occurrence in the text. |
| Summarizer.ChosenSize | app.py:475 | Exactly `min(max_sentences, number of keys)` distinct sentences are chosen. |
| Summarizer.RestoreOrder | app.py:478-483 | The restore-order loop computes exactly `KeepChosen`. |
| Summarizer.KeepChosenShape | app.py:478-483 | The final sentences are chosen ones, in text order, and at most `max_sentences` of them. No chosen sentences give none. |
| Summarizer.KeepChosenNonEmpty | app.py:478-483 | A chosen sentence that occurs in the list guarantees that at least one is kept. |
| Summarizer.KeepChosenPrefix | app.py:478-483 | For `max_sentences` of at least 1, the restore-order loop keeps exactly the first `max_sentences` occurrences of chosen sentences, each copy counted. |
| Summarizer.KeepChosenCounts | app.py:478-483 | With room for every sentence, each chosen sentence is kept as many times as it occurs in the list, and no other sentence is kept. |
| Summarizer.ChosenInOrder | app.py:478-481 | Every occurrence of a chosen sentence in text order: each chosen sentence as many times as it occurs, no other, and no more than the list holds. |
| Summarizer.KeepChosenComplete | app.py:478-483 | A chosen sentence that occurs in the list is left out only when `max_sentences` sentences are already kept. |
| Summarizer.AssembleShape | app.py:485-489 | Non-empty sentences without periods give their `'. '` join plus one period. No sentences give the no-summary sentinel. |
| Summarizer.SimpleSummarize | app.py:366-489 | The whole summariser, loop by loop, computes exactly `Summary`. |
| Summarizer.SelectSentences | app.py:434-486 | Counting, scoring, ranking and restoring order compute exactly `Selected`. |
| Summarizer.SelectBy | app.py:442-483 | Scoring, ranking and restoring order under a given frequency table compute exactly `SelectedBy`. |
| Summarizer.SelectedByShape | app.py:474-483 | For any frequency table, at most `max_sentences` sentences are kept, in text order. None are kept iff `max_sentences` is 0. A sentence among the best `max_sentences` is left out only when `max_sentences` sentences are kept. Every kept sentence is among the best, and the result is exactly the first `max_sentences` occurrences of those sentences in text order. |
| Summarizer.SummaryShape | app.py:404-489 | No sentences give the cannot-split sentinel. Otherwise the summary joins at most `max_sentences` sentences in text order and adds a period, and `max_sentences = 0` gives the no-summary sentinel. A sentence among the best `max_sentences` is missing only when `max_sentences` sentences fill the summary. Every summary sentence is among the best, and the summary's sentences are exactly the first `max_sentences` occurrences of those sentences in text order. |
| Summarizer.Summary | app.py:366-489 | The text `simple_summarize` returns. It has no contract of its own; `Summarizer.SummaryShape` (which sentences, in which order, how many) and `Summarizer.SummaryEndsWithPeriod` state its properties. |
| Summarizer.SummaryEndsWithPeriod | app.py:366-489 | Every result of `simple_summarize` ends with a period, sentinels included. |
| Ranking.Insert | app.py:474 | Insertion adds one item to the ranked list and keeps the others. |
| Ranking.InsertSorted | app.py:474 | Inserting into a ranked list keeps it ranked: by score descending, ties by first position. |
| Ranking.Ranked | app.py:474 | `sorted(..., reverse=True)` is stable: every item exactly once, by descending score, ties in original order. |
| Ranking.RankedDistinct | app.py:474 | The ranked positions are pairwise distinct. |
| Ranking.TopBeforeRest | app.py:475 | Every item in the top `k` is ranked before every item after it. |
| Ranking.UniformScoresKeepOrder | app.py:474 | When all scores tie, the sort keeps the original order. |
| Keywords.EligibleWords | app.py:643-645 | The counted tokens are exactly the tokens of length 2 or more that are not stop words. |
| Keywords.CountTokens | app.py:643-645 | The counting loop gives the dict's keys in first-occurrence order, each mapped to twice its count. |
| Keywords.CountsShape | app.py:643-645 | The dict holds exactly the counted tokens, each mapped to twice its number of occurrences. |
| Keywords.KeysShape | app.py:643-645 | The keys are the counted tokens of the text, each once. |
| Keywords.Boost | app.py:648-651 | The boost loop multiplies the count of each token of length 4 or more by 1.5, and keeps the keys. |
| Keywords.WeightThreshold | app.py:648-655 | A token's weight reaches the threshold exactly when it occurs at least twice. A token seen once is never a keyword. |
| Keywords.HeavyIsLeadingRun | app.py:655 | The filter keeps a leading run of the sorted list, whose items all have weight at least 2. Everything after the run is lighter. |
| Keywords.TopKeywordsShape | app.py:654-655 | Cutting to `top_k` and filtering gives a leading run of the ranking, of distinct keys in non-increasing weight. The items cut by the filter are below 2. |
| Keywords.ExtractKeywords | app.py:610-655 | Counting, boosting, sorting, cutting and filtering compute exactly `Keywords`. |
| Keywords.KeywordsShape | app.py:613-655 | Empty text gives no keywords. Otherwise at most `top_k` distinct counted tokens, each occurring at least twice, heaviest first. |
| Keywords.Keywords | app.py:610-655 | The list `extract_keywords` returns. It has no contract of its own; `Keywords.KeywordsShape`, `Keywords.KeywordsComplete` and `Keywords.KeywordsTieOrder` state its properties. |
| Keywords.KeywordsComplete | app.py:654-655 | A counted token seen at least twice is missing only when `top_k` keywords at least as heavy fill the list. |
| Keywords.LeftOutIsOutweighed | app.py:654-655 | A key above the threshold that was cut sits below a full list of `top_k` keys at least as heavy. |
| Keywords.LongTokenFirst | app.py:648-655 | Of two tokens with the same count, one of length 4 or more and one shorter, the long one is a keyword whenever the short one is, and it is placed first. |
| Keywords.KeywordsTieOrder | app.py:643-655 | Of two keywords with equal weight, the one that first occurs earlier in the text comes first. |
| Keywords.EligibleOrder | app.py:643-645 | Counting keeps the order of first occurrences: a counted token that comes first among the counted tokens also comes first in the text. |
| Blog.CleanTextShape | blog_scraper.py:264-287 | An error report passes through unchanged. Otherwise the title and content are normalised and the content has no newline. The content is at most 5003 characters. Length and word count match the content, and platform and URL are copied. |
| Blog.CleanTextWordCount | blog_scraper.py:286 | The word count is the number of space-separated pieces of the content, and it is 0 iff the content is empty. |
| Blog.CleanText | blog_scraper.py:264-287 | `clean_text`. It has no contract of its own; `Blog.CleanTextShape` and `Blog.CleanTextWordCount` state its properties. |
| Blog.TruncateShape | blog_scraper.py:277-278 | Content longer than 5000 characters becomes its first 5000 characters plus `...`. Shorter content is unchanged. Normalised text stays normalised. |
| Blog.SquashBlankLines | blog_scraper.py:272 | `re.sub(r'\n\s*\n', '\n', s)` only deletes characters: the result is a subsequence of the input. |
| Blog.SquashKeepsWords | blog_scraper.py:272 | Squashing blank lines keeps the words: `split()` is the same before and after. |
| Blog.SquashLeavesNoBlankLine | blog_scraper.py:272 | After squashing, no newline is followed by whitespace holding another newline: no `\n\s*\n` match is left. |
| Blog.LastNewline | blog_scraper.py:272 | It finds the last newline in a range, which is where the greedy `\s*` stops. |
| Blog.AnyIn | blog_scraper.py:196 | `any(d in host for d in domains)`: true iff some domain is a substring of the host. |
| Blog.IsSupportedBlog | blog_scraper.py:187-196 | `is_supported_blog` on the network location. It has no contract of its own; `Blog.AnyIn`, `Blog.SupportedIgnoresCase` and `Blog.SubdomainSupported` state its properties. |
| Blog.SupportedIgnoresCase | blog_scraper.py:187-196 | The platform check gives the same answer for a host and its lower-cased form. |
| Blog.SubdomainSupported | blog_scraper.py:187-196 | Every host ending in a supported domain is supported, sub-domains included. |
| Blog.StrippedNonEmpty | blog_scraper.py:166 | Every page line kept is stripped and non-empty. |
| Blog.StrippedNonEmptySelect | blog_scraper.py:166 | The kept lines are an order-preserving subsequence of the stripped lines, and a stripped line is kept iff it is non-empty, as many times as it occurs. |
| Blog.FilterLines | blog_scraper.py:168-173 | The line filter loop computes exactly `ContentLines`. |
| Blog.ContentLinesShape | blog_scraper.py:168-173 | The content lines are an order-preserving subsequence. A line is kept iff it is longer than 10 characters and holds no blocked word, ignoring case. A passing line is kept as many times as it occurs. |
| Blog.FallbackLinesShape | blog_scraper.py:175 | The content is built from at most 50 content lines, in page order. |
| Blog.NaverFallbackShape | blog_scraper.py:164-182 | The fallback gives a cleaned post with the placeholder title, the `naver_fallback` platform and the page URL. Its content is the cleaned join of the kept lines. |
| Blog.FallbackTitleNormal | blog_scraper.py:178 | The placeholder title survives `clean_text` unchanged. |
| Templates.ExtractUserInfo | template_generator.py:75-101 | The collection loop computes exactly `UserInfoOf` the analysis results. |
| Templates.UserInfoAppend | template_generator.py:82-93 | Collecting over two batches of photos is collecting over each in turn. Each list keeps photo order. |
| Templates.UserInfoSingle | template_generator.py:84-93 | One photo contributes its location and timestamp when present, and all of its text lines. |
| Templates.UserInfoShape | template_generator.py:75-101 | The image count is the number of photos. The locations are exactly the photos' present locations and the timestamps exactly their present timestamps: at most one per photo, and one per photo when every photo has one. The texts are exactly the photos' text lines. |
| Templates.LocationsShape | template_generator.py:82-85 | A location is collected iff some photo has it as a present location; there is at most one per photo, and one per photo when all have one. |
| Templates.TimestampsShape | template_generator.py:92-93 | A timestamp is collected iff some photo has it as a present timestamp; there is at most one per photo, and one per photo when all have one. |
| Templates.TextsShape | template_generator.py:88-89 | A text line is collected iff some photo has it among its text lines. |
| Templates.FirstContained | template_generator.py:313-315 | It returns the first name in the list that occurs in the text, or none when no name occurs. |
| Templates.MainLocationShape | template_generator.py:310-316 | The main location is the earliest listed city that occurs in the keywords. The result is `여행지` iff no city occurs. |
| Templates.ExtractMainLocation | template_generator.py:310-316 | `extract_main_location`. It has no contract of its own; `Templates.MainLocationShape` states its properties. |
| Templates.ActivitiesByPriority | template_generator.py:361-370 | The activity line is the one for the first theme that occurs in the keywords, in the order 맛집, 데이트, 문화. If none occurs, it is the default. |
| Templates.GenerateActivities | template_generator.py:361-370 | `generate_activities`. It has no contract of its own; `Templates.ActivitiesByPriority` states its properties. |
| Templates.TitleShape | template_generator.py:318-337 | The title is one of its type's titles, and every one of them can be drawn. A known type offers three and any other type only the plain review title. Every title mentions the keywords. |
| Templates.GenerateTitle | template_generator.py:318-337 | `generate_title` with the random draw as an argument. It has no contract of its own; `Templates.TitleShape` states its properties. |
| Templates.TitlesMention | template_generator.py:320-337 | Every candidate title contains the keywords. |
| Templates.Take | template_generator.py:343-345 | `s[:n]` is a prefix of at most `n` elements, and the whole list when it fits. |
| Templates.PinLines | template_generator.py:343 | There is one `📍` line per location, in order. |
| Templates.ShopLinesShape | template_generator.py:345 | The `🏪` lines are exactly the labelled texts longer than 2 characters, in the order of the texts and as many times as each occurs. |
| Templates.ShopLinesMembers | template_generator.py:345 | A `🏪` line is a labelled text longer than 2 characters, and every such text gives one; there are no more lines than texts. |
| Templates.ShopLinesSelect | template_generator.py:345 | The `🏪` lines are an order-preserving subsequence of all labelled texts; a labelled text is kept as many times as it occurs if it is longer than 2 characters, and not at all otherwise. |
| Templates.FormatVisitedPlaces | template_generator.py:339-347 | The list-building code computes exactly `VisitedPlaces`. |
| Templates.VisitedPlacesShape | template_generator.py:339-347 | There are at most 3 pin lines, for the leading locations. Then at most 3 shop lines, for the leading texts longer than 2 characters, in their order and multiplicity. The default is used exactly when there are no lines. |
| Templates.FormatExtractedTexts | template_generator.py:349-359 | The loop computes exactly `ExtractedTexts`. |
| Templates.SparkleLinesShape | template_generator.py:355-357 | The `✨` lines are exactly the stripped texts longer than 1 character, labelled, each as many times as it occurs. |
| Templates.SparkleLinesMembers | template_generator.py:355-357 | A `✨` line is a labelled stripped text longer than 1 character, and every such text gives one; there are no more lines than texts. |
| Templates.SparkleLinesCount | template_generator.py:355-357 | A labelled stripped text appears among the `✨` lines as many times as it occurs if it is longer than 1 character, and not at all otherwise. |
| Templates.SparkleLinesInOrder | template_generator.py:355-357 | The `✨` lines keep the order of their texts. |
| Templates.FirstTextsLines | template_generator.py:355-357 | The lines come from the first five texts: at most five of them. A line is there iff one of those texts is longer than 1 character after stripping, and the lines keep the texts' order and multiplicity. |
| Templates.ExtractedTextsShape | template_generator.py:349-359 | No texts give the first default. Otherwise the second default is used exactly when none of the first five texts is readable. |
| Templates.NoLinesIffUnreadable | template_generator.py:355-359 | There are no lines exactly when none of the first five texts is longer than 1 character after stripping. |
| Doubles.RoundToDouble | app.py:456-458 | Rounding to binary64 gives a multiple of the ulp with at most 53 significant bits, within half an ulp of the exact value. |
| Doubles.RoundToDoubleTiesEven | app.py:456-458 | A value exactly halfway between two doubles rounds to the one with the even significand. |
| Doubles.RoundDivTiesEven | app.py:456-458 | Rounding a quotient to the nearest integer breaks a tie toward the even neighbour. |
| Doubles.RoundedWithin | app.py:456-458 | A value in the binade `[2^e, 2^(e+1))` is rounded to within half of `2^(e-52)`. |
| Doubles.UlpBounds | app.py:456-458 | A value of at least `2^53` lies between `2^52` and `2^53` ulps. |

## Left out

- **Sumy (LexRank).** The summariser branch of `summarize_text` (app.py:582-605) is left out: it is a third-party library with opaque output. `Cleanup.SummarizeText` always takes the `simple_summarize` path.
- **I/O.** These are left out because they are I/O: RSS download and parsing, `requests`/BeautifulSoup page fetching and selector searches, the Selenium driver, and `time.sleep`. The crawled body, the page text and the network location are inputs of the model.
- **URL parsing.** `urlparse(url).netloc` is not modelled. `Blog.IsSupportedBlog` takes the network location as input.
- **Page text extraction.** `soup.get_text()` is not modelled. `Blog.NaverFallback` takes the page text as input.
- **Streamlit UI and progress bars.** Left out because they are user interface.
- **PDF generation and e-mail sending.** Left out because they are output formatting and I/O.
- **Gemini calls and photo analysis.** Left out because they are remote services: `style_analyzer.py`, `image_analyzer.py`, and the prompt and response paths of `template_generator.py`. The photo analysis results are an input of `Templates.ExtractUserInfo`.
- **GPS conversion.** Left out because it is floating-point arithmetic.
- **Exception handlers.** The handlers that turn an error into a message string (app.py:305-306, 607-608, 657-658; blog_scraper.py:184-185) are left out. The modelled operations cannot fail.
- **Randomness.** `random.choice` in `generate_title` becomes a `choice` argument. `Templates.TitleShape` states membership and that every title can be drawn, not the distribution.
- **Character classes.** Python's `\s` and `str.isspace()` are modelled exactly (`Chars.IsSpace`). `\d`, `\w` and `str.lower` are approximated: ASCII, Hangul and the common decimal-digit ranges. Full Unicode case mapping and category tables are not modelled.
- **Other substitution rules.** The rules other than literal deletion, `a\s*b`, lazy spans and whitespace collapse are uninterpreted. Examples are the e-mail and URL patterns, character classes with repetition, and word boundaries. Lemmas about them assume only what the `other` parameter is given, for instance that it only deletes (`Rules.Deleting`).
- Text.Collapse: its own contract states the shape of the result only. That the words survive, in order, is `Text.CollapseKeepsWords`.
- Text.Words: its own contract states what each word is. That the words are all the maximal non-space runs, in order, follows from `Text.RunsSplit` and `Text.RunsWhole`.
- Text.Runs: its own contract states what each run is. Maximality and completeness are `Text.RunsSplit` and `Text.RunsWhole`, which together fix the result.
- Rules.DeleteMatches: its own contract states that characters are only deleted. That a match is deleted is `Rules.DeleteFirstMatch` and `Rules.DeleteShrinks`.
- Summarizer.SeparatorAt: its own contract states the bounds and the terminal case. The verb-ending alternative is `Summarizer.SeparatorAtMeaning` and `Summarizer.SeparatorShape`.
- Summarizer.SplitSentences: its own contract states the piece shape. The round trip is `Summarizer.SplitSentencesRoundTrip`, with `Summarizer.SeparatorsMatch` and `Summarizer.PiecesHoldNoSeparator`.
- Summarizer.KeptSentencesShape: it states what every sentence is. That every passing piece is kept, in order and as often as it occurs, is `Summarizer.KeptSentencesSelect`.
- Summarizer.LongPiecesShape: it states what every fallback sentence is. That every long piece is kept, in order and as often as it occurs, is `Summarizer.LongPiecesSelect`.
- Summarizer.KeepChosenShape: it states that the kept sentences are chosen ones, in text order, and at most `max_sentences`. That a chosen sentence is left out only when the list is full is `Summarizer.KeepChosenComplete`. Which copies are kept, and how many, is `Summarizer.KeepChosenPrefix` and `Summarizer.KeepChosenCounts`.
- Blog.SquashBlankLines: its own contract states that characters are only deleted. Word preservation and the absence of blank lines are `Blog.SquashKeepsWords` and `Blog.SquashLeavesNoBlankLine`.
- Blog.StrippedNonEmpty: its own contract states what every kept line is. That every non-empty stripped line is kept, in order and as often as it occurs, is `Blog.StrippedNonEmptySelect`.
- Doubles.RoundToDouble: its own contract states the precision and the half-ulp bound. The ties-to-even choice is `Doubles.RoundToDoubleTiesEven`.
- Summarizer.ScoreSentences: the scores use the exact 30 % and 70 % position test, not the rounded double products of app.py:456-458. So index 63 of 90 sentences gets the weight 1.0 where the source gives 0.8 (see Findings). The double test is modelled separately as `Summarizer.PositionWeightAsWritten`.
- Summarizer.SentenceScore: the score is the exact product of term sum, position weight and length weight. The source multiplies doubles (app.py:468), so scores that are equal in decimal are often unequal as doubles. For example, term sum 5 with weights 1.3 and 1.2 gives 7.8, while term sum 6 with weights 1.3 and 1.0 gives 7.800000000000001. If the second sentence comes later in the text, the source ranks it first, while the model sees an exact tie and ranks the earlier sentence first (`Summarizer.ChosenOutrankInText`).
- **Negative `max_sentences` and `top_k`.** Python would slice from the end for these. They are not modelled: both are natural numbers here.
- **The empty-score sentinel.** The branch at app.py:471-472 cannot be reached, because the scores dict is empty only when there are no sentences, and that case has already returned at line 409. It has no counterpart in the model.
- **The fallback scraper's title.** It is always the empty string at blog_scraper.py:161, so the model uses the placeholder `제목 추출 실패` directly.
- **Other scrapers.** The Tistory and general scrapers (blog_scraper.py:198-262) only differ in how they fetch and select page text. They feed the same `clean_text`, which is modelled.

## Findings

| source | as written | input that shows it | evidently intended | confidence | as-written member | corrected member |
|---|---|---|---|---|---|---|
| app.py:456-459 | `sentence_index > len(sentences) * 0.7` compares with a rounded double product. | 90 sentences: `90 * 0.7` is 62.99999999999999, so index 63 (exactly the 70 % mark) is weighted 0.8. Index 7 of 10 sentences, the same relative place, is weighted 1.0. | The exact 70 % mark, which weights both 1.0. | not executed | `Summarizer.PositionWeightAsWrittenNotScaleInvariant` (about `Summarizer.PositionWeightAsWritten`) | `Summarizer.PositionWeightScaleInvariant` (about `Summarizer.PositionWeight`, which the scores use) |
