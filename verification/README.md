# Shopping positive keywords: query classification

A Dafny model of the decision logic in `shopping-positive-keywords.js`, an
advertising script that turns unwanted search queries into negative keywords.
A campaign or ad group has a list of "positive" keywords. Each search query in
its report is checked against that list. A query holding fewer positive
keywords than the threshold (`minKeywordMatches`) is queued. Every queued query
is then encoded in the configured match-type notation and submitted as a
negative keyword.

The model has four modules:

- `Text` (text.dfy) covers the string primitives the script uses, written out
  over `seq<char>`:
  - JavaScript `trim`, over the ECMAScript WhiteSpace and LineTerminator
    characters;
  - `toLowerCase` on the ASCII letters;
  - `split` and `join` on one separator character, where empty pieces are kept
    and `""` splits into `[""]`;
  - `indexOf`.
- `Matcher` (matcher.dfy) is `containsKeyword`. A query contains a keyword when
  the two are equal, or when the first occurrence of the keyword lies between
  word edges. A word edge is the start or end of the string, or a space.
- `MatchTypes` (match_type.dfy) holds:
  - the four notations (broad, broad match modifier, phrase, exact);
  - the case-insensitive reading of the match-type setting;
  - `addMatchType`, with its error result for an unknown setting.
- `Classifier` (classifier.dfy) holds:
  - the per-query counting loop with its early `break`;
  - the queueing of queries below the threshold;
  - the submission loop, which encodes every queued query in order.

The inputs stand in for the platform's data. The report's queries are a
`seq<string>`. The positive keywords read from the sheet are a `seq<string>`.
The threshold is an `int`, and the match-type setting is a `string`. A thrown
error is an `Err` result or the `thrown` flag of `SubmitNegatives`. The list of
created negative keywords is an output sequence.

Two points of the behaviour matter below:

- Only the first occurrence of a keyword is examined. "bored red" does not
  contain "red", because the first hit lies inside "bored"
  (`Matcher.BoredRedDoesNotContainRed`).
- The counter is compared with the threshold only after a match. So with a
  threshold of 0 or less, the loop stops at the first match, and a query is
  never queued.

## Model

| member | source | states |
|---|---|---|
| Matcher.ContainsKeyword | shopping-positive-keywords.js:245-264 | A query always contains itself. A keyword that does not occur in a different query is not contained. Otherwise the result is true exactly when the first occurrence has a space or the string start before it and a space or the string end after it. |
| Matcher.FirstOccurrenceDecides | shopping-positive-keywords.js:251-260 | For a keyword different from the query, the first occurrence alone decides the outcome: the query contains the keyword if and only if that occurrence is word-bounded. |
| Matcher.ContainedKeywordIsWholeWords | shopping-positive-keywords.js:239-264 | A contained keyword is made of whole words of the query: its space-separated pieces appear as consecutive space-separated pieces of the query, in the same order. |
| Matcher.BoredRedDoesNotContainRed | shopping-positive-keywords.js:251-260 | "red" is a whole word of "bored red", yet the query does not contain it, because only the first occurrence (inside "bored") is examined. |
| Matcher.MatcherExamples | shopping-positive-keywords.js:245-264 | "red shoes" contains "red" but not "red shoe". "shoes" does not contain "red". "red" contains itself. "bored" does not contain "red". |
| Text.IndexOf | shopping-positive-keywords.js:251-252 | The result is -1 exactly when the keyword occurs nowhere. Otherwise the keyword occurs at the result and at no smaller index. |
| Text.Trim | shopping-positive-keywords.js:268 | The result has no whitespace at either end. The input is the result with only whitespace before and after it. |
| Text.TrimOfPadded | shopping-positive-keywords.js:268 | Trimming whitespace around a trimmed core gives exactly that core, so the contract of `Trim` determines its result. |
| Text.TrimIdempotent | shopping-positive-keywords.js:268 | Trimming twice is the same as trimming once. |
| Text.ToLower | shopping-positive-keywords.js:267 | The result has the input's length. Every ASCII capital becomes its small letter, no capital is left, and every other character is kept. |
| Text.ToLowerEqualIff | shopping-positive-keywords.js:267-275 | Two settings lower-case to the same string if and only if they differ only in the case of ASCII letters, so the comparisons with the four names ignore case. |
| Text.Split | shopping-positive-keywords.js:270 | Splitting on one character always yields at least one piece; the empty string splits into one empty piece. |
| Text.Join | shopping-positive-keywords.js:272 | Joining no pieces gives the empty string, and one piece gives that piece. Otherwise the result is as long as all pieces together plus one separator between each two of them. |
| Text.JoinAppend | shopping-positive-keywords.js:272 | Joining two non-empty lists one after the other gives their joins with one separator between them. Together with the one-piece case, this fixes every join: the pieces in order, with one separator between each two. |
| Text.SplitCount | shopping-positive-keywords.js:270 | Splitting on a character gives one piece more than the number of times that character occurs. |
| Text.SplitPiecesLackSeparator | shopping-positive-keywords.js:270 | No piece of a split contains the separator. |
| Text.JoinSplit | shopping-positive-keywords.js:270-272 | Joining the pieces of a split with the same separator gives back the original string. |
| Text.SplitJoin | shopping-positive-keywords.js:270-272 | Splitting a join of separator-free pieces gives back those pieces. |
| MatchTypes.ParseMatchType | shopping-positive-keywords.js:267-279 | A setting selects a match type exactly when its lower-cased form is that type's name. Any other setting yields the script's "not recognised" message. |
| MatchTypes.ParseIgnoresCase | shopping-positive-keywords.js:267-275 | Every setting whose ASCII lower-case form is a type's name selects that type. |
| MatchTypes.SettingExamples | shopping-positive-keywords.js:267-278 | "BMM", "Exact", "PHRASE" and "Broad" select their types. "loose" is rejected with the script's message. |
| MatchTypes.Encode | shopping-positive-keywords.js:267-276 | The encoding has no surrounding whitespace. Broad is the trimmed term. Phrase and exact are the trimmed term between `"…"` or `[…]`. Broad match modifier has one piece per space-separated piece of the term, each starting with `+`. |
| MatchTypes.BmmUntrimmedRoundTrip | shopping-positive-keywords.js:269-272 | Before the final trim, the broad-match-modifier form has exactly as many `+`-prefixed pieces as the term has space-separated pieces. Removing the `+` from each piece and re-joining gives back the term. |
| MatchTypes.BmmShape | shopping-positive-keywords.js:269-272 | The trimmed broad-match-modifier form equals the `+`-prefixed pieces of the term, with trailing whitespace removed from the last piece only, joined by spaces. Splitting it gives those pieces back. |
| MatchTypes.NotationOfPieces | shopping-positive-keywords.js:270-272 | For space-free pieces, trimming the joined `+`-prefixed pieces only strips the end of the last piece, and the result splits back into its pieces. |
| MatchTypes.BmmTwoWords | shopping-positive-keywords.js:269-272 | Two words separated by a space encode as the two words, each prefixed with `+`. An empty first word becomes a lone `+`. |
| MatchTypes.EncodeIgnoresSurroundingWhitespace | shopping-positive-keywords.js:267-276 | In the broad, phrase and exact notations, two terms encode alike if and only if they are equal after trimming. |
| MatchTypes.AddMatchType | shopping-positive-keywords.js:266-281 | The result is an error exactly when the setting names no match type, and the error carries the script's message. Otherwise the result is the term in the selected notation. |
| Classifier.FullCountIsPositionCount | shopping-positive-keywords.js:142-144 | The full count equals the number of list positions whose keyword the query contains, so a keyword listed twice counts twice. |
| Classifier.CountFrom | shopping-positive-keywords.js:188-199 | From a counter below the cap, the keyword loop ends at the smaller of the cap and (counter + number of remaining matching positions). The cap is the threshold, but at least one. |
| Classifier.MatchCount | shopping-positive-keywords.js:184-202 | The loop's counter never exceeds the full count, nor a positive threshold. It is below the threshold exactly when the full count is, so the early `break` does not change the decision. |
| Classifier.Classify | shopping-positive-keywords.js:176-208 | The queue is a subsequence of the report's queries, in report order. A query is in the queue if and only if it is in the report and holds fewer positive keywords than the threshold. |
| Classifier.ClassifyAppend | shopping-positive-keywords.js:181-207 | Classifying two parts of a report and concatenating the queues gives the queue of the whole report: each decision depends only on its own query. |
| Classifier.ClassifyMultiplicity | shopping-positive-keywords.js:181-207 | A query below the threshold occurs in the queue exactly as often as in the report. Any other query does not occur at all: nothing is deduplicated. |
| Classifier.EncodeAll | shopping-positive-keywords.js:211-216 | Encoding the queue fails exactly when the queue is non-empty and the setting names no match type. Otherwise each queued query yields one encoded keyword, in the same order. |
| Classifier.SubmitNegatives | shopping-positive-keywords.js:210-216 | The submission loop throws exactly when the queue is non-empty and the setting is not recognised. It then throws before anything is created. Otherwise it creates exactly the encoded queue, in order. |
| Classifier.ProcessPass | shopping-positive-keywords.js:176-216 | One campaign or ad-group pass fails exactly when some report query is below the threshold and the setting names no match type. Otherwise it yields the encoding of each queued query, in report order. |
| Classifier.ThresholdExample | shopping-positive-keywords.js:184-207 | With the keywords "red" and "running" and a threshold of two, "red running shoes" counts two and is spared, and "red shoes" counts one and is queued. |

## Left out

- The spreadsheet is out of the model: reading settings and keyword columns, cell coordinates, and the timestamp that orders the sheets. This is external I/O and date handling. The keyword list is an input sequence. The script collects it until the first empty cell; that cut-off is not modelled.
- The platform calls are out of the model: campaign and ad-group selectors, report iteration, and `createNegativeKeyword`. They are foreign calls. The report is the input query sequence. The created keywords are the output sequence of `SubmitNegatives`.
- Building the report query string (filters on clicks, conversions, ad group and date range) is left out. It only feeds an external query language, so the queries arrive already filtered.
- `log` and the log levels are left out, because they are console output only.
- The outer loops are left out: over sheets, over the ad-group columns of a sheet, and over the two campaign types ("Shopping" and "Text"). Each iteration runs the modelled pass again. The campaign-type loop reruns it on the same keywords and the same report query; for the type the campaign does not have, the platform lookup finds nothing and the pass is skipped. The stop at a zero or empty threshold cell is also left out.
- A thrown "not recognised" error ends the whole run, because nothing in the script catches it. The model stops at the pass that throws (`Classifier.SubmitNegatives`, `Classifier.ProcessPass`). It does not model what the throw skips: the remaining campaign types, ad-group columns and sheets, and the timestamp write for the current sheet. Negative keywords created by earlier passes stay created.
- Text.ToLower: lower-cases only the ASCII letters, while JavaScript's `toLowerCase` folds all of Unicode. This is exact for comparing with the four ASCII names, except for characters that fold to ASCII letters; the Kelvin sign is the only one that can matter, and none of the names contains a `k`.
- Strings are sequences of Unicode scalar values, while JavaScript indexes UTF-16 code units. So `indexOf` positions and lengths differ for characters outside the Basic Multilingual Plane. The whole-word test reads only the characters next to an occurrence, so its outcome is the same.
- Sheet values that are not strings are not modelled: keywords, the threshold and the match-type setting are all strings or integers here. A numeric keyword cell (such as 2019) is collected into the keyword list, but it never matches any query, not even an identical one. The strict `===` at line 247 does not coerce it. `indexOf` does coerce it and may find it, but the number has no `length`, so the position after the match is NaN and the boundary test fails. A query that only such a keyword would have spared is therefore queued as a negative keyword. A non-string match-type setting makes `toLowerCase` throw a different error from the one modelled. Thresholds that are not integers are not modelled either.
- Reconciling against existing negatives, stripping modifiers and deduplicating queued queries are not modelled, because the script has no such step. Every queued query is submitted as it is: a query seen twice is submitted twice (`Classifier.ClassifyMultiplicity`), and nothing checks whether the negative keyword already exists.
- Text.Split: the contract states only that there is at least one piece, and that the empty string gives one empty piece. The piece count is in `Text.SplitCount`, the content in `Text.SplitPiecesLackSeparator`, and the round trips with `Text.Join` in `Text.JoinSplit` and `Text.SplitJoin`.
- Text.Join: the contract states the empty and one-piece cases and the length. The order of the pieces is not in it: `Text.JoinAppend` fixes the content, and `Text.JoinSplit` and `Text.SplitJoin` tie it to `Text.Split`.
- MatchTypes.Encode: for broad match modifier, the contract gives the piece count and the `+` on every piece. The full shape is in `MatchTypes.BmmShape`, and a concrete two-word case is in `MatchTypes.BmmTwoWords`.
