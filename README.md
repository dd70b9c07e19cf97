# Duplicate detection of the content-management backend, in Dafny

This project models the duplicate-detection core of a content-management backend (Node.js) and proves properties of that model. Users submit texts. The backend cuts each text into paragraphs and reports two kinds of repeat:

- paragraphs that repeat inside the text;
- paragraphs that match, or nearly match, paragraphs of texts stored earlier.

A companion flow compares crawled web pages against the stored texts. A utility scores paragraph pairs of two texts by edit distance.

The modules follow the source files:

| module | file | models |
|---|---|---|
| `JsStrings` | `js_strings.dfy` | the JavaScript string primitives used: `split` with a string separator, `join`, `trim` and the `\s` white-space set of ECMAScript |
| `Segmenter` | `segmenter.dfy` | `splitIntoParagraphs`: split on runs of line feeds, then split chunks longer than 100 characters at every period followed by white space, trim the pieces and drop the empty ones |
| `CrossEntry` | `cross_entry.dfy` | `detectDuplicatesAcrossEntries`: the exact pass and the similar pass over every stored entry, with the de-duplication guard |
| `CrawlBatch` | `crawl.dfy` | `compareCrawledContent`: one result per crawled page |
| `SelfDuplicates` | `self_duplicates.dfy` | `detectDuplicates`: a hash-set scan over the blank-line paragraphs of one text |
| `Levenshtein` | `levenshtein.dfy` | the edit distance of `fastest-levenshtein`, as a specification function |
| `ContentComparison` | `content_comparison.dfy` | `compareContent`: every (stored, crawled) paragraph pair whose similarity exceeds 0.8 |

The imperative loops stay imperative. Each is a method whose loop invariants tie the accumulated array to a specification function that follows the loop order: `ExternalDuplicates`, `Scan`, `Matches` or `ContentsOf`. The properties are then lemmas about those functions.

Three helpers of the detection service are function parameters: `hashParagraph`, `detectDuplicatesInText` and `detectSimilarSections`. The service imports them from `src/utils/duplicateDetection.js` (line 51), but that file exports only `detectDuplicates` (line 24). It defines `hashParagraph` without exporting it and does not define the other two. The model treats all three as existing helpers.

The stored entries, which the service reads from the database, are an input sequence. The MD5 hash is a parameter of any equality type. `compareCrawledContent`'s detector is a parameter with the stored entries already bound.

Behaviour of the code that the model keeps:

- **Empty text.** An empty text gives one empty paragraph (`EmptyTextIsOneParagraph`).
- **The similar-pass guard.** A similar record is skipped when any record collected so far has the same index pair. That includes records from all earlier entries and of both kinds, and `sourceUuid` is not compared. So a similar match in a later entry can be suppressed by a record of an earlier one (`GuardSpansEntries`).
- **Crawl errors.** A page without content gets the fixed error text `No content crawled`, whatever error the crawler reported.

## Model

| member | source | states |
|---|---|---|
| JsStrings.Split | src/utils/duplicateDetection.js:8 | `split` with a string separator gives at least one piece, and its first piece is a prefix of the text |
| JsStrings.JoinSplit | src/utils/duplicateDetection.js:8 | joining the pieces of a split with the same separator gives back the text |
| JsStrings.SplitPiecesAvoidSeparator | src/utils/duplicateDetection.js:8 | no piece of a split contains the separator |
| JsStrings.SplitLeftmost | src/utils/duplicateDetection.js:8 | `split` cuts at the leftmost separator each time: no occurrence of the separator starts inside a piece and runs into the separator after it |
| JsStrings.SplitBlankLines | src/utils/contentComparison.js:4-5 | splitting on the literal `"\n\n"` gives at least one piece, the pieces join back into the text, none of them contains `"\n\n"`, and each cut is at the leftmost separator |
| JsStrings.TrimStart | src/services/duplicateDetectionService.js:133 | the result is a suffix of the input, does not start with white space, and only white space was removed |
| JsStrings.TrimEnd | src/services/duplicateDetectionService.js:133 | the result is a prefix of the input, does not end with white space, and only white space was removed |
| JsStrings.Trim | src/services/duplicateDetectionService.js:133 | `trim` removes exactly the leading and trailing white space: the result is a contiguous stretch of the input with only white space before and after it, and it neither starts nor ends with white space; an already-trimmed string is unchanged |
| Segmenter.DropNewlines | src/services/duplicateDetectionService.js:127 | dropping the leading run removes only line feeds, and what is left does not start with one |
| Segmenter.DropNewlinesSuffix | src/services/duplicateDetectionService.js:127 | what is left after the leading run is the end of the text |
| Segmenter.SplitNewlineRuns | src/services/duplicateDetectionService.js:127 | `split(/\n+/)` gives at least one piece, no piece holds a line feed, every inner piece is non-empty, and a text not starting with a line feed keeps its first character in the first piece |
| Segmenter.SplitNewlineRunsSingle | src/services/duplicateDetectionService.js:127 | a text without line feeds is one piece, itself |
| Segmenter.SplitNewlineRunsAfterLine | src/services/duplicateDetectionService.js:127 | a line followed by a line feed is split off whole, and the rest is split after its leading line feeds |
| Segmenter.SplitNewlineRunsJoin | src/services/duplicateDetectionService.js:127 | lines without line feeds, whose inner lines are non-empty, come back unchanged from splitting their join by `"\n"` |
| Segmenter.SplitSentences | src/services/duplicateDetectionService.js:133 | `split(/\.(?=\s)/)` gives at least one piece, and its first piece is a prefix of the chunk |
| Segmenter.SentencesStartWithSpace | src/services/duplicateDetectionService.js:133 | the first sentence is non-empty unless the chunk is empty or starts with a break, and every later sentence is non-empty and starts with the white space that followed the dropped period |
| Segmenter.SentencesFromChunk | src/services/duplicateDetectionService.js:133 | every sentence is made of characters of the chunk |
| Segmenter.JoinSplitSentences | src/services/duplicateDetectionService.js:133 | putting the consumed periods back between the sentences gives the chunk again |
| Segmenter.SentencesHaveNoBreak | src/services/duplicateDetectionService.js:133 | no sentence still holds a period followed by white space |
| Segmenter.KeepNonEmpty | src/services/duplicateDetectionService.js:133 | `.filter(Boolean)` keeps exactly the non-empty strings, in their order and each as often as in the input: the result is a subsequence of the input whose multiset is the input's with `""` removed |
| Segmenter.LongChunkPieces | src/services/duplicateDetectionService.js:131-133 | every piece of a chunk longer than 100 characters is non-empty, has no leading or trailing white space, and is made of characters of the chunk |
| Segmenter.SegmentChunkNoNewline | src/services/duplicateDetectionService.js:130-136 | a chunk without line feeds gives pieces without line feeds |
| Segmenter.SegmentChunksNoNewline | src/services/duplicateDetectionService.js:130-136 | the flat map over chunks without line feeds gives paragraphs without line feeds |
| Segmenter.SegmentChunk | src/services/duplicateDetectionService.js:131-135 | the `flatMap` callback: a chunk of at most 100 characters stays whole, a longer one becomes its trimmed non-empty sentences (its properties: `LongChunkPieces`, `SegmentChunkNoNewline`, `SegmentShortUnit`) |
| Segmenter.SegmentChunks | src/services/duplicateDetectionService.js:130-136 | the `flatMap` itself, chunk by chunk in order (its property: `SegmentChunksAppend`) |
| Segmenter.SplitIntoParagraphs | src/services/duplicateDetectionService.js:125-139 | the `/\n+/` chunks run through the `flatMap`; no paragraph returned contains a line feed |
| Segmenter.SegmentChunksAppend | src/services/duplicateDetectionService.js:130-136 | the output is the in-order concatenation of the per-chunk results: segmenting `a + b` gives the paragraphs of `a` followed by those of `b` |
| Segmenter.ParagraphsOfLines | src/services/duplicateDetectionService.js:125-139 | a text built from lines is segmented chunk by chunk, in line order |
| Segmenter.ShortChunkKept | src/services/duplicateDetectionService.js:127-135 | every chunk of the `/\n+/` split with at most 100 characters, even an empty one, appears unchanged in the result, right after the paragraphs of the chunks before it |
| Segmenter.EmptyTextIsOneParagraph | src/services/duplicateDetectionService.js:127-135 | the empty text gives exactly one empty paragraph |
| Segmenter.SegmentShortUnit | src/services/duplicateDetectionService.js:131-135 | a paragraph without line feeds of at most 100 characters segments to itself, so segmenting such units is idempotent |
| CrossEntry.ExactAt | src/services/duplicateDetectionService.js:77-86 | one step of the exact `forEach`: a record for the stored paragraph exactly when its hash is in `newHashes` (its properties: `ExactPassRecords`) |
| CrossEntry.ExactPass | src/services/duplicateDetectionService.js:76-87 | the exact `forEach` over the first `n` stored paragraphs, in index order (its properties: `ExactPassRecords`) |
| CrossEntry.HasPair | src/services/duplicateDetectionService.js:94 | the `some` test of the guard: a record with this `(sourceParagraphIndex, newTextIndex)` exists (its property: `HasPairExtends`) |
| CrossEntry.ExternalDuplicates | src/services/duplicateDetectionService.js:72-106 | `externalDuplicates` after the first `n` entries of the outer loop (its properties: the `ExternalDuplicates…` lemmas below) |
| CrossEntry.SimilarAt | src/services/duplicateDetectionService.js:92-102 | one step of the similar pass only appends to `externalDuplicates` |
| CrossEntry.SimilarRow | src/services/duplicateDetectionService.js:91-104 | the inner loop only appends |
| CrossEntry.SimilarPass | src/services/duplicateDetectionService.js:90-105 | the similar pass only appends |
| CrossEntry.CompareEntry | src/services/duplicateDetectionService.js:73-105 | comparing one entry only appends |
| CrossEntry.DetectDuplicatesAcrossEntries | src/services/duplicateDetectionService.js:60-109 | `internalDuplicates` is returned exactly as the helper produced it, and `externalDuplicates` is the records of the entries compared in order with the new text's paragraphs and hash table |
| CrossEntry.AppendExactMatches | src/services/duplicateDetectionService.js:76-87 | the exact `forEach` appends the exact-pass records of the entry, in paragraph order |
| CrossEntry.AppendSimilarMatches | src/services/duplicateDetectionService.js:90-105 | the nested similar loops extend `externalDuplicates` as the similar pass does, with the guard applied against everything accumulated so far |
| CrossEntry.ExactPassRecords | src/services/duplicateDetectionService.js:76-87 | the exact pass gives only `exact` records, one exactly for each stored paragraph whose hash is in `newHashes`, with `newTextIndex == newHashes[hash]` and the entry's `uuid`, in increasing paragraph index |
| CrossEntry.SimilarRowSound | src/services/duplicateDetectionService.js:91-102 | every record the inner loop adds is a `similar` record of this entry whose pair passes the predicate, with `j < |newParagraphs|` |
| CrossEntry.SimilarPassSound | src/services/duplicateDetectionService.js:90-105 | every record the similar pass adds is a `similar` record whose indices are in bounds and whose pair passes the predicate |
| CrossEntry.CompareEntrySound | src/services/duplicateDetectionService.js:73-105 | every record added for an entry describes that entry: its `uuid`, an in-bounds paragraph index and that paragraph, and a reason (hash hit or predicate) |
| CrossEntry.ExternalDuplicatesSound | src/services/duplicateDetectionService.js:72-106 | every element of `externalDuplicates` is a record of one of the entries compared so far |
| CrossEntry.SimilarRowFresh | src/services/duplicateDetectionService.js:94 | the inner loop never adds a `similar` record for an index pair that already carries a record |
| CrossEntry.SimilarPassFresh | src/services/duplicateDetectionService.js:94 | the similar pass keeps that guard invariant |
| CrossEntry.ExternalDuplicatesFresh | src/services/duplicateDetectionService.js:90-103 | no `similar` record shares its `(sourceParagraphIndex, newTextIndex)` with any earlier record, from any entry and of either kind |
| CrossEntry.ExternalDuplicatesAppendOnly | src/services/duplicateDetectionService.js:63 | `externalDuplicates` only grows: after more entries it extends what it was after fewer |
| CrossEntry.SimilarRowCovers | src/services/duplicateDetectionService.js:91-103 | after the inner loop, every pair passing the predicate carries some record |
| CrossEntry.SimilarPassCovers | src/services/duplicateDetectionService.js:90-105 | after the similar pass, every pair of the entry passing the predicate carries some record |
| CrossEntry.ExternalDuplicatesCoverSimilarPairs | src/services/duplicateDetectionService.js:72-106 | every pair passing the predicate, in any entry compared so far, carries some record at the end: its own `similar` record or the one that made the guard skip it |
| CrossEntry.GuardSpansEntries | src/services/duplicateDetectionService.js:94 | for two entries with the same paragraph, the second entry's passing pair gets no record of its own, because the first entry already recorded that index pair |
| CrawlBatch.CompareCrawledContent | src/services/duplicateDetectionService.js:146-160 | one result per page, same order and `url`; an error exactly for pages with absent or empty content, with text `No content crawled`; detection sees exactly the contents of the other pages; and every report's `duplicates` is undefined |
| CrawlBatch.CompareCrawledContentIntended | src/services/duplicateDetectionService.js:146-160 | the same, except that every report carries the detector's result for its page |
| CrawlBatch.ContentsOf | src/services/duplicateDetectionService.js:149-155 | the texts handed to detection, in page order, one per page with truthy content (its property: `ContentsOfNonEmpty`) |
| CrawlBatch.DuplicatesProperty | src/services/duplicateDetectionService.js:155 | the destructured `duplicates` of the detector's result, which has no such property, so always `undefined` |
| CrawlBatch.ContentsOfNonEmpty | src/services/duplicateDetectionService.js:150-155 | detection is never run on empty text, and is run on no more texts than there are pages |
| CrawlBatch.FailedFetchNotInspected | src/services/duplicateDetectionService.js:150-153 | in the two-page example, the page whose fetch failed with its own error is not among the texts given to detection |
| SelfDuplicates.Scan | src/utils/duplicateDetection.js:12-19 | the reports after the first `n` paragraphs of the `forEach` (its properties: `ScanShape`, `ScanReportsRepeats`, `ScanCount`) |
| SelfDuplicates.DetectDuplicates | src/utils/duplicateDetection.js:7-22 | the method returns the scan of the blank-line paragraphs, and its hash set equals the hashes of the paragraphs seen so far (loop invariant) |
| SelfDuplicates.ScanShape | src/utils/duplicateDetection.js:12-15 | reported indices are within bounds and strictly increasing, and each reported `paragraph` is the paragraph at its index |
| SelfDuplicates.ScanReportsRepeats | src/utils/duplicateDetection.js:12-19 | index `k` is reported exactly when an earlier paragraph has the same hash |
| SelfDuplicates.ScanCount | src/utils/duplicateDetection.js:9-19 | the number of reports plus the number of distinct hashes equals the number of paragraphs |
| SelfDuplicates.FirstParagraphNeverReported | src/utils/duplicateDetection.js:14-17 | the first paragraph is never reported |
| Levenshtein.Distance | src/utils/contentComparison.js:10 | the edit distance by the textbook recurrence on the last characters (its properties: the lemmas below) |
| Levenshtein.DistanceAtMostLonger | src/utils/contentComparison.js:10 | the distance is at most the longer length |
| Levenshtein.DistanceAtLeastLengthGap | src/utils/contentComparison.js:10 | the distance is at least the difference of the lengths |
| Levenshtein.DistanceToSelf | src/utils/contentComparison.js:10 | a string is at distance 0 from itself |
| Levenshtein.DistanceZeroMeansEqual | src/utils/contentComparison.js:10 | distance 0 means the strings are equal |
| Levenshtein.DistanceZeroIffEqual | src/utils/contentComparison.js:10 | the distance is 0 exactly when the strings are equal |
| Levenshtein.DistanceSymmetric | src/utils/contentComparison.js:10 | the distance does not depend on argument order |
| ContentComparison.Score | src/utils/contentComparison.js:10 | the score `1 - d/m` lies in `[0, 1]` and is 1 exactly for equal paragraphs |
| ContentComparison.Close | src/utils/contentComparison.js:10-11 | the test of the inner loop, false when both paragraphs are empty (`0/0` is NaN) (its property: `CloseIffFifth`) |
| ContentComparison.Row | src/utils/contentComparison.js:9-12 | the reports of the inner loop over the first `n` crawled paragraphs (its properties: `RowShape`, `RowComplete`) |
| ContentComparison.Matches | src/utils/contentComparison.js:8-12 | the reports after the first `m` stored paragraphs (its properties: `MatchesShape`, `MatchesComplete`) |
| ContentComparison.CompareContent | src/utils/contentComparison.js:3-18 | the method returns the reports of the nested loops over both blank-line paragraph lists |
| ContentComparison.CloseIffFifth | src/utils/contentComparison.js:10-11 | the test `1 - d/m > 0.8`, false when `m == 0` (NaN), holds exactly when `5 d < m` |
| ContentComparison.ThresholdOnReals | src/utils/contentComparison.js:10-11 | for `m > 0`, `1 - d/m > 0.8` exactly when `5 d < m` |
| ContentComparison.RowShape | src/utils/contentComparison.js:9-12 | the inner loop reports only passing pairs of its stored paragraph, with their scores, in increasing crawled index |
| ContentComparison.MatchesShape | src/utils/contentComparison.js:8-12 | all reports have in-bounds indices and passing pairs with their scores, ordered by stored index, then crawled index |
| ContentComparison.RowComplete | src/utils/contentComparison.js:9-12 | the inner loop reports every passing pair of its row |
| ContentComparison.MatchesComplete | src/utils/contentComparison.js:8-12 | every passing pair of the examined prefix is reported |
| ContentComparison.CompareContentMeaning | src/utils/contentComparison.js:8-12 | a pair is reported exactly when it passes the test, with its score; all pairs are examined, and the reports are in row-major order |
| ContentComparison.ScoreBounds | src/utils/contentComparison.js:10-12 | every reported score lies in (0.8, 1] |
| ContentComparison.EmptyPairNotClose | src/utils/contentComparison.js:10-11 | two empty paragraphs are never reported |
| ContentComparison.IdenticalClose | src/utils/contentComparison.js:10-12 | identical non-empty paragraphs are always reported, with score 1 |

## Left out

- Database access: `TextEntry.find` and `updateDuplicateFlags`/`findByIdAndUpdate`. The stored entries are an input, and the flag update is not modelled.
- `hashParagraph`, `detectDuplicatesInText`, `detectSimilarSections`: these are parameters. The shingling and Jaccard similarity they stand for have no code in the modelled files.
- The failing import: as written, `detectDuplicatesInText` and `detectSimilarSections` are undefined and `hashParagraph` is not exported (`src/services/duplicateDetectionService.js:51` against `src/utils/duplicateDetection.js:24`). So line 62 throws a `TypeError` on every call, and `compareCrawledContent` rejects at the first page with content. The model describes the service as if the three helpers existed.
- MD5: the hash is an uninterpreted function.
- `fastest-levenshtein`: a library call. It is specified by the textbook edit-distance recurrence, not modelled as code.
- Levenshtein.Distance: works on whole characters. The library and `length` count UTF-16 code units, so strings outside the Basic Multilingual Plane are not modelled.
- Segmenter.SegmentChunk: compares the chunk's character count with 100. JavaScript's `length` counts UTF-16 code units, so the two differ for characters outside the Basic Multilingual Plane.
- ContentComparison.Score: uses exact rationals. IEEE-754 rounding at the 0.8 boundary is not modelled.
- `async`/`await`: every await is sequential, so awaits are plain calls.
- The crawler (Puppeteer), the Express routes, controllers, validation, rate limiting and API documentation: these are I/O and wiring around the core.
- CrawlBatch.CompareCrawledContent: the detector's stored entries are fixed for the batch. The query without a user id that the code issues per page is not modelled.
- Truthiness of `content`: only an absent value and the empty string are falsy here. Non-string values a crawler could return are not modelled.

## Findings

| source | as written | input that shows it | evidently intended | confidence | as-written member | corrected member |
|---|---|---|---|---|---|---|
| src/services/duplicateDetectionService.js:155 | the crawl loop reads a `duplicates` property from the detector's result, which has only `internalDuplicates` and `externalDuplicates` (:108), so every report carries `duplicates: undefined` | one page `{url: "a", content: "hello"}` against a stored entry containing "hello": the detector finds an exact match, but the report for "a" carries nothing | each report carries the detection result for its page | high; not executed | CrawlBatch.CompareCrawledContent | CrawlBatch.CompareCrawledContentIntended |
