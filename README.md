# Rabin–Karp plagiarism detector, modelled in Dafny

This project models the matching engine of a plagiarism checker. The engine compares a source text with a suspect text:

- It normalises both texts and splits them into words.
- It indexes every window of `W` consecutive source words by a polynomial hash with BASE 256 and PRIME 101.
- It slides a window over the suspect words. A window whose joined text equals a source window (found through its hash bucket, first candidate wins) is an *exact* match.
- Otherwise, the lowest source window that shares at least ceil(0.6 W) but fewer than W of its words makes it a *partial* match.
- It keeps a trace of the first 20 windows and labels every suspect word with the first match that covers it.
- It reports the rounded percentage of marked words.
- When the effective window is shorter than two words, it falls back to word-by-word membership in the source vocabulary.

The project has six modules:

- `Wrappers`: an `Option` type.
- `Text`: strings as sequences of UTF-16 code units, with `toLowerCase`, the two regular-expression replacements, `trim`, `split` and `join`.
- `Hashing`: `calculateHash` and `computeH` as loop methods, and `recalculateHash` as a function with its rolling-update lemma.
- `Matching`: the records, plus a reference definition of what `detectPlagiarism` returns (`Analyze`), built from:
  - the pattern index (`Bucket`);
  - the per-window verdict (`Resolve`);
  - the marked positions (`MarkedBelow`), matches (`MatchesBelow`) and trace (`StepsBelow`);
  - the per-word labels (`Annotate`) and the score (`Percentage`).
- `Detector`: `detectPlagiarism` and `singleWordMatch` written imperatively, as the source runs them. The candidate index is a `map` value that every insertion reassigns, `matches` and the trace are appended to, the `matchedIndices` set grows, and the loops stop at the first hit. Each method is proved to compute the reference definition.
- `Properties`: what the result means, proved about `Analyze`.

Numeric conventions:

- `Math.ceil(W * 0.6)` is modelled as `(3W + 4) / 5`.
- `Math.round(m / n * 100)` is modelled as `(200m + n) / (2n)`. This is exact round-half-up of the rational value m/n·100; the source rounds a double, which differs at some exact halves (see Left out).
- JavaScript's `%` keeps the sign of the dividend; `Hashing.JsRem` models it.

## Model

| member | source | states |
|---|---|---|
| Text.Lower | src/lib/rabinKarp.ts:79 | lower-casing one code unit never yields an upper-case letter and leaves whitespace and [a-z0-9_] unchanged |
| Text.LowerCase | src/lib/rabinKarp.ts:79 | `toLowerCase()` leaves no upper-case letter and never shortens the text; `Text.LowerCaseAppend` and `Text.LowerCaseOfToken` pin down the rest |
| Text.LowerCaseAppend | src/lib/rabinKarp.ts:79 | `toLowerCase()` works code unit by code unit: the lower-cased concatenation is the concatenation of the lower-cased parts, so order is kept and nothing is added between units |
| Text.LowerCaseOfToken | src/lib/rabinKarp.ts:79 | lower-casing text made only of whitespace and [a-z0-9_] changes nothing (so "a b" stays "a b"; this is also why the `toLowerCase()` of line 264 is the identity on extracted words) |
| Text.StripNonWord | src/lib/rabinKarp.ts:79 | removing `[^\w\s]` keeps only word characters and whitespace of the input, and never lengthens it |
| Text.StripNonWordOfClean | src/lib/rabinKarp.ts:79 | stripping is the identity on text made only of word characters and whitespace |
| Text.StripNonWordCounts | src/lib/rabinKarp.ts:79 | every word character and whitespace code unit is kept exactly as often as it occurs, and every other code unit is removed |
| Text.StripNonWordAppend | src/lib/rabinKarp.ts:79 | stripping distributes over concatenation, so the kept code units stay in their order |
| Text.Words | src/lib/rabinKarp.ts:79-84 | the reference word list, the maximal runs of non-whitespace: every word is non-empty and has no whitespace, and text starting with a non-space has a word |
| Text.SkipSpaces | src/lib/rabinKarp.ts:79 | the result is a suffix of the input, with exactly the leading whitespace removed and every non-space character kept |
| Text.TrimEnd | src/lib/rabinKarp.ts:79 | the result is a prefix of the input, with exactly the trailing whitespace removed and every non-space character kept |
| Text.CollapseWhitespace | src/lib/rabinKarp.ts:79 | after `replace(/\s+/g, ' ')` no two whitespace characters are adjacent; every whitespace character is U+0020; the non-space characters are the input's, in order; empty iff the input is empty; it starts with whitespace iff the input does, and (`Text.CollapseTrailing`) ends with whitespace iff the input does |
| Text.CollapseTrailing | src/lib/rabinKarp.ts:79 | after `replace(/\s+/g, ' ')` the text ends in whitespace exactly when the input did, so a trailing run is collapsed, not dropped |
| Text.Trim | src/lib/rabinKarp.ts:79 | `trim()` leaves no whitespace at either end, keeps single spacing, and keeps the non-space characters in order |
| Text.TrimIsSlice | src/lib/rabinKarp.ts:79 | `trim()` returns a contiguous slice of the text and only whitespace lies outside it |
| Text.WordsTrim | src/lib/rabinKarp.ts:79 | `trim()` keeps the words of the text |
| Text.WordsCollapse | src/lib/rabinKarp.ts:79 | `replace(/\s+/g, ' ')` keeps the words of the text: no word is split, merged or dropped |
| Text.NormalizeText | src/lib/rabinKarp.ts:78-80 | the normalised text is exactly the words of the lower-cased, stripped input joined by single spaces; it has only [a-z0-9_] and single interior spaces |
| Text.Join | src/lib/rabinKarp.ts:126 | `join(' ')`; its partners `Text.SplitJoin`, `Text.JoinSplit` and `Text.JoinInjective` state what it means |
| Text.Split | src/lib/rabinKarp.ts:84 | `split(' ')` always returns at least one piece |
| Text.NonEmptyWords | src/lib/rabinKarp.ts:84 | `filter(word => word.length > 0)` keeps only non-empty pieces of the input, and keeps the whole list when none is empty |
| Text.NonEmptyWordsKeeps | src/lib/rabinKarp.ts:84 | `filter(word => word.length > 0)` keeps every non-empty piece |
| Text.NonEmptyWordsAppend | src/lib/rabinKarp.ts:84 | the filter works piece by piece: filtering a concatenation is concatenating the filtered parts, so order and repeats are kept |
| Text.SplitWords | src/lib/rabinKarp.ts:84 | on text whose only whitespace is U+0020, the non-empty pieces of `split(' ')` are exactly its words |
| Text.SplitPieces | src/lib/rabinKarp.ts:84 | every piece of `split(' ')` is space-free and made of the text's code units |
| Text.JoinSplit | src/lib/rabinKarp.ts:84 | `split(' ')` followed by `join(' ')` gives back the text |
| Text.SplitJoin | src/lib/rabinKarp.ts:126 | `join(' ')` followed by `split(' ')` gives back a non-empty list of space-free words |
| Text.JoinInjective | src/lib/rabinKarp.ts:126 | two non-empty lists of space-free words with equal joined text are equal |
| Text.ExtractWords | src/lib/rabinKarp.ts:83-85 | the tokens are exactly the words (maximal non-whitespace runs) of the lower-cased, stripped text, in order; every token is non-empty and made only of [a-z0-9_] |
| Text.JoinExtractWords | src/lib/rabinKarp.ts:83-85 | joining the tokens with single spaces gives exactly the normalised text, so tokenisation loses nothing |
| Hashing.HashOf | src/lib/rabinKarp.ts:41-47 | the Horner hash of a string lies in [0, 101) |
| Hashing.HashIsPolyMod | src/lib/rabinKarp.ts:41-47 | the Horner hash equals the polynomial sum of code unit times 256^position, reduced modulo 101 |
| Hashing.CalculateHash | src/lib/rabinKarp.ts:41-47 | the loop returns the hash of the first `length` code units |
| Hashing.ComputeH | src/lib/rabinKarp.ts:68-75 | the loop returns 256^(n-1) mod 101, and 1 when n <= 1 |
| Hashing.JsRem | src/lib/rabinKarp.ts:57-58 | JavaScript's `%` by 101 is congruent to the dividend, lies strictly between -101 and 101, and takes the dividend's sign |
| Hashing.RecalculateHash | src/lib/rabinKarp.ts:50-66 | after the negative-remainder correction the rolling update lies in [0, 101) and is the true residue of the update formula |
| Hashing.RollingHash | src/lib/rabinKarp.ts:49-75 | given the hash of `s` and h = computeH(\|s\|), the rolling update equals the hash of `s` with its first code unit dropped and `c` appended |
| Matching.Percentage | src/lib/rabinKarp.ts:247-250 | the integer score formula: 0 when there are no suspect words, and within [0, 100] when matched <= total |
| Matching.PercentageRounds | src/lib/rabinKarp.ts:249 | the integer formula gives the nearest integer to the exact rational 100·matched/total, with halves rounded up |
| Matching.Threshold | src/lib/rabinKarp.ts:190 | the partial-match threshold is the least t with t >= 0.6·W |
| Matching.Bucket | src/lib/rabinKarp.ts:123-133 | a hash bucket holds exactly the source windows whose text hashes to it, in increasing start order |
| Matching.FirstEqual | src/lib/rabinKarp.ts:152-173 | the candidate loop finds the first candidate whose text equals the window, or reports that none does |
| Matching.LowestEqualWindow | src/lib/rabinKarp.ts:149-175 | the reference exact lookup finds the lowest source window whose text equals the suspect window, or reports that none exists |
| Matching.BucketFindsLowestWindow | src/lib/rabinKarp.ts:149-175 | the first equal candidate in the window's hash bucket is the lowest equal source window, and none is found iff no source window is equal; hash collisions change nothing |
| Matching.IsPartial | src/lib/rabinKarp.ts:190 | the partial-match test ceil(0.6 W) <= overlap < W; `Matching.PartialFrom` and `Matching.ResolveMeaning` state what it decides |
| Matching.Overlap | src/lib/rabinKarp.ts:183-188 | the overlap count never exceeds the window size; `Matching.OverlapCounts` gives its exact value |
| Matching.OverlapCounts | src/lib/rabinKarp.ts:183-188 | the overlap is the number of positions of the suspect window whose word `origWindow.includes`, repeats counted |
| Matching.PartialFrom | src/lib/rabinKarp.ts:179-213 | the partial scan returns the lowest source window at or after `j` whose overlap c satisfies ceil(0.6W) <= c < W, or none if no window qualifies |
| Matching.Resolve | src/lib/rabinKarp.ts:143-214 | a found source window lies inside the source text; `Matching.ResolveMeaning` states the verdict |
| Matching.ResolveMeaning | src/lib/rabinKarp.ts:143-214 | an exact verdict names the lowest source window with equal text; a partial verdict names the lowest partial window and is given only when no source window has equal text; no verdict iff no source window is equal or partial |
| Matching.MarkedBy | src/lib/rabinKarp.ts:159-162 | a resolved window marks only positions inside itself |
| Matching.MarkedBelow | src/lib/rabinKarp.ts:101 | every marked index is a valid suspect word position |
| Matching.MatchOf | src/lib/rabinKarp.ts:164-171 | the record pushed for a resolved window; `Properties.MatchMeaning` states its fields |
| Matching.StepOf | src/lib/rabinKarp.ts:218-227 | the trace step of a window; `Properties.StepMeaning` states its fields |
| Matching.FirstCovering | src/lib/rabinKarp.ts:234 | `matches.find` returns the first match in production order whose [start, end] holds the index, or none if no match holds it |
| Matching.Span | src/lib/rabinKarp.ts:160-162 | the marked range [lo, hi) has exactly hi - lo members |
| Matching.Windowed | src/lib/rabinKarp.ts:122-259 | the reference windowed result; `Properties.ResultShape`, `Properties.SegmentLabel` and the match lemmas state what it holds |
| Matching.SingleWord | src/lib/rabinKarp.ts:263-287 | the reference fallback result; `Properties.FallbackMode` states what it holds |
| Matching.Analyze | src/lib/rabinKarp.ts:99-259 | the reference value of `detectPlagiarism` on the two word lists, which every Detector method computes; the Properties lemmas state what it holds |
| Matching.FallbackSegments | src/lib/rabinKarp.ts:268-275 | there is one fallback segment per suspect word, in order |
| Matching.CountMembers | src/lib/rabinKarp.ts:266-275 | the fallback count never exceeds the number of suspect words |
| Detector.BuildPatterns | src/lib/rabinKarp.ts:122-133 | the candidate map (a map value reassigned at every insertion) has, under every hash, exactly the bucket of source windows with that hash, in insertion order |
| Detector.FindCandidate | src/lib/rabinKarp.ts:152-174 | the loop with its `break` stops at the first candidate whose text is the window |
| Detector.CountOverlap | src/lib/rabinKarp.ts:183-188 | the counting loop computes the overlap |
| Detector.FindPartial | src/lib/rabinKarp.ts:179-213 | the scan with its `break` finds the lowest partial source window |
| Detector.MarkWindow | src/lib/rabinKarp.ts:160-162 | an exact match adds every index of [i, i + W) to the set |
| Detector.MarkMembers | src/lib/rabinKarp.ts:197-201 | a partial match adds exactly the window indices whose word the source window includes |
| Detector.ExactMatch | src/lib/rabinKarp.ts:148-175 | the bucket lookup reports an exact match exactly when the reference verdict is exact, with the same source index |
| Detector.PartialMatch | src/lib/rabinKarp.ts:177-214 | when there is no exact match, the scan reports the reference partial verdict |
| Detector.MatchWindow | src/lib/rabinKarp.ts:143-214 | one window appends its match, if any, and adds its marked positions to the set, as the reference defines them |
| Detector.ScanWindow | src/lib/rabinKarp.ts:139-230 | one iteration of the window loop advances matches, trace and marked set from window i to window i + 1 |
| Detector.WindowedMatch | src/lib/rabinKarp.ts:122-259 | the window loop returns the reference windowed result |
| Detector.SingleWordMatch | src/lib/rabinKarp.ts:263-287 | the fallback loop returns the reference fallback result |
| Detector.DetectInWords | src/lib/rabinKarp.ts:99-259 | the body returns the reference result: the degenerate case, the fallback, or the window loop |
| Detector.DetectPlagiarism | src/lib/rabinKarp.ts:88-260 | the whole detector, with `windowSize` defaulting to 5, returns `Analyze` of the two token lists |
| Properties.MatchesSound | src/lib/rabinKarp.ts:164-171 | every match comes from a resolved suspect window inside the text, and is that window's record |
| Properties.MatchesOrdered | src/lib/rabinKarp.ts:139-230 | matches appear in strictly increasing start order |
| Properties.MatchesComplete | src/lib/rabinKarp.ts:139-214 | every resolved suspect window has a match |
| Properties.MatchMeaning | src/lib/rabinKarp.ts:164-171 | every match has end = start + W - 1 inside the text; its text and hash are those of its suspect window; an exact match's source window has equal text and is the lowest such; a partial match's source is the lowest partial window and no source window is equal |
| Properties.MarkedByMeaning | src/lib/rabinKarp.ts:159-162 | a resolved window marks position k iff k lies in the window and the match is exact or the source window includes the word at k |
| Properties.MarkedBelowHolds | src/lib/rabinKarp.ts:101 | positions marked by any scanned window stay in `matchedIndices` |
| Properties.MarkerOf | src/lib/rabinKarp.ts:101 | every marked position was marked by some scanned window |
| Properties.StepsAreFirstWindows | src/lib/rabinKarp.ts:216-229 | the trace has min(windows, 20) steps, and step t records window t |
| Properties.StepMeaning | src/lib/rabinKarp.ts:218-227 | step i is numbered i+1 and records the window's text and hash; matched iff the window is resolved; the source text when matched, and none otherwise |
| Properties.SegmentLabel | src/lib/rabinKarp.ts:233-245 | word k takes the verdict and source of the lowest resolved window covering it, and is 'original' when no resolved window covers it |
| Properties.CoveredIsLabelled | src/lib/rabinKarp.ts:233-245 | a word inside a resolved window is never labelled 'original' |
| Properties.MarkedIsCovered | src/lib/rabinKarp.ts:159-201 | a marked position lies inside a resolved window |
| Properties.ResultShape | src/lib/rabinKarp.ts:103-259 | in every mode: totalWords = \|suspect\|, matchedWords <= totalWords, the score is the rounded share of matched words within [0, 100], one segment per suspect word with its text, and at most 20 trace steps |
| Properties.EmptyInput | src/lib/rabinKarp.ts:103-112 | if either word list is empty: score 0, nothing matched, no matches or steps, every word 'original' |
| Properties.FallbackMode | src/lib/rabinKarp.ts:115-120 | in the fallback: no matches or steps, no source indices, labels only 'exact' or 'original', 'exact' iff some source word has the same lower-case form, and matchedWords = the number of 'exact' labels |
| Properties.TokenInSourceSet | src/lib/rabinKarp.ts:264-269 | for tokens, set membership after lower-casing is plain membership in the source words |
| Properties.IdenticalTexts | src/lib/rabinKarp.ts:88-260 | a non-empty text compared with itself scores 100, with every word matched and labelled 'exact' |
| Properties.DisjointVocabularies | src/lib/rabinKarp.ts:88-260 | if no suspect token occurs in the source, the score is 0, no word is matched, there are no matches and every label is 'original' |
| Properties.PairsNeverPartial | src/lib/rabinKarp.ts:190 | with a window of at most 2 words there is never a partial match, since ceil(1.2) = 2 = W |

## Left out

- Unicode case mapping: `toLowerCase` is modelled for ASCII A–Z, U+0130 and U+212A only; the other code units of JavaScript's case tables are left unchanged.
- Matching.Percentage: models `Math.round((m / n) * 100)` by exact rational round-half-up, not by IEEE-754 double arithmetic. At some exact halves the double product falls just below k + 1/2: for 23 of 40 words it is 57.49999999999999, so the source reports 57 where the model gives 58 (also 29 of 200: 14 against 15). The model's score can exceed the source's by 1 at such inputs.
- Matching.Threshold: models `Math.ceil(W * 0.6)` as `(3W + 4) / 5`. This agrees with the double computation for every window size a text can have in practice; doubles are not modelled.
- `windowSize` is an integer. A fractional window size would reach the source's `slice` with a non-integer bound, which is not modelled.
- The human-readable `description` of a trace step is left out; the step keeps its number, window text, hash, matched flag and source text.
- `originalNormalized` and `suspectedNormalized` (lines 93-94) are computed and never used; the model does not compute them.
- `h = computeH(...)` at line 136 is computed and never used, as in the source. The detector hashes every window afresh, so the rolling update is modelled only by `Hashing.RollingHash`; it is not used in the window loop.
- Hashing.RecalculateHash: takes the two characters as single code units; the source's parameters are meant as single characters and only their `charCodeAt(0)` is read. `patternLength` is ignored, as in the source.
- Hashing.CalculateHash: requires `length <= |str|`; the source is only ever called with the string's own length, and a longer length would read `NaN` code units.
- Detector.DetectPlagiarism: the body is split into one method per inner loop (`BuildPatterns`, `FindCandidate`, `FindPartial`, `CountOverlap`, `MarkWindow`, `MarkMembers`, `ScanWindow`). Control flow and the order of side effects are as in the source.
- `AnalysisResult`, `Match`, `AlgorithmStep` and `ProcessedSegment` are immutable values; the source never updates them after construction.
- The React pages and components, timers, toasts and theme storage are not part of this model. Neither are the performance comments at lines 289-291.
