# Bias detection components, modelled in Dafny

The site "Improving Ethical Reliability of LLMs" carries three small React components
with real logic. This project models all three and proves what they promise.

- **`BiasDetection`**: the word-list bias annotator.
  - "Detect" splits the text at its word boundaries (`split(/\b/)`).
  - Five fixed patterns test every piece: male pronouns, female pronouns, gendered titles, age terms and casual terms.
  - Each hit is annotated with the trimmed piece, the pattern's type, a random confidence in [0.7, 1) and the pattern's correction.
  - A summary sentence is built from the annotations.
  - "Correct" rewrites the original text with a case-insensitive whole-word replace-all per annotation, each applied to the text as the previous ones left it.
  - `highlightBiasedWords` marks every piece that matches an annotation's word.
- **`StatsPanel`**: the running statistics. Each completed pass:
  - increments the analysis counter;
  - adds its annotations to the detection counter;
  - bumps one of four fixed categories per annotation, in place;
  - appends a point to a ten-entry history;
  - overwrites the average confidence with this pass's mean.
- **`BiasDemo`**: the landing-page demo. It rejects a blank text, draws a bias type and a score, and rewrites the text with three case-insensitive replace-alls that have no word boundaries: `he|him|his`, then `she|her`, then `mankind`. When nothing changed it shows "No corrections needed - text appears neutral."

Modules, one per file:

| file | module | what it holds |
|---|---|---|
| `wrappers.dfy` | `Wrappers` | `Option` |
| `text.dfy` | `Text` | the ASCII word characters of `\w` and `\b`, case folding under the `i` flag, `String.prototype.trim`, rendering a count, `join` |
| `word_split.dfy` | `WordSplit` | `split(/\b/)`, in two forms proved equal: the ECMAScript split loop for a zero-width separator, and the maximal runs of word and non-word characters |
| `replace.dfy` | `Replace` | `replace` with a global case-insensitive expression, as a left-to-right scan, for `\bw\b` and for an alternation of literals |
| `bias_detection.dfy` | `BiasDetection` | the annotator, including the `lastIndex` of its `g`-flagged patterns; the summary; the corrector; the highlighter; the component's state as a class |
| `stats_panel.dfy` | `StatsPanel` | the updater as a function on `StatsData`, and the panel state as a class whose category table is an array updated in place |
| `bias_demo.dfy` | `BiasDemo` | the demo's detector |

Random draws and the clock are parameters:
- `random: nat -> real` gives the `k`-th `Math.random()` call of a pass.
- `typeDraw` and `scoreDraw` are the demo's two draws.
- `time` is the label `toLocaleTimeString` would print.

### Where the code and its usual description differ

The model follows the code in each case:
- **Correction is cumulative.** `correctBias` applies each replacement to the running text (`BiasDetection.tsx:96-99`), not to the original text each time.
- **`correctBias` has no sentinel.** With no annotations it stores the original text unchanged. Without a result it does nothing. Only `BiasDemo` shows a "no corrections needed" sentence, and only when the chain changed nothing.
- **`test` is stateful.** It runs on patterns with the `g` flag, so each pattern's `lastIndex` carries from piece to piece (`BiasDetection.tsx:53-62`). The model keeps this state (`TestGlobal`, `ScanTests`). `LastIndexHarmless` proves that on the pieces of `split(/\b/)` the carried state changes no annotation.
- **The `she|her` rule never fires.** Every `she` and `her` contains `he`, which the first replacement has already rewritten (`FemaleRuleNeverFires`).
- **Substitution works inside words.** For example, `the` becomes `tthey/them` (`TheBecomesTtheyThem`).

## Model

| member | source | states |
|---|---|---|
| Text.Trim | src/components/BiasDetection.tsx:35 | definition of `trim()`; its properties are in `TrimEmptyIffBlank`, `TrimWordRun` and `TrimIsSlice` |
| Text.TrimEmptyIffBlank | src/components/BiasDetection.tsx:35 | `trim()` returns the empty string exactly when the text is empty or all whitespace, so the "Input Required" guard is the blank test |
| Text.TrimWordRun | src/components/BiasDetection.tsx:64 | `trim()` leaves a run of word characters as it is, so an annotation's word is the matched piece itself |
| Text.TrimIsSlice | src/components/BiasDetection.tsx:113 | the trimmed piece is a contiguous slice of the piece |
| Text.NatToStringRoundTrip | src/components/BiasDetection.tsx:78 | the count rendered in the summary reads back as the number of annotations |
| Text.Join | src/components/BiasDetection.tsx:78 | `join(", ")` over the distinct types: no types give the empty string, one type comes back as it is, two come back with the separator between them, and the length is the types' total length plus one separator between each pair of neighbours |
| Text.JoinAppend | src/components/BiasDetection.tsx:78 | joining two non-empty lists one after the other puts exactly one separator between them, so with the singleton case the result is the elements in order with the separator between each pair of neighbours |
| WordSplit.SplitScan | src/components/BiasDetection.tsx:49 | definition of the ECMAScript split loop for `/\b/`; it equals the maximal runs by `SplitIsRuns` |
| WordSplit.SplitAtWordBoundaries | src/components/BiasDetection.tsx:49 | definition of `split(/\b/)`; its properties are in `RunsCover`, `RunsAlternate` and `SplitIsRuns` |
| WordSplit.RunsCover | src/components/BiasDetection.tsx:49 | the pieces of `split(/\b/)` concatenate back to the text |
| WordSplit.RunsAlternate | src/components/BiasDetection.tsx:49 | every piece is a non-empty run of one character class, neighbouring pieces alternate between word and non-word runs, and the first piece starts the text |
| WordSplit.SplitIsRuns | src/components/BiasDetection.tsx:49 | the ECMAScript split loop with separator `/\b/` yields exactly the maximal runs, and `[""]` for the empty text |
| WordSplit.WordRunIsWholeWord | src/components/BiasDetection.tsx:49 | a word piece stands in the text as a whole word (`\b` on both sides) at its own offset |
| WordSplit.WholeWordInRun | src/components/BiasDetection.tsx:53-62 | inside one piece, `\bw\b` can only match the whole piece, ignoring case |
| Replace.ReplaceWholeWord | src/components/BiasDetection.tsx:97-98 | definition of `replace(/\bw\b/gi, rep)`; its properties are in `ReplaceWholeWordGrows` and `ReplaceWordFromNoMatch` |
| Replace.ReplaceWholeWordGrows | src/components/BiasDetection.tsx:97-98 | a `\bw\b`/gi replace-all with a longer replacement never shortens the text, and lengthens it when the word occurs |
| Replace.ReplaceWordFromNoMatch | src/components/BiasDetection.tsx:97-98 | with no whole-word occurrence the replace-all returns the text unchanged |
| Replace.ReplaceAny | src/components/BiasDemo.tsx:41-43 | definition of a global case-insensitive replace of an alternation of literals; its properties are in `AlternativeAtSpec`, `ReplaceAnyFromGrows` and `ReplaceAnyFromShows` |
| Replace.AlternativeAtSpec | src/components/BiasDemo.tsx:41-43 | at each position the alternation matches its first alternative, in pattern order, that occurs there ignoring case, or nothing when none does |
| Replace.ReplaceAnyFromGrows | src/components/BiasDemo.tsx:41-43 | with a replacement longer than every alternative: the output is the input exactly when nothing occurs, and strictly longer otherwise |
| Replace.ReplaceAnyFromShows | src/components/BiasDemo.tsx:41-43 | when something matches, every character of the replacement appears in the output |
| BiasDetection.BiasPatternsValid | src/components/BiasDetection.tsx:52-58 | the five word lists are lower-case words, pairwise disjoint, and each word is shorter than its correction |
| BiasDetection.BiasPatternKinds | src/components/BiasDetection.tsx:52-58 | the table only uses the types Gender and Race |
| BiasDetection.Fires | src/components/BiasDetection.tsx:53-62 | definition of a stateless hit (the piece, lower-cased, is listed); it equals the search by `TestIsWholeToken` |
| BiasDetection.TestIsWholeToken | src/components/BiasDetection.tsx:53-62 | on a piece of the split, the pattern's search succeeds exactly when the pattern lists the whole piece, ignoring case |
| BiasDetection.UpperCaseFlagged | src/components/BiasDetection.tsx:53 | `HIS` is flagged by the first pattern |
| BiasDetection.WordsContainingHeNotFlagged | src/components/BiasDetection.tsx:53-62 | `the` and `hello` are not flagged |
| BiasDetection.Confidence | src/components/BiasDetection.tsx:66 | a draw in [0, 1) gives a confidence in [0.7, 1) |
| BiasDetection.WordAt | src/components/BiasDetection.tsx:53-57 | the first listed word, in alternation order, that stands as a whole word at a position, or none |
| BiasDetection.TestGlobal | src/components/BiasDetection.tsx:62 | definition of `test` on a `g` pattern, resuming at `lastIndex`; its properties are in `TestGlobalHits`, `TestGlobalMissResets`, `TestFromStart` and `TestMissesGap` |
| BiasDetection.TestGlobalHits | src/components/BiasDetection.tsx:62 | `test` on a `g` pattern hits exactly when a listed word stands as a whole word at or after `lastIndex` |
| BiasDetection.TestGlobalMissResets | src/components/BiasDetection.tsx:62 | a miss leaves `lastIndex` at 0 |
| BiasDetection.TestFromStart | src/components/BiasDetection.tsx:62 | from `lastIndex` 0, `test` on a piece hits exactly when the pattern lists it |
| BiasDetection.TestMissesGap | src/components/BiasDetection.tsx:62 | on a piece without word characters `test` misses and resets `lastIndex`, whatever it was |
| BiasDetection.Annotation | src/components/BiasDetection.tsx:63-68 | definition of one pushed annotation; its fields are stated in `TokenAnnotationsShape` |
| BiasDetection.TokenAnnotations | src/components/BiasDetection.tsx:61-70 | definition of the stateless inner loop for one piece; its properties are in `TokenAnnotationsOne` and `PieceTestsFromZero` |
| BiasDetection.Annotations | src/components/BiasDetection.tsx:60-71 | definition of the stateless nested loops; its properties are in `AnnotationsFollowTokens`, `AnnotationsFromPatterns` and `AnnotationsLengthen` |
| BiasDetection.PieceTests | src/components/BiasDetection.tsx:61-70 | definition of the inner loop with each pattern's `lastIndex`; related to the stateless one by `PieceTestsFromZero` and `PieceTestsOnGap` |
| BiasDetection.ScanTests | src/components/BiasDetection.tsx:60-71 | definition of the nested loops with the carried `lastIndex`; equal to `Annotations` by `LastIndexHarmless` |
| BiasDetection.PieceTestsFromZero | src/components/BiasDetection.tsx:61-70 | with every `lastIndex` at 0, the stateful inner loop pushes what the stateless matching pushes |
| BiasDetection.PieceTestsOnGap | src/components/BiasDetection.tsx:61-70 | a non-word piece pushes nothing and leaves every `lastIndex` at 0 |
| BiasDetection.ScanTestsStateless | src/components/BiasDetection.tsx:60-71 | over alternating pieces the carried `lastIndex` never changes the annotations |
| BiasDetection.LastIndexHarmless | src/components/BiasDetection.tsx:49-71 | on `split(/\b/)` of any text, the scan with `lastIndex` yields the stateless annotations |
| BiasDetection.AnnotatePiece | src/components/BiasDetection.tsx:61-70 | the inner loop appends, pattern by pattern, an annotation for each hit of `test`, and returns every pattern's new `lastIndex` |
| BiasDetection.ScanForBias | src/components/BiasDetection.tsx:48-71 | the nested loops produce the annotations of the pieces in text order, and with the rule order inside a piece |
| BiasDetection.TokenAnnotationsOne | src/components/BiasDetection.tsx:60-71 | because the lists are disjoint, a piece gets exactly the one annotation of the pattern that lists it, or none |
| BiasDetection.TokenAnnotationsShape | src/components/BiasDetection.tsx:63-68 | a flagged piece's annotation has the piece as its word, the listing pattern's type and correction, and the next draw's confidence |
| BiasDetection.AnnotationsFollowTokens | src/components/BiasDetection.tsx:49-71 | the annotated words are exactly the flagged pieces, in text order |
| BiasDetection.AnnotationsFromPatterns | src/components/BiasDetection.tsx:63-68 | every annotation carries the type and correction of a pattern listing its word, and the `i`-th annotation took the `i`-th random draw |
| BiasDetection.SingleWordAnnotated | src/components/BiasDetection.tsx:60-71 | a text that is a single listed word, in any case, gets exactly one annotation, from the pattern that lists it |
| BiasDetection.ChairmanAnnotated | src/components/BiasDetection.tsx:55 | the text `chairman` gets one annotation: Gender, `chairperson/police officer` |
| BiasDetection.Distinct | src/components/BiasDetection.tsx:78 | `[...new Set(types)]` holds each type once, exactly the types present, in order of first occurrence |
| BiasDetection.DistinctFirst | src/components/BiasDetection.tsx:78 | the first annotation's type comes first |
| BiasDetection.Summary | src/components/BiasDetection.tsx:77-79 | definition of the summary; its properties are in `SummaryNoBiasIffEmpty`, `SummaryTypes`, `Distinct` and `NatToStringRoundTrip` |
| BiasDetection.SummaryNoBiasIffEmpty | src/components/BiasDetection.tsx:77-79 | the summary is "No significant bias detected in the text." exactly when there is no annotation |
| BiasDetection.SummaryTypes | src/components/BiasDetection.tsx:77-79 | with this table the summary names one or two distinct types, the first annotation's type first |
| BiasDetection.AnalysisKinds | src/components/BiasDetection.tsx:51-69 | every annotation of a detection pass has the type Gender or Race, so `SummaryTypes` and `DetectorLeavesOtherCategories` apply to the detector's own results |
| BiasDetection.Analysis | src/components/BiasDetection.tsx:73-80 | definition of `newResult` for a non-blank text; its properties are in `Detect` and `CorrectionAfterDetection` |
| BiasDetection.Detect | src/components/BiasDetection.tsx:34-84 | a blank text only raises the toast; otherwise the result has original and corrected text equal to the input, the annotated words are the flagged pieces, and the summary is the source's sentence over those annotations, the no-bias sentence exactly when there are none |
| BiasDetection.Corrected | src/components/BiasDetection.tsx:94-99 | definition of the correction fold; its properties are in `CorrectedGrows`, `CorrectionChangesText` and `CorrectionAfterDetection` |
| BiasDetection.ApplyCorrections | src/components/BiasDetection.tsx:94-99 | the loop leaves the fold of the whole-word replacements over the annotations, each applied to the running text |
| BiasDetection.AnnotationsLengthen | src/components/BiasDetection.tsx:52-68 | every annotated word is a non-empty run of word characters shorter than its correction |
| BiasDetection.CorrectedGrows | src/components/BiasDetection.tsx:96-99 | later replacements never shorten the running text |
| BiasDetection.CorrectionChangesText | src/components/BiasDetection.tsx:93-99 | correcting a pass that found something yields a strictly longer text |
| BiasDetection.CorrectionAfterDetection | src/components/BiasDetection.tsx:88-101 | after a detection, correction lengthens the text when there are annotations and leaves it as it was when there are none |
| BiasDetection.FindBias | src/components/BiasDetection.tsx:112-114 | `find` returns the first annotation whose lower-cased word equals the key, or none when no annotation has that word |
| BiasDetection.HighlightPiece | src/components/BiasDetection.tsx:111-127 | definition of one piece's rendering: marked with the found annotation, or plain |
| BiasDetection.Highlight | src/components/BiasDetection.tsx:107-128 | definition of `highlightBiasedWords`; its properties are in `HighlightKeepsText`, `FoundIffFlagged` and `HighlightMarksFlagged` |
| BiasDetection.HighlightKeepsText | src/components/BiasDetection.tsx:107-128 | with no result or no annotations the text is returned as it is; otherwise the pieces, read in order, are the text |
| BiasDetection.FoundIffFlagged | src/components/BiasDetection.tsx:110-116 | a piece finds an annotation of its own pass exactly when a pattern lists it |
| BiasDetection.HighlightMarksFlagged | src/components/BiasDetection.tsx:107-128 | highlighting a text with its own pass's annotations marks exactly the flagged pieces, each with the first annotation whose lower-cased word is the trimmed, lower-cased piece |
| BiasDetection.BiasDetector.constructor | src/components/BiasDetection.tsx:28-29 | the component starts with an empty text and no result |
| BiasDetection.BiasDetector.SetInputText | src/components/BiasDetection.tsx:148 | typing replaces the text and keeps the result |
| BiasDetection.BiasDetector.DetectBias | src/components/BiasDetection.tsx:34-84 | a blank text keeps the old result; otherwise the stored result is the new one, produced by the nested loops |
| BiasDetection.BiasDetector.CorrectBias | src/components/BiasDetection.tsx:88-102 | without a result nothing changes; otherwise only `correctedText` changes, to the fold of the replacements over `originalText` |
| BiasDetection.BiasDetector.Highlighted | src/components/BiasDetection.tsx:107-128 | definition of `highlightBiasedWords` over the stored result; its properties are in `HighlightKeepsText` and `HighlightMarksFlagged` |
| StatsPanel.Zeroed | src/components/StatsPanel.tsx:32-37 | the category table has the given names in order, every value 0 |
| StatsPanel.InitialStats | src/components/StatsPanel.tsx:29-40 | definition of the initial state; its properties are in `InitialStatsValid` |
| StatsPanel.InitialStatsValid | src/components/StatsPanel.tsx:29-40 | the initial stats have zero counters, the four categories at 0, an empty history and an average of 0 |
| StatsPanel.CategoryIndex | src/components/StatsPanel.tsx:51 | `find` on the name returns the first category with that name, or none when there is no such category |
| StatsPanel.Bump | src/components/StatsPanel.tsx:51-54 | definition of one `category.value += 1`; its effect on the total is in `BumpSum` |
| StatsPanel.Tally | src/components/StatsPanel.tsx:50-55 | definition of the `forEach` over the annotations; its properties are in `TallyKeepsNames`, `TallyCounts` and `TallySum` |
| StatsPanel.TallyKeepsNames | src/components/StatsPanel.tsx:50-55 | tallying never changes the names or the order of the categories |
| StatsPanel.TallyCounts | src/components/StatsPanel.tsx:50-55 | a uniquely named category gains exactly the number of annotations of its type |
| StatsPanel.BumpSum | src/components/StatsPanel.tsx:51-54 | one annotation adds one to the table's total when its type is a category, and nothing otherwise |
| StatsPanel.TallySum | src/components/StatsPanel.tsx:50-55 | the table's total grows by at most the number of annotations, and by exactly that when every type is a category |
| StatsPanel.LastN | src/components/StatsPanel.tsx:62 | `slice(-n)` keeps the last `min(n, length)` elements in order |
| StatsPanel.LastNAppend | src/components/StatsPanel.tsx:62 | trimming to ten before appending gives the same history as trimming after |
| StatsPanel.MeanConfidence | src/components/StatsPanel.tsx:66-67 | definition of this pass's mean confidence; its range is in `MeanConfidenceBounds` |
| StatsPanel.MeanConfidenceBounds | src/components/StatsPanel.tsx:65-68 | the mean of confidences in [lo, hi) lies in [lo, hi) |
| StatsPanel.Updated | src/components/StatsPanel.tsx:43-71 | definition of the `setStats` updater's value; its properties are in `UpdateWithoutResult`, `UpdateWithResult`, `UpdateKeepsValid`, `UpdateTalliesCategories` and `HistoryIsLastPoints` |
| StatsPanel.UpdateWithoutResult | src/components/StatsPanel.tsx:43 | a null result leaves the stats untouched |
| StatsPanel.UpdateWithResult | src/components/StatsPanel.tsx:45-68 | a result adds exactly one analysis and its annotation count. The category names are kept. The history gains the pass's point after the surviving earlier points, and holds at most ten. The average is left alone on an empty pass and replaced by this pass's mean otherwise |
| StatsPanel.UpdateKeepsValid | src/components/StatsPanel.tsx:43-71 | every update keeps the four categories, at most ten history points, and the category total at most the detection counter |
| StatsPanel.UpdateTalliesCategories | src/components/StatsPanel.tsx:50-55 | each category gains exactly the number of annotations of its type |
| StatsPanel.HistoryIsLastPoints | src/components/StatsPanel.tsx:58-62 | after any run of results the history is the last ten points of all passes, oldest first |
| StatsPanel.DetectorLeavesOtherCategories | src/components/StatsPanel.tsx:50-55 | results whose types are only Gender or Race never move the Political and Other categories |
| StatsPanel.Stats.constructor | src/components/StatsPanel.tsx:29-40 | the panel starts in the initial stats, which satisfy the invariant |
| StatsPanel.Stats.FindCategory | src/components/StatsPanel.tsx:51 | the linear search returns the index `find` would |
| StatsPanel.Stats.TallyCategories | src/components/StatsPanel.tsx:50-55 | the `forEach` bumps the table in place to the tally of the annotations |
| StatsPanel.Stats.Update | src/components/StatsPanel.tsx:42-73 | the new state is the updater's value on the old state, and the invariant holds |
| BiasDemo.TypeIndex | src/components/BiasDemo.tsx:35-36 | a draw in [0, 1) indexes one of the three bias types |
| BiasDemo.Score | src/components/BiasDemo.tsx:37 | definition of the score; its range is in `ScoreBounds` |
| BiasDemo.ScoreBounds | src/components/BiasDemo.tsx:37 | the score is a whole number of hundredths between 0.30 and 0.80 |
| BiasDemo.DemoDetect | src/components/BiasDemo.tsx:20-49 | a blank text leaves the old result; otherwise the result's type is one of Gender, Religion, Race |
| BiasDemo.DemoResultInRange | src/components/BiasDemo.tsx:35-37 | a shown result has a listed type and a score in [0.30, 0.80] |
| BiasDemo.Corrected | src/components/BiasDemo.tsx:40-43 | definition of the three-step chain; its properties are in `FemaleRuleNeverFires`, `CorrectedUnchangedIff`, `CorrectedSkipsFemale` and `TheBecomesTtheyThem` |
| BiasDemo.MaleFromNoFemale | src/components/BiasDemo.tsx:41 | the output of the first replacement (`he`, `him`, `his`) contains no `she` and no `her`, ignoring case |
| BiasDemo.FemaleRuleNeverFires | src/components/BiasDemo.tsx:41-42 | the second replacement (`she`, `her`) finds nothing and returns its input |
| BiasDemo.CorrectedUnchangedIff | src/components/BiasDemo.tsx:40-43 | the chain leaves the text unchanged exactly when there is no `he`, `him`, `his` and no `mankind`, ignoring case; otherwise the result is strictly longer |
| BiasDemo.CorrectedShowsH | src/components/BiasDemo.tsx:40-43 | when a rule fired, the result contains an `h` brought in by a replacement |
| BiasDemo.SentinelIffNothingToCorrect | src/components/BiasDemo.tsx:40-48 | the sentinel is shown exactly when the text has no `he`, `him`, `his` and no `mankind`; otherwise the longer corrected text is shown |
| BiasDemo.CorrectedSkipsFemale | src/components/BiasDemo.tsx:40-43 | the chain equals the first and last replacements alone |
| BiasDemo.TheBecomesTtheyThem | src/components/BiasDemo.tsx:41 | without word boundaries, `the` becomes `tthey/them` |

## Left out

- The user interface is not modelled: rendering, the toasts, the `isDetecting`, `isCorrecting` and `isLoading` flags, and the 1500 ms and 1000 ms `setTimeout` delays. Detection and correction are direct calls. The "Input Required" toast is the `InputRequired` outcome.
- No page of the repository renders `BiasDetection` or `StatsPanel`: the only page renders `BiasDemo`, and nothing passes `onAnalysisComplete` or `latestResult`. The model assumes that each detection result reaches the panel. `DetectBias` returns the result the callback would receive, `Stats.Update` takes it as `latestResult`, and `DetectorLeavesOtherCategories` relies on that assumption.
- `Math.random` is a parameter, not a generator. Confidence draws are a function from the call's position in the pass. The demo's two draws are arguments in [0, 1).
- BiasDetection.Confidence: the value is an exact real, not a double, and so are the demo's score and the stats' average. Double rounding is not modelled. `toFixed(2)` in the score is rounding to hundredths with halves upward. The `toFixed(0)` percentage of the highlight's tooltip and the success-rate display are not modelled.
- `new Date().toLocaleTimeString` is not modelled: the time label is an opaque string argument.
- React semantics are not modelled: `useEffect` dependency tracking, and the updater running twice under StrictMode. Because `{...prev}` is a shallow copy, a second run would bump the shared category objects twice. The model applies each update once: the category table is one array shared by the old and new state.
- Case folding covers ASCII letters only. `toLowerCase` on other letters (in the highlighter's comparison) is not modelled. The `i` flag of a non-unicode expression never folds a non-ASCII character onto an ASCII word letter.
- JavaScript strings are sequences of UTF-16 code units, and a Dafny `string` is a sequence of Unicode scalar values. Lone surrogates cannot be represented, and an astral character counts once in a Dafny offset but twice in `lastIndex`. No modelled result depends on this: astral characters are non-word characters, and the carried `lastIndex` is proved never to change an annotation.
- Regular expressions are not modelled in general. Only the literal word lists, the whole-word `\bw\b` built by `correctBias`, and the demo's literal alternations are. An annotated word is always a run of letters, so no special character ever reaches `new RegExp`.
- About, Footer, Team, Hero, Architecture, Navbar and the page composition are not modelled: they hold no logic.
