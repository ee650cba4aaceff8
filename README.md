# make-lingo, modelled in Dafny

make-lingo is a small AWS Lambda handler that invents pronounceable words. At start-up,
`loadData` reads two frequency tables from a spreadsheet: syllables with their frequencies, and
syllables-per-word counts with their frequencies. It cleans both tables. On each request,
`makeLingo` builds the requested number of words (100 by default). Each word draws a syllable
count by weighted choice, unless the request fixes it. It then draws that many syllables by
weighted choice and joins them with no separator.

This project models those two pieces of `index.js`:

- `tables.dfy` (module `Tables`) covers the row filter and the projection into parallel lists of
  `loadData`. It is written as pure functions over sequences, with lemmas. A row is a
  `Row<V>(frequency: Option<nat>, value: Option<V>)`. A cell is "present and non-empty" when it
  is `Some` and does not hold the falsy value of its type: `""` for the syllable text and `0` for
  numbers. So a row with frequency 0, or with 0 syllables per word, is dropped, as the source's
  truthiness test drops it.
- `lingo.dfy` (module `Lingo`) covers the `makeLingo` loops as methods with loop invariants.
  `MakeLingo` is the outer loop, `NextWord` is one iteration of it, and `DrawSyllables` is the
  inner loop. All three are proved equal to a pure specification, `Generate`. `Generate` is
  built from `Select` (one weighted choice), `Fragments` (a word's syllables), `DrawWord` (one
  word), `Plan` (the first n words) and `Spell` (the words of a plan).

The random choice `weighted.select(values, weights)` is a `Chooser`. It is a function of the
weight list and of the draw number, meaning how many choices were made before in this request.
`ValidChooser` demands only that it answers with a position inside any non-empty list. A draw
from an empty list yields `Err(EmptyDistribution)`, and that fails the whole request. The query
string arrives already normalised to `Query(words: Option<nat>, syllables: Option<nat>)`. An
absent `words` means 100. An absent `syllables` means "draw a count per word".

Two behaviours of the code are worth stating plainly:

- A present `syllables` value is used as is, including 0. The query text "0" is truthy
  (index.js:34), so `Some(0)` gives empty words.
- The code does not reject a negative or non-numeric `words`. The model takes counts as
  naturals (see "## Left out").

## Model

| member | source | states |
|---|---|---|
| `Tables.Usable` | index.js:11-12 | the filter test (also index.js:19-20): a row with a missing cell is dropped; a row whose frequency is 0 or whose value is its type's falsy value ("" for text, 0 for numbers) is dropped; a row with a positive frequency and a non-blank value is kept, and a kept row's weight is positive |
| `Tables.KeepUsable` | index.js:11-12 | every kept row is a row of the input with both cells present and non-empty; every such input row is kept; the result is no longer than the input |
| `Tables.KeptIndicesIncrease` | index.js:11-12 | the positions of the kept rows lie inside the input and strictly increase |
| `Tables.KeptRowsAtKeptIndices` | index.js:11-12 | the k-th kept row is the input row at the k-th kept position |
| `Tables.KeptIndicesExact` | index.js:11-12 | a position is kept if and only if the row there passes the filter |
| `Tables.KeepUsableIsSubsequence` | index.js:10-14 | the filter keeps exactly the usable rows, in their original relative order |
| `Tables.Clean` | index.js:10-16 | the value list and the weight list have equal length; no value is blank and every weight is positive |
| `Tables.CleanKeepsExactlyUsableRows` | index.js:10-16 | entry k of both lists comes from the same row, the k-th usable one, so the lists stay aligned index by index; their length is the number of usable rows |
| `Tables.LoadData` | index.js:10-26 | the result's syllables/frequencies and syllableCounts/syllableCountFrequencies pairs have equal lengths; syllables are non-empty, and counts and all weights are positive |
| `Lingo.WordCount` | index.js:33 | an absent `words` gives 100 words, a present one its own value; the count is 0 only when 0 words are asked for explicitly |
| `Lingo.Select` | index.js:34 | a draw fails exactly when the list is empty; otherwise it returns an element of the list |
| `Lingo.Concat` | index.js:35-37 | the template-string join: no syllables give the empty word and one syllable gives exactly itself, with nothing added around it; ConcatAppend states how longer runs join |
| `Lingo.ConcatAppend` | index.js:37 | appending syllables to a word joins them in order with no separator |
| `Lingo.Fragments` | index.js:35-38 | k syllables are drawn; the word fails exactly when k > 0 and the syllable list is empty; otherwise every syllable is from the syllable list |
| `Lingo.FragmentsInDrawOrder` | index.js:36-37 | syllable j of a word is the j-th draw made for it, so the order of the draws is kept |
| `Lingo.DrawWord` | index.js:34-38 | a word has exactly k syllables under an override k, otherwise a count found in the syllable-count list; it makes one count draw (none under an override) plus one draw per syllable; the failure conditions of both cases |
| `Lingo.Plan` | index.js:32-40 | exactly n words, each drawn as DrawWord says; the total number of draws; no draws and no failure for n = 0; under an override, failure exactly when n > 0, k > 0 and the syllable list is empty; without one, failure when the count list is empty; success when the needed lists are non-empty |
| `Lingo.Generate` | index.js:29-43 | the request yields exactly WordCount(query) words (100 when absent); 0 words never fail, whatever the tables; the failure conditions as in Plan |
| `Lingo.Spell` | index.js:39 | one word per planned word, in plan order, each the concatenation of that word's syllables |
| `Lingo.NextWord` | index.js:34-38 | one outer-loop iteration: the count is the override or one draw, then the inner loop; it fails exactly when DrawWord fails, otherwise it makes exactly the draws of DrawWord and returns the concatenation of the drawn syllables |
| `Lingo.DrawSyllables` | index.js:35-38 | the inner loop: it fails exactly when Fragments fails; otherwise the word is the concatenation of exactly the syllables Fragments draws, in draw order, and the next draw number is the first plus the count |
| `Lingo.MakeLingo` | index.js:29-43 | the handler's loops return exactly Generate's result, so that many words or the draw failure |
| `Lingo.PlanPrefix` | index.js:32-39 | the plan for m words is the prefix of the plan for any n ≥ m: words are only appended, never overwritten |
| `Lingo.PlanFailsFrom` | index.js:32-40 | a failed draw among the first m words fails every larger request, so no partial result is returned |
| `Lingo.GeneratePrefix` | index.js:32-39 | the words of a request for m words are the first m words of any request for n ≥ m |
| `Lingo.WordsAreSyllableConcatenations` | index.js:34-38 | every generated word is the concatenation of syllables from the syllable list, exactly k of them under an override k, otherwise as many as an entry of the syllable-count list |
| `Lingo.FixedZeroGivesEmptyWords` | index.js:34-36 | an override of 0 gives n empty strings and never fails, even with empty tables |
| `Lingo.FragmentsReadOnlySyllables` | index.js:37 | drawing syllables depends only on the syllable list and its weights |
| `Lingo.FixedCountIgnoresCountTable` | index.js:34 | under an override the syllable-count list is never consulted, because the logical or short-circuits: the plan is the same for any count list |
| `Lingo.FixedCountDrawOrder` | index.js:32-39 | under an override k, word i is made of draws i·k to i·k+k−1 in order, and n words take n·k draws |
| `Lingo.DefaultWordDraws` | index.js:34-37 | without an override, a word's syllable count is the chooser's answer at that word's own first draw, so it is chosen afresh for every word; syllable j is the chooser's answer at the following draw number plus j; with both lists non-empty the word succeeds |
| `Lingo.PlanWordAt` | index.js:33-39 | word i of a plan is exactly the word drawn from the draw number reached after the first i words, and it ends where the plan for i + 1 words ends |
| `Lingo.LoadedDataFailsOnlyWhenEmpty` | index.js:10-40 | with tables from LoadData and no override, a non-empty request fails exactly when the syllable list or the syllable-count list is empty |
| `Lingo.AlwaysFirstWord` | index.js:34-38 | with syllables "ba" and "na", counts [2] and a chooser that always takes the first entry, a word is "ba","ba" and takes three draws |
| `Lingo.AlwaysFirstPlan` | index.js:32-40 | the same case plans three such words in nine draws |
| `Lingo.AlwaysFirstExample` | index.js:29-43 | the same case returns ["baba", "baba", "baba"] |

## Left out

- Spreadsheet access: the sheet id and API key defaults, `new Sheets`, `authorizeApiKey` and `sheet.tables` (index.js:8-10, 18). These are network I/O through a library not part of this model. The rows are parameters of `LoadData`.
- `_.mapValues` unwrapping of cell objects (index.js:13, 21). Rows are modelled directly as records with optional cell values.
- Cell types: frequencies and syllables-per-word are numbers (`nat`) and syllables are text. A frequency cell holding text, such as "0", would be truthy in the source and is not modelled.
- The async plumbing: the module-level `dataPromise` and the `await` (index.js:7, 27, 30).
- The Lambda event shape and the JavaScript truthiness of `queryStringParameters` (index.js:33-34). The parameters arrive as `Option<nat>`. A non-numeric or negative query value is not modelled.
- Lingo.Select: the probability law of `weighted.select` (weight over total weight) is not modelled, because it is randomness inside a foreign library. The chooser only promises an index inside the list. What the library does with an empty list is also not visible. The model fails the request with `EmptyDistribution` there.
- Determinism under a fixed random source holds trivially, because every specification member is a function of its inputs, so no lemma states it.
