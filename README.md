# labelmaker feature mining, in Dafny

A model of the feature-mining and data-splitting core of the Chromium
issue-tracker classifier in `labelmaker/src/main.go`:

- **Examples** (`Issues`): an issue wrapped as an `IssueExample`, whose
  label is the presence of the key `Cr-Blink` in its label map.
- **Text** (`Text`): Go's `strings.Split(s, " ")` and `strings.Contains`,
  the only text processing the features do, plus a `Join` that the
  source does not call and that serves only to state that `Split` can be
  inverted.
- **Features** (`Features`): the word features `titleFeature` and
  `contentFeature`, and the `bigram` feature; their identity strings
  (`String`) and their +1/-1 predictions (`Predict`), including the
  scanning loop of `bigram.Predict`.
- **Bigram mining** (`Mining`): `extractBigrams` (one candidate per
  adjacent token pair) and `extractFeatures` (deduplicate the candidates
  of all dev examples by identity into a map, count on how many dev
  examples each fires, keep those whose count lies in the window
  `[int(0.001 n), int(0.95 n)]`).
- **Partitioning** (`Partitioning`): the loop in `main` that routes each
  issue to the test, validation or dev set by one draw of `Intn(9)`.
- **Diagnostics** (`Diagnostics`): the positive count of
  `debugCountLabelOccurrence` and the label split of
  `debugDumpExampleWeights`.

The draws of the random generator are an input sequence, one per issue.
Go's map iteration order is unspecified, so the filtering loop picks the
next map key with a non-deterministic choice and the result of
`ExtractFeatures` is specified as a collection: which features it holds,
and that no two of them share an identity.

Three points of the code that are easy to misread, stated as the model
has them:

- The stacked `case 0: case 1: case 2:` and `case 3: case 4:` arms of the
  partition `switch` read as if they fell through, but Go's `switch` does
  not: the empty `case 0:`, `case 1:` and `case 3:` arms do nothing, so
  issues drawing 0, 1 or 3 reach no partition (`Partitioning.RouteTable`,
  `Partitioning.NineDraws`).
- Bigram identity strings are not injective in the word pair: tokens may
  contain `,`, so `("a,b","c")` and `("a","b,c")` both print as
  `title*(a,b,c)` (`Features.BigramIdentityCollision`), and the map keeps
  only the later of the two.
- The support window drops a bigram that fires on every example when the
  upper bound is below the example count: for the titles "foo bar baz" and
  "bar baz qux" the window is `[0, 1]`, `(bar,baz)` occurs in both titles,
  so its support is 2 and it is dropped, while `(foo,bar)` and `(baz,qux)`,
  which are entries of the candidate map with support 1, are kept
  (`Mining.TwoExampleCorpus`).

## Model

| member | source | states |
|---|---|---|
| `Issues.Example.Label` | labelmaker/src/main.go:48-51 | the definition: an example is positive iff `Cr-Blink` is a key of its issue's label map |
| `Issues.LabelDependsOnlyOnKeys` | labelmaker/src/main.go:48-51 | the label is decided by whether `Cr-Blink` is a key of the label map; the values under the keys do not matter |
| `Text.Split` | labelmaker/src/main.go:101 | `strings.Split(s, " ")` gives one token more than `s` has spaces (so at least one) and no token contains a space |
| `Text.JoinSplit` | labelmaker/src/main.go:101 | joining the tokens with single spaces gives back the field text |
| `Text.SplitJoin` | labelmaker/src/main.go:101 | splitting a join of space-free tokens gives back the tokens |
| `Text.SplitEdgeCases` | labelmaker/src/main.go:111 | `""` splits to `[""]`, and consecutive spaces give empty tokens |
| `Text.Contains` | labelmaker/src/main.go:63 | `strings.Contains` is true iff the word occurs as a contiguous substring at some index |
| `Features.Identity` | labelmaker/src/main.go:57-98 | the definition of the three `String` methods (lines 57-59, 74-76 and 96-98): `title*word` for a title word, the bare word for a content word, `tag*(w1,w2)` for a bigram |
| `Features.FieldText` | labelmaker/src/main.go:122-127 | the definition of the `title` and `content` stringers: `Title` reads the issue's title, `Content` its content |
| `Features.HasAdjacentPair` | labelmaker/src/main.go:102-106 | true iff some index `i < len(words)-1` has `words[i] == w1` and `words[i+1] == w2` |
| `Features.Predict` | labelmaker/src/main.go:61-108 | the result is +1.0 or -1.0; a title or content word feature gives +1.0 iff its word is a substring of that field; a bigram gives +1.0 iff its pair is adjacent among the tokens of its space-split field |
| `Features.Fires` | labelmaker/src/main.go:143 | `!math.Signbit(gram.Predict(example))` holds iff the prediction is +1.0 |
| `Features.PredictBigram` | labelmaker/src/main.go:100-108 | the early-exit scanning loop of `bigram.Predict` returns the prediction above |
| `Features.BigramIdentityDeterminesLabel` | labelmaker/src/main.go:96-98 | two bigrams with equal identity strings and `*`-free labels have the same label |
| `Features.TitleContentIdentitiesDiffer` | labelmaker/src/main.go:96-98 | a `title*…` bigram identity never equals a `content*…` one |
| `Features.BigramIdentityCollision` | labelmaker/src/main.go:96-98 | two different word pairs can print to the same identity string |
| `Mining.ExtractBigrams` | labelmaker/src/main.go:110-117 | the slice filled by index equals the candidates of the field, one per adjacent token pair |
| `Mining.BigramsShape` | labelmaker/src/main.go:110-117 | a field gives `len(Split(field)) - 1` bigrams, as many as it has spaces, the i-th being `(label, words[i], words[i+1])` |
| `Mining.BigramsFire` | labelmaker/src/main.go:110-117 | every bigram extracted from an example predicts +1.0 on that example |
| `Mining.AllCandidatesMember` | labelmaker/src/main.go:129-136 | a candidate is visited by the map-building loop iff some dev example contributes it |
| `Mining.KeyedByIdentityFacts` | labelmaker/src/main.go:131-134 | after `bigrams[gram.String()] = gram` over a candidate sequence, every candidate's identity is a key and each entry is a candidate stored under its own identity |
| `Mining.KeyedByIdentityLastWins` | labelmaker/src/main.go:131-134 | the entry under an identity is the last candidate with that identity |
| `Mining.BuildCandidateMap` | labelmaker/src/main.go:128-136 | the map built by the nested loops equals the deduplicated candidate map of the examples |
| `Mining.CandidateKeys` | labelmaker/src/main.go:128-136 | every title and content candidate of every dev example has its identity as a key |
| `Mining.CandidateEntries` | labelmaker/src/main.go:128-136 | each map entry is stored under its own identity, so no two entries share one, and is a candidate of some dev example |
| `Mining.CandidateValuesAreBigrams` | labelmaker/src/main.go:128-136 | each map entry is a title bigram reading the title or a content bigram reading the content |
| `Mining.Support` | labelmaker/src/main.go:141-146 | the support count of a feature never exceeds the number of examples |
| `Mining.CountSupport` | labelmaker/src/main.go:141-146 | the counting loop computes the number of examples whose prediction has a clear sign bit |
| `Mining.SupportPositive` | labelmaker/src/main.go:141-146 | a feature that fires on one of the examples has support at least one |
| `Mining.CandidateSupportPositive` | labelmaker/src/main.go:128-146 | every map entry fires on the example it came from, so its support is at least one |
| `Mining.MinSupport` | labelmaker/src/main.go:138 | `minExamples` is the floor of `n / 1000`: `1000 m <= n < 1000 (m + 1)` |
| `Mining.MaxSupport` | labelmaker/src/main.go:139 | `maxExamples` is the floor of `95 n / 100`: `100 m <= 95 n < 100 (m + 1)` |
| `Mining.InWindow` | labelmaker/src/main.go:148 | the definition of the keep test: the support lies in `[MinSupport(n), MaxSupport(n)]` |
| `Mining.WindowBounds` | labelmaker/src/main.go:138-139 | the window `[n/1000, 95n/100]` is non-empty and within `[0, n]` |
| `Mining.FilterBySupport` | labelmaker/src/main.go:140-151 | a map entry is kept iff its support lies in `[minExamples, maxExamples]`; every kept feature is a map entry; no two kept features share an identity |
| `Mining.ExtractFeatures` | labelmaker/src/main.go:119-154 | a feature is returned iff it is an entry of the candidate map of the dev examples whose support lies in the window; returned identities are distinct |
| `Mining.ThreeWordTitle` | labelmaker/src/main.go:110-117 | a three-word title with empty content contributes exactly its two title bigrams, which are exactly the title bigrams that fire on it |
| `Mining.TwoExampleCorpus` | labelmaker/src/main.go:138-150 | for titles "foo bar baz" and "bar baz qux" the window is `[0, 1]`; all three distinct bigrams are entries of the candidate map; `(foo,bar)` and `(baz,qux)` lie in the window and so are kept, and `(bar,baz)`, with support 2, is not |
| `Partitioning.Route` | labelmaker/src/main.go:207-220 | the `switch` on one draw: test iff the draw is 2, validation iff 4, no partition iff 0, 1 or 3, dev otherwise |
| `Partitioning.RouteTable` | labelmaker/src/main.go:207-220 | for a draw in `[0, 9)`: test iff 2, validation iff 4, dev iff 5 to 8, no partition iff 0, 1 or 3 |
| `Partitioning.PositionsCharacterized` | labelmaker/src/main.go:206-221 | an index is listed for a destination iff its draw is routed there; the list is strictly increasing, so loaded order is preserved |
| `Partitioning.PositionsCount` | labelmaker/src/main.go:206-221 | the four destinations together receive every issue once |
| `Partitioning.DivideIssues` | labelmaker/src/main.go:206-221 | the appending loop yields, for dev, validation and test, the examples of the issues routed there, in loaded order |
| `Partitioning.PartitionMembership` | labelmaker/src/main.go:206-221 | issue k is in test iff its draw is 2, in validation iff 4, in dev iff 5 to 8, and in none iff 0, 1 or 3 |
| `Partitioning.PartitionsDisjoint` | labelmaker/src/main.go:206-221 | no issue reaches two partitions |
| `Partitioning.PartitionsBounded` | labelmaker/src/main.go:206-221 | the three partitions hold at most as many examples as there are issues |
| `Partitioning.NineDraws` | labelmaker/src/main.go:206-221 | draws 0 to 8 send issue 2 to test, issue 4 to validation, issues 5 to 8 to dev and issues 0, 1, 3 nowhere |
| `Diagnostics.PositivesCounts` | labelmaker/src/main.go:156-162 | the positive count is the length of the positive sub-sequence, positives and negatives together are the whole set, so the count is at most `len(set)` |
| `Diagnostics.CountLabelOccurrence` | labelmaker/src/main.go:156-162 | the loop counts the positively labelled examples, at most `len(set)` |
| `Diagnostics.WeightsWithLabelShape` | labelmaker/src/main.go:169-175 | the weights kept for one label are one per example of that label, each the weight of such an example |
| `Diagnostics.SplitWeightsByLabel` | labelmaker/src/main.go:166-175 | the loop appends each example's weight to `positives` or `negatives` by its label, in order |
| `Diagnostics.SplitWeightsCovers` | labelmaker/src/main.go:166-175 | every example's weight lands in exactly one of the two lists, and `positives` has one entry per positive example |

## Left out

- `loadIssues` (file globbing, reading, JSON parsing in the `issues` package): I/O and a package that is not part of this model; issues are an input sequence.
- Flag parsing, CPU profiling and every `fmt.Printf`, including the fraction printed by `debugCountLabelOccurrence`: output only.
- The `ml` package (`AdaBoost`, `NewDecisionTreeBuilder`, `Round`, `Evaluate`, the `A` and `D.P` fields, `DebugCharacterizeWeights`) and the 1000-round training loop that drives it: a foreign dependency with floating-point boosting math; the weights of `debugDumpExampleWeights` are a generic input sequence.
- Go's `math/rand` generator seeded with 42: replaced by an explicit sequence of draws in `[0, 9)`.
- The panics on `is[0]` for an empty corpus and on `features[0..2]` for fewer than three features: they lie in printing code only.
- The `issues.Issue` record: modelled with an id, a title, a content and a label map from strings to strings; the real value type of the map is not part of this model and does not affect the label.
- Byte strings: Go strings are byte sequences, while the model's `string` is a sequence of Unicode characters; splitting on byte 0x20, the byte-wise `strings.Contains` and token equality agree with the character-level model only when the issue texts are valid UTF-8.
- roll.py: a git and file-system orchestration script with nothing to model.
- Mining.ExtractFeatures: the window `int(0.001 * float64(n))`, `int(0.95 * float64(n))` is computed as `n / 1000` and `(95 * n) / 100`; the floating-point products can round differently for very large `n`.
- Mining.ExtractFeatures: the order of the returned features is not stated, because it follows Go's unspecified map iteration order.
- Features.Predict: the source returns `float64`; the model returns the reals 1.0 and -1.0, and `!math.Signbit(x)` is modelled as `x >= 0.0`, which agrees with it on those two values.
