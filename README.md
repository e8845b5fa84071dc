# cgrep approximate matching, modelled in Dafny

cgrep is a grep-like tool. Instead of exact matches, it reports the
passages of a text that are *similar* to a search phrase. The model covers
the three pieces of its matching pipeline.

- **IndexSet** (`indexset/indexset.go`): a fixed-capacity bit set over
  64-bit words. Elements are stored by index.
  - `IndexSets.IndexSet` is a class over an `array` of words. It has a ghost
    `Elements()` view, the set of indices whose bit is on.
  - `Place` and `Remove` update one word in place.
  - `Union` and `Intersection` fill a freshly allocated set word by word.
  - `Count` sums the ones of every word.
  - `Jaccard` is the similarity |A ∩ B| / |A ∪ B|.
- **Bigrams** (`search/bigram.go`):
  - the magnitude of a rune (`magn`) and the check on runes (`validate`);
  - the dense index of a pair of runes (`Idx`) and the validating
    constructor (`New`);
  - the canonical form of text (`Clean`): lower-case it, turn every invalid
    rune into a space, trim, and collapse runs of spaces.
- **Matcher** (`search/matching.go`):
  - `bigramsOf` builds the index set of the adjacent rune pairs of a string;
  - `similarity` is the Jaccard similarity of two such sets;
  - `Match` slides a window as wide as the needle's word count over the
    words of the cleaned haystack and keeps the windows similar enough to
    the needle.

Files:
- `wrappers.dfy`: a `Result` type.
- `gostrings.dfy`: the Go library string functions the code relies on.
- `indexset.dfy`, `bigram.dfy`, `matching.dfy`: the three source files.

The matcher has two layers:
- `ScanWindows` is the imperative loop of `Match`, proved against the
  functional specification `Scan`.
- `MatchSpec` states what `Match` returns. The lemmas about `Scan`,
  `Starts` and `Filter` give that specification its meaning.

`New`'s two panics are modelled as `Err` results. The other panics are
preconditions, and the model proves they cannot fire on the path `Match`
takes: every pair in a cleaned string passes
`validate`, and every bigram index is at most 676, below the 704 slots of a
set asked for 676.

## Model

| member | source | states |
|---|---|---|
| IndexSets.Toggled | indexset/indexset.go:223-228 | `word & (1 << bitpos) != 0` holds exactly when bit `bitpos` of the word is on |
| IndexSets.OrBit | indexset/indexset.go:48-53 | OR with `1 << p` turns bit `p` on and leaves every other bit unchanged |
| IndexSets.AndNotBit | indexset/indexset.go:70-75 | AND with `^(1 << p)` turns bit `p` off and leaves every other bit unchanged |
| IndexSets.BitUpdatesIdempotent | indexset/indexset.go:41-76 | setting a bit twice, or clearing it twice, gives the same word as doing it once, so `Place` and `Remove` are idempotent |
| IndexSets.WordOf | indexset/indexset.go:212-214 | the word of an index is the one whose 64 slots, from 64 * word on, cover the index |
| IndexSets.WordPositionOf | indexset/indexset.go:218-220 | the position of an index inside its word is below 64, and word and position give back the index as 64 * word + position |
| IndexSets.SlotDetermines | indexset/indexset.go:212-220 | word and position together determine the index: two indices share both exactly when they are equal |
| IndexSets.WordsNeeded | indexset/indexset.go:32-33 | ceil(c / 64) is at least 1 and gives room for at least c and fewer than c + 64 bits |
| IndexSets.UnpackAt | indexset/indexset.go:212-228 | flag `i` of the flattened words is bit `i % 64` of word `i / 64` |
| IndexSets.UnpackUpdate | indexset/indexset.go:41-76 | changing bit `idx % 64` of word `idx / 64` changes exactly flag `idx` of the flattened words |
| IndexSets.MembersAt | indexset/indexset.go:86-93 | an index is a member exactly when it is below 64 times the word count and bit `i % 64` of word `i / 64` is on |
| IndexSets.UnpackZero | indexset/indexset.go:35 | zeroed words hold no index |
| IndexSets.CountTrueIsCardinality | indexset/indexset.go:116-123 | the number of ones among the flags is the number of indices whose flag is on |
| IndexSets.SumOnesCountsMembers | indexset/indexset.go:116-123 | summing `OnesCount64` over the words counts the members of the set |
| IndexSets.UnionMembers | indexset/indexset.go:154-166 | words that are the OR of the zero-extended operands hold exactly the indices in either operand |
| IndexSets.IntersectionMembers | indexset/indexset.go:180-183 | words that are the AND of the operands, as many as the shorter one has, hold exactly the indices in both |
| IndexSets.JaccardOf | indexset/indexset.go:189-198 | the similarity lies in [0, 1] and is 1 when both sets are empty |
| IndexSets.JaccardSymmetric | indexset/indexset.go:189-198 | the similarity is symmetric |
| IndexSets.JaccardOneIff | indexset/indexset.go:189-198 | the similarity is 1 exactly when the two sets are equal, in particular `Jaccard(a, a) = 1` |
| IndexSets.IndexSet.constructor | indexset/indexset.go:27-38 | asks for capacity > 0 (otherwise Go panics); allocates ceil(c/64) fresh words; the set is empty and c <= Capacity() < c + 64 |
| IndexSets.IndexSet.Capacity | indexset/indexset.go:126-128 | the capacity is a multiple of 64 |
| IndexSets.IndexSet.Validate | indexset/indexset.go:201-203 | an index can be stored exactly when its word is one of the set's words |
| IndexSets.IndexSet.Has | indexset/indexset.go:86-93 | requires the index in range (otherwise Go panics); true exactly when the index is a member |
| IndexSets.IndexSet.Place | indexset/indexset.go:41-54 | requires the index in range; the members gain the index; word `idx / 64` becomes its old value OR `1 << (idx % 64)`; every other word is unchanged |
| IndexSets.IndexSet.PlaceAll | indexset/indexset.go:57-61 | requires every index in range; the members gain exactly the given indices |
| IndexSets.IndexSet.Remove | indexset/indexset.go:64-76 | requires the index in range; the members lose the index; word `idx / 64` becomes its old value AND `^(1 << (idx % 64))`; every other word is unchanged |
| IndexSets.IndexSet.RemoveAll | indexset/indexset.go:79-83 | requires every index in range; the members lose exactly the given indices |
| IndexSets.IndexSet.HasAll | indexset/indexset.go:96-103 | requires in range only the elements up to the first non-member, where the loop stops; true exactly when every element is a member |
| IndexSets.IndexSet.HasAny | indexset/indexset.go:106-113 | requires in range only the elements up to the first member, where the loop stops; true exactly when some element is a member |
| IndexSets.IndexSet.Count | indexset/indexset.go:116-123 | the sum of the ones of the words is the number of members, which is at most the capacity |
| IndexSets.Union | indexset/indexset.go:146-169 | a fresh set with capacity max(a.Capacity(), b.Capacity()) whose members are those of a or b |
| IndexSets.Intersection | indexset/indexset.go:172-186 | a fresh set with capacity min(a.Capacity(), b.Capacity()) whose members are those of both; its loop indexes only words both operands have, since every array access is bounds-checked |
| IndexSets.Jaccard | indexset/indexset.go:189-198 | returns 1 when the union is empty, otherwise the size of the intersection of the members over the size of their union |
| Bigrams.Magn | search/bigram.go:67-72 | ' ' measures 0, 'a' .. 'z' measure 1 .. 26, and any other rune is negative exactly when it is below the backtick |
| Bigrams.Validate | search/bigram.go:61-63 | `validate` accepts exactly the space, the backtick and 'a' .. 'z' |
| Bigrams.BacktickAliasesSpace | search/bigram.go:61-72 | the backtick passes `validate` and measures 0, like the space |
| Bigrams.MagnCollides | search/bigram.go:61-72 | two accepted runes measure the same only if they are equal or are the space and the backtick |
| Bigrams.Bigram.Idx | search/bigram.go:16-18 | the index wraps into `uint`; for valid runes it is magn(a) * 25 + magn(b), at most 676 |
| Bigrams.New | search/bigram.go:21-37 | succeeds exactly when the string has two runes that both pass `validate`, and then keeps them in order; a wrong length is reported as such |
| Bigrams.NewRoundTrip | search/bigram.go:21-37 | spelling out a valid bigram and passing it to `New` gives back that bigram |
| Bigrams.IdxRange | search/bigram.go:13-18 | the first bigram in the documented order has index 0 and the last ("zz") has 676 |
| Bigrams.IdxCollision | search/bigram.go:13-18 | two valid bigrams share an index exactly when their magnitudes agree or differ by +1 in the first rune and -25 in the second |
| Bigrams.SpaceZCollidesWithAA | search/bigram.go:13-18 | " z" and "aa" are different bigrams with the same index 26 |
| Bigrams.IntendedValidateExactly | search/bigram.go:59-63 | the check its comment describes differs from `validate` only on the backtick, and on it magnitudes are distinct |
| Bigrams.IntendedIdx | search/bigram.go:13-18 | with factor 27 the index of valid runes is at most 728 |
| Bigrams.IntendedIdxInjective | search/bigram.go:13-18 | with factor 27 and the intended runes, two bigrams share an index only if they are equal |
| Bigrams.SanitiseChar | search/bigram.go:44-49 | a rune `validate` accepts is kept; any other becomes a space |
| Bigrams.Sanitise | search/bigram.go:43-50 | sanitising keeps the length, and at each position keeps the rune if `validate` accepts it and writes a space otherwise |
| Bigrams.Cleaned | search/bigram.go:40-57 | the cleaned text has only valid runes, no space at either end and no two adjacent spaces |
| Bigrams.CleanedIsJoinedFields | search/bigram.go:40-57 | the cleaned text is the words of the lower-cased, sanitised text, in order, joined by single spaces: trimming and collapsing only remove spaces |
| Bigrams.WordsAreFields | search/bigram.go:40-57 | splitting non-empty cleaned text at spaces, as `Match` does, gives exactly the words of the sanitised text |
| Bigrams.Clean | search/bigram.go:40-57 | the builder loop, trim and collapse compute `Cleaned(text)`, which is clean |
| Bigrams.CleanedFixpoint | search/bigram.go:40-57 | `Clean` leaves a text unchanged exactly when it is already clean |
| Bigrams.CleanIdempotent | search/bigram.go:40-57 | `Clean(Clean(s)) == Clean(s)` |
| GoStrings.ToLower | search/bigram.go:43 | lower-casing keeps the length and maps 'A' .. 'Z' to 'a' .. 'z' rune by rune |
| GoStrings.TrimLeft | search/bigram.go:53 | the result is a suffix of the input that does not start with a space, and what was cut is all spaces |
| GoStrings.TrimRight | search/bigram.go:53 | the result is a prefix of the input that does not end with a space, and what was cut is all spaces |
| GoStrings.TrimSpace | search/bigram.go:53 | the result is a slice of the input with no space at either end, and the prefix and suffix cut off are all spaces |
| GoStrings.FieldsTrimSpace | search/bigram.go:53 | trimming keeps the words of the text (the runs between spaces) unchanged |
| GoStrings.CollapseSpaces | search/bigram.go:54 | the result has no two adjacent spaces, keeps the first and last rune, and draws its runes from the input |
| GoStrings.FieldsCollapse | search/bigram.go:54 | collapsing keeps the words of the text unchanged: no rune other than a space is dropped, added or moved |
| GoStrings.Fields | search/bigram.go:53-54 | the words of a text are non-empty and contain no space |
| GoStrings.FieldsSnocSpace | search/bigram.go:53 | a trailing space adds no word |
| GoStrings.JoinFields | search/bigram.go:53-54 | text with no space at either end and no two adjacent spaces is its words joined by single spaces |
| GoStrings.SplitJoin | search/matching.go:15-16 | splitting what was joined gives back the parts, when at least one part is given and none contains the separator |
| GoStrings.Split | search/matching.go:15-16 | splitting gives at least one piece, and no piece contains the separator |
| GoStrings.JoinSplit | search/matching.go:15 | joining the pieces of a split with the separator gives back the text |
| GoStrings.JoinSnoc | search/matching.go:21-24 | appending `" " + word` to a joined list is joining the longer list |
| Matching.BigramSetEmptyIff | search/matching.go:38-50 | a string has no bigrams exactly when it is shorter than two runes |
| Matching.CleanPairsValid | search/matching.go:39-46 | on a cleaned string every adjacent pair passes `validate` and every index is at most 676, so neither `newBigram` nor `Place` can panic |
| Matching.BigramsOf | search/matching.go:38-50 | a fresh set of capacity 704 (676 rounded up) holding exactly the index of each adjacent pair |
| Matching.Similarity | search/matching.go:34-36 | the Jaccard similarity of the two bigram sets |
| Matching.SimilarityProperties | search/matching.go:34-36 | similarity lies in [0, 1], is symmetric, is 1 exactly when the bigram sets agree, and `similarity(a, a) = 1` |
| Matching.WindowValid | search/matching.go:21-24 | a window of words that pass `validate` passes it throughout |
| Matching.Starts | search/matching.go:20-28 | the start positions kept are below the bound, strictly increasing, and exactly those whose window passes the test |
| Matching.ScanAtStarts | search/matching.go:20-28 | the windows kept are exactly the windows at the kept start positions, in the same order |
| Matching.ScanNarrows | search/matching.go:26-27 | with a stricter test the windows kept are those the looser test kept that pass the stricter one |
| Matching.FilterDrawsFromInput | search/matching.go:26-27 | filtering keeps only elements of the input that pass the test, and never lengthens it |
| Matching.BuildCandidate | search/matching.go:21-24 | the inner loop builds the `wordCount` words from `i`, joined by single spaces |
| Matching.IsSimilar | search/matching.go:26 | true exactly when the similarity reaches the threshold |
| Matching.ScanStep | search/matching.go:20-28 | one more iteration appends the window at that start exactly when it passes the test |
| Matching.ScanWindows | search/matching.go:20-29 | the outer loop returns the windows at starts below the bound that are similar enough, in order |
| Matching.Match | search/matching.go:11-32 | cleans both inputs, splits the haystack, takes the needle's word count, and returns `MatchSpec` |
| Matching.MatchSelects | search/matching.go:11-32 | every match is the window at a start `i` with `i + wordCount < len(words)`; the starts increase; a start in that range is used exactly when its window is similar enough |
| Matching.MatchEmptyWhenShort | search/matching.go:20 | with no more words than the needle, `Match` returns nothing |
| Matching.MatchThresholdMonotone | search/matching.go:26-27 | raising the threshold keeps, in order, exactly the previous matches that reach the new threshold |
| Matching.WholeWindow | search/matching.go:15-24 | the window spanning every word is the whole cleaned text |
| Matching.LastWindowSkipped | search/matching.go:20 | as written, a haystack equal to the needle gives no match, although its one window has similarity 1 |
| Matching.MatchAllWindows | search/matching.go:11-32 | `Match` with the bound `i <= len(words) - wordCount` returns `MatchAllWindowsSpec` |
| Matching.AllWindowsFindsNeedle | search/matching.go:20 | with every window examined, a haystack equal to the needle is found at any threshold up to 1 |
| Matching.ScanLast | search/matching.go:20 | one more start than `Match` examines appends the last window exactly when it passes the test |
| Matching.AllWindowsExtendsMatch | search/matching.go:20 | the corrected bound returns what `Match` returns plus the last window, when that window is similar enough |
| Matching.SpecsAsScans | search/matching.go:20 | when the haystack has at least a whole window, `Match` scans to `len(words) - wordCount` and the corrected loop one start further |

## Left out

- Words are `seq<bool>` of length 64 rather than `uint64` bit arithmetic. `Or`, `And`, `Not`, `Bit` and `ZeroWord` model `|`, `&`, `^`, `1 << p` and `0` bit by bit.
- `float32` in `Jaccard` and in the threshold comparison is exact `real` arithmetic. Rounding is not modelled.
- The float ceiling in `NewIndexSet` is the integer `(c + 63) / 64`.
- ToLower: models ASCII lower-casing only. Go's `strings.ToLower` also maps some non-ASCII runes to ASCII letters: U+212A (Kelvin sign) becomes 'k' and U+0130 becomes 'i'. Go's `Clean("\u212A")` is therefore "k", while `Cleaned` gives "". What the model proves about `Cleaned` and `Match` holds for the ASCII mapping.
- `strings.TrimSpace` and the `\s+` collapse are modelled for the space only. After sanitising, the space is the only whitespace rune left, so this matches the code on the text it sees.
- Strings are sequences of runes. `New` and `bigramsOf` index bytes. On cleaned text, which is all ASCII, bytes and runes agree; on other text the model counts runes.
- `LastBigram()` is not part of this model. It is taken to be `Bigram('z', 'z')`, whose index is 676.
- `newBigram(a, b)` in `bigramsOf` is modelled as `New` on the two-rune string.
- `New` reports its two panics (wrong length, invalid character) as `Err` values. The other panics are preconditions: capacity <= 0 in the constructor, an index out of range in `Has`, `Place` and `Remove`, and an invalid pair passed to `newBigram` in `BigramsOf`. The error message texts (`outOfRangeError` and `New`'s messages) are left out.
- Go generics: elements are represented by their index (`nat`). A type with an `Idx()` method is not modelled.
- `IndexSet.String()` (pretty printing) is left out.
- `search/filesearch.go` and `main.go` are not part of this model. They hold directory walking, goroutines, file I/O and command-line handling.
- IndexSets.Union and IndexSets.Intersection: that `a` and `b` are unchanged is guaranteed by the absence of a `modifies` clause rather than stated in an `ensures`.
- Matching.AllWindowsExtendsMatch: states its condition through the `Similar` test, which is `SimilarityOf(needle, c) >= threshold` by definition (`Matching.SimilarIs`).

## Findings

| source | as written | input that shows it | evidently intended | confidence | as-written member | corrected member |
|---|---|---|---|---|---|---|
| search/matching.go:20 | the loop runs while `i < len(words) - wordCount`, so the last window is never examined | needle "ab", haystack "ab": one word each, the only window has similarity 1, `Match` returns nothing | `i <= len(words) - wordCount`, examining every window | not executed | Matching.LastWindowSkipped | Matching.AllWindowsFindsNeedle |
| search/bigram.go:17 | the index is `magn(a) * ('z' - 'a') + magn(b)`, a factor of 25 for 27 magnitudes | bigrams " z" and "aa" both get index 26 | a factor of 27, giving each bigram its own index in the documented order | not executed | Bigrams.SpaceZCollidesWithAA | Bigrams.IntendedIdxInjective |
| search/bigram.go:62 | `validate` accepts `magn(c) >= 0`, which includes the backtick (magnitude 0) | text "a`b" keeps the backtick after `Clean`, and the bigram "a`" gets the same index as "a " | only the space and 'a' .. 'z', as the comment on `validate` says | not executed | Bigrams.BacktickAliasesSpace | Bigrams.IntendedValidateExactly |

The rest of the model keeps the code as written: `Match`, `bigramsOf` and
`Clean` use the 25 factor, the backtick-accepting `validate` and the
skipping loop bound. `Matching.MatchAllWindows` is the corrected loop, and
`Matching.AllWindowsExtendsMatch` relates it to `Match`.
