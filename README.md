# budoux-edge `Parser` in Dafny

This project models the line-break chunker of budoux-edge (`src/edge-parser.ts`).

A `Parser` holds a table of feature weights. The table maps a feature group (`UW1` … `UW6`, `BW1` … `BW3`, `TW1` … `TW4`) to a map from a key string to its weight.

`parse(sentence)` walks the sentence from its second code unit on. Before each position `i` it adds up a score:

- it starts from the base score, which is minus one half of the sum of every weight in the table;
- it then adds the weight of 13 windows of the sentence around `i`, each looked up in its own group;
- an absent group or key contributes 0.

When the score is strictly positive, a new chunk starts at `i`. Otherwise `sentence[i]` joins the current chunk.

The project has four modules:

- `JsString` (`js_string.dfy`): `String.prototype.slice` as section 22.1.3.21 of ECMA-262 defines it. A negative index counts from the end and stops at 0. An index past the end stops at the length. A window whose resolved start is not before its resolved end is `""`.
- `JsMap` (`js_map.dfy`): a JavaScript `Map` with string keys, as an insertion-ordered list of pairs.
  - `new Map(entries)` sets the pairs one after the other, so the later of two equal keys wins.
  - `get` returns `None` for `undefined`, and `values()` lists the values in insertion order.
  - A JavaScript object is represented by the list `Object.entries` gives for it.
- `Segmentation` (`segmentation.dfy`): the reference definition of chunking.
  - `Split(s, cuts)` cuts `s` before each position of a strictly increasing list of inner positions.
  - `CutsWhere(cut, n)` lists the positions of `[1, n)` that satisfy a predicate.
  - The module also has lemmas that relate the pieces to the cuts and a lemma for one step of a left-to-right scan.
- `EdgeParser` (`edge_parser.dfy`): the parser itself.
  - the constructor, the lookup and the base score;
  - the template table of the 13 windows, and the score;
  - the `Parse` method, whose `for` loop does what the source's loop does;
  - the properties of its result;
  - the loaders that `loadDefaultParsers` builds its Map from.

`Parse` is proved equal to `Chunks(p, s)`. That is either `[]` for `""`, or `Split(s, Cuts(p, s))`, where `Cuts(p, s)` are the positions with a positive score. The properties of the chunks are proved about `Chunks`.

Windows near the ends of the sentence are not "the empty string outside the sentence": the code takes each window with `slice`, and the model follows the code. `slice` resolves a negative start to `|s| + start` (or 0 when that is negative) and clamps an end past the sentence to `|s|`. So:

- at `i = 1` the `UW1` window `slice(-2, -1)` wraps to the last code unit but one of the sentence;
- a window that straddles position 0 is empty only when its resolved start is not before its end: `UW2` at `i = 1` (`slice(-1, 0)`), `BW1` at `i = 1` (`slice(-1, 1)`) and `UW1` at `i = 2` (`slice(-1, 0)`) are always empty; `TW1` and `TW2` at `i = 1` and `TW1` at `i = 2` are empty once the sentence has three code units or more; but in a two-unit sentence the `TW1` window `slice(-2, 1)` at `i = 1` is `s[0]` and the `TW2` window `slice(-1, 2)` is `s[1]`;
- a window that runs past the end is cut short, not emptied.

`WindowWrapsAtStart` and `WindowTruncatedAtEnd` state these cases.

## Model

| member | source | states |
|---|---|---|
| JsString.SliceProperties | src/edge-parser.ts:41-53 | a slice is never longer than the string or than the window asked for. Inside the string it is the plain sub-sequence. A positive end past the string is clamped. A negative start or end resolves to the length plus it, and to 0 below that. A window whose end is non-negative and at or before its start is empty |
| JsMap.Get | src/edge-parser.ts:41-53 | `get(k)` is `undefined` (None) exactly when k is not a key of the Map |
| JsMap.GetDistinct | src/edge-parser.ts:41-53 | in a Map with distinct keys, `get` of the key of pair j returns the value of pair j |
| JsMap.SetKeys | src/edge-parser.ts:25 | setting a key adds exactly that key to the key set and keeps the keys distinct |
| JsMap.SetNewKey | src/edge-parser.ts:25 | setting a key the Map lacks appends the pair at the end of the insertion order |
| JsMap.GetAfterSet | src/edge-parser.ts:25 | after `set(k, v)`, `get(k)` is v and every other key reads as before |
| JsMap.FromEntries | src/edge-parser.ts:25 | `new Map(entries)` has exactly the keys listed in the entries, each once |
| JsMap.FromDistinctEntries | src/edge-parser.ts:25 | from entries with distinct keys (an object's entries), `new Map` holds exactly those pairs in the same order |
| JsMap.FromEntriesLastWins | src/edge-parser.ts:25 | for a key listed more than once, the built Map holds the value of its last pair |
| Segmentation.Split | src/edge-parser.ts:54-55 | cutting before k valid positions gives k + 1 pieces |
| Segmentation.Offsets | src/edge-parser.ts:54-55 | there is one start offset per piece |
| Segmentation.SplitConcat | src/edge-parser.ts:54-55 | concatenating the pieces gives the sequence back |
| Segmentation.SplitOffsets | src/edge-parser.ts:54-55 | piece 0 starts at 0 and piece j + 1 starts at the j-th cut |
| Segmentation.SplitNonEmpty | src/edge-parser.ts:54-55 | no piece of a non-empty sequence is empty |
| Segmentation.SplitPiece | src/edge-parser.ts:54-55 | piece j is the sub-sequence between bound j and bound j + 1, where the bounds are 0, the cuts and the length |
| Segmentation.ExtendLast | src/edge-parser.ts:55 | appending an element with no new cut extends the last piece and leaves the others unchanged |
| Segmentation.CutBeforeLast | src/edge-parser.ts:54-55 | appending an element with a cut before it adds a one-element piece and leaves the others unchanged |
| Segmentation.AppendToLast | src/edge-parser.ts:55 | after `result[result.length - 1] += c` the pieces concatenate to what they concatenated to before, followed by c |
| Segmentation.ScanOpens | src/edge-parser.ts:54-55 | pushing "" and then appending x to the last piece adds the piece [x], as a cut before x does |
| Segmentation.ScanStep | src/edge-parser.ts:54-55 | one loop step turns the pieces of s[..i] into the pieces of s[..i + 1]: it opens an empty piece when position i is a cut, then appends s[i] to the last piece |
| Segmentation.CutsWhere | src/edge-parser.ts:39-54 | the positions of [1, n) that satisfy the predicate form valid cuts, and each satisfies it |
| Segmentation.CutsWhereMember | src/edge-parser.ts:39-54 | a position of [1, n) is a cut if and only if it satisfies the predicate |
| Segmentation.CutsWhereComplete | src/edge-parser.ts:39-54 | every position of [1, n) that satisfies the predicate is among the cuts |
| Segmentation.CutsWhereCount | src/edge-parser.ts:39-54 | there are as many cuts as satisfying positions |
| Segmentation.CutsWhereEverywhere | src/edge-parser.ts:39-54 | if every position satisfies the predicate, the cuts are exactly 1, 2, …, n - 1 |
| Segmentation.SplitNowhere | src/edge-parser.ts:54 | if no position satisfies the predicate, the whole sequence is one piece |
| Segmentation.SplitUnits | src/edge-parser.ts:54-55 | cutting before every position 1, 2, …, n - 1 gives one-element pieces, in order |
| Segmentation.SplitEverywhere | src/edge-parser.ts:54 | if every position satisfies the predicate, a non-empty sequence has one piece per element, and piece j is [s[j]] |
| EdgeParser.NewParser | src/edge-parser.ts:24-26 | the constructed table has exactly the groups of the model object |
| EdgeParser.ConstructorKeepsTable | src/edge-parser.ts:24-26 | for an object (distinct keys at both levels) the constructor keeps every group, key and weight, in order |
| EdgeParser.LookupAfterConstruction | src/edge-parser.ts:41-53 | on a constructed parser, `model.get(g)?.get(k) \|\| 0` gives the object's weight for a present (g, k), and 0 when g or k is absent |
| EdgeParser.SumAppend | src/edge-parser.ts:37 | the sum of a concatenation is the sum of the parts |
| EdgeParser.BaseScoreByGroup | src/edge-parser.ts:37 | the base score is minus half the grand total, group by group: appending a group lowers it by half that group's total |
| EdgeParser.FeatureWindow | src/edge-parser.ts:41-53 | proof helper for `ScoreUnrolled`: one unfolding of a template's weight as the lookup of its group at the window it names |
| EdgeParser.FeatureSumStep | src/edge-parser.ts:41-53 | proof helper for `ScoreUnrolled`: one unfolding of the template sum, template k contributing its own group's lookup over its own window |
| EdgeParser.ScoreUnrolled | src/edge-parser.ts:40-53 | the score is the base score plus the 13 lookups with exactly the source's groups and slice bounds, in the source's order |
| EdgeParser.WindowsInside | src/edge-parser.ts:41-53 | away from both ends, each window is the plain sub-sequence: one code unit for UW, two for BW, three for TW |
| EdgeParser.WindowWrapsAtStart | src/edge-parser.ts:41-51 | at i = 1 the UW1 key is the last code unit but one of the sentence; the UW2 and BW1 windows at i = 1 and the UW1 window at i = 2 are always empty; with three or more code units TW1 and TW2 at i = 1 and TW1 at i = 2 are empty; in a two-unit sentence the TW1 and TW2 windows at i = 1 are s[0] and s[1] |
| EdgeParser.WindowTruncatedAtEnd | src/edge-parser.ts:53 | at i = \|s\| - 2 the TW4 window is cut short to the last two code units |
| EdgeParser.FeaturesAbsent | src/edge-parser.ts:41-53 | templates whose groups the table lacks contribute 0 |
| EdgeParser.ScoreWithoutFeatureGroups | src/edge-parser.ts:40-53 | with none of the 13 groups in the table, every score is the base score |
| EdgeParser.ScoreAt | src/edge-parser.ts:40-53 | the 13 straight-line additions give the score, and it is positive exactly when a chunk starts at i |
| EdgeParser.Parse | src/edge-parser.ts:34-58 | the result is `Chunks(p, sentence)`, the sentence cut before every position with a positive score (and `[]` for ""). The properties below are proved about `Chunks` |
| EdgeParser.ChunksRoundTrip | src/edge-parser.ts:34-58 | the chunks concatenate to the sentence, for every sentence including "" |
| EdgeParser.ChunksNonEmpty | src/edge-parser.ts:35-56 | there are no chunks exactly for "", no chunk is empty, and the first chunk starts with the sentence's first code unit |
| EdgeParser.ChunkStartsIff | src/edge-parser.ts:54-55 | for 0 < i < \|s\|, a chunk starts at i if and only if the score at i is strictly positive |
| EdgeParser.ChunkOffsets | src/edge-parser.ts:54-55 | the chunks start at 0 and then exactly at the positive-score positions, in increasing order |
| EdgeParser.ChunkCount | src/edge-parser.ts:39-56 | a non-empty sentence has one chunk plus one per position with a positive score |
| EdgeParser.SingleUnit | src/edge-parser.ts:36-39 | a one-code-unit sentence is a single chunk |
| EdgeParser.NoPositiveScore | src/edge-parser.ts:54 | when no score is positive, a non-empty sentence is one chunk |
| EdgeParser.AllPositiveScores | src/edge-parser.ts:54 | when every score is positive, each code unit is a chunk of its own |
| EdgeParser.WithoutFeatureGroups | src/edge-parser.ts:37-54 | a table without the 13 groups (an empty one, say) gives one chunk when its base score is 0 or below, and one chunk per code unit when it is positive |
| EdgeParser.LoadDefaultJapaneseParser | src/edge-parser.ts:65-67 | the parser has the groups of the Japanese table, and holds an object table unchanged |
| EdgeParser.LoadDefaultSimplifiedChineseParser | src/edge-parser.ts:73-75 | the parser has the groups of the Simplified Chinese table, and holds an object table unchanged |
| EdgeParser.LoadDefaultTraditionalChineseParser | src/edge-parser.ts:81-83 | the parser has the groups of the Traditional Chinese table, and holds an object table unchanged |
| EdgeParser.LoadDefaultParsers | src/edge-parser.ts:89-95 | the Map has exactly the keys "ja", "zh-hans" and "zh-hant", and each maps to the parser of its language |

## Left out

- The bundled model tables (`src/edge-parser.ts:16-18`) are not part of this model. Each loader takes its table as a parameter, so the model says nothing about the reference sentence of `src/edge-parser.test.ts`.
- `sum` from `budoux/dist/utils.js` is not part of this model, since its source is not shown. `Sum` stands for it as a left-to-right total that starts from 0.
- Weights are exact reals, not IEEE-754 doubles. Rounding in the additions and in the base score is not modelled, and neither is the order dependence that rounding would bring.
- `|| 0` is modelled as "absent gives 0". A stored `NaN` (which `|| 0` would also turn into 0) is not modelled. A stored 0 gives 0 in either reading.
- A JavaScript string is a sequence of UTF-16 code units. In Dafny a `char` is a Unicode scalar value, so a lone surrogate is not a `char`, and a character outside the Basic Multilingual Plane is one `char` where JavaScript sees two code units. The model therefore represents each code unit by a distinct `char` through a relabelling, not by the `char` with the same number. A surrogate pair is two `char`s of the model, as it is two units in the source.
- `Object.entries` ordering (integer-like keys first) and inherited properties are not modelled. An object is the list of its entries.
- Non-numeric weights and malformed model objects are excluded by the types.
- The `Parser` class is a datatype: its one field is set in the constructor and never updated.
- EdgeParser.ScoreAt: the source adds the 13 lookups inline in the loop body, while the model puts the same straight-line additions into a method that the loop calls once per position.
