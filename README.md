# morelib core in Dafny

A model of the core of **morelib**, a small Python utility library, with
proofs of what its code promises. It covers three modules:

- `morelib/util.py` has list, dictionary and string helpers:
  - `lcut`, `djoin`, `dsort`, `cleansplit`, `multisplit`, `nsplit`;
  - the classification helpers `ranked`, `multisorted`, `distributed`;
  - the cursor class `Biter`;
  - the counted-record container `DataList` and its `_DataItem` records.
- `morelib/random.py` has `RandomList`. It is a list of `[element, weight]`
  pairs with list-style operations, weighted random choice, and in-place
  `uniform`, `normalize` and `age`.
- `morelib/math.py` has `normalize`, `remap`, `vector_product` and
  `dot_product`.

Each module of the model follows one part of the program:

| file | module | models |
|---|---|---|
| `wrappers.dfy` | `Wrappers` | `Option`, `Result`, `Outcome`, and the Python exception kinds as `PyError` |
| `py_builtins.dfy` | `PyBuiltins` | the Python built-ins the library relies on: slice bounds, `l[i]`, `sum`, `str.strip`, `str.split`, `str.join`, and the stable `sorted` |
| `util_lists.dfy` | `UtilLists` | `lcut`, `djoin`, `dsort` |
| `util_strings.dfy` | `UtilStrings` | `cleansplit`, `multisplit`, `nsplit` |
| `util_classify.dfy` | `UtilClassify` | `ranked`, `multisorted`, `distributed` |
| `util_biter.dfy` | `UtilBiter` | class `Biter` |
| `util_datalist.dfy` | `UtilDataList` | `_DataItem` and class `DataList` |
| `random_list.dfy` | `RandomLists` | class `RandomList` and its `[element, weight]` pairs |
| `vector_math.dfy` | `VectorMath` | `normalize`, `remap`, `vector_product`, `dot_product` |

Counts, weights and vector entries are exact reals. A Python exception is
an `Failure`/`Fail` value carrying the exception's kind.

Pure code is modelled as functions with lemmas. This covers slicing,
splitting, `remap`, and the scalar branch of `vector_product`.

Code that loops over accumulators is modelled as methods with loop
invariants, each proved equal to a specification function. This covers
`djoin`, `ranked`, `multisorted`, `distributed`, `_group_items`, the
constructor forms of `RandomList`, the scan and the rounds of `choice`,
`math.normalize`, and the list branch of `vector_product`.

`Biter`, `DataList` and `RandomList` are classes whose methods update
their fields in place. A `RandomList`'s pairs are objects of their own
(`Pair`), because `_backup` is a shallow copy that shares them with
`items`.

Random calls are inputs:
- **`random.shuffle`** follows CPython's Fisher–Yates swaps. The swap
  indices are given as a function `pick`.
- **`random.uniform(0.0, total)`** is a given function `uniform` from the
  candidates' total to the value drawn. Any real may be drawn. The lemmas
  about the scan hold for every draw, except `PickInInterval`, which
  assumes `0 <= draw < total`.

Both kinds of input travel in one `Draw` value per round of `choice`.

## Model

| member | source | states |
|---|---|---|
| PyBuiltins.SliceBound | morelib/util.py:72 | the position that a slice bound `n` denotes on a list of length `len`: capped at the length, counted from the end when negative, never below 0 |
| PyBuiltins.ItemIndex | morelib/random.py:301-303 | `l[i]` reads a position exactly when `-len <= i < len`, and that position is `i` or `len + i` |
| PyBuiltins.SumAppend | morelib/random.py:350 | `sum` of a concatenation is the sum of the sums |
| PyBuiltins.SumFirst | morelib/util.py:474 | the left-to-right `sum` also peels off the first element |
| PyBuiltins.SumNonNegative | morelib/random.py:350 | a sum of non-negative weights is non-negative |
| PyBuiltins.SumZeroAllZero | morelib/random.py:405-409 | a zero sum of non-negative numbers has every number zero |
| PyBuiltins.SumBoundsElement | morelib/random.py:405-409 | each non-negative number is at most the sum |
| PyBuiltins.SumDivided | morelib/random.py:407-409 | dividing every number by `t` divides the sum by `t` |
| PyBuiltins.Strip | morelib/util.py:113 | `s.strip()` is an infix of `s` whose outside is whitespace and whose ends are not |
| PyBuiltins.StripIdempotent | morelib/util.py:113 | stripping twice is stripping once |
| PyBuiltins.Split | morelib/util.py:113 | `s.split(sep)` gives at least one piece, and the first piece is a prefix of `s` |
| PyBuiltins.SplitLeftmost | morelib/util.py:113 | `split` cuts at the leftmost occurrences: the separator occurs nowhere before the end of the first piece; a single piece is the whole string; otherwise the separator follows the first piece and the rest is the split of what comes after it |
| PyBuiltins.JoinAppend | morelib/util.py:139 | joining two runs of pieces puts exactly one separator between them |
| PyBuiltins.JoinSplit | morelib/util.py:137-139 | `sep.join(s.split(sep)) == s` |
| PyBuiltins.InOrderJoin | morelib/util.py:139 | the parts of `sep.join(parts)` occur in it one after another |
| PyBuiltins.SplitInOrder | morelib/util.py:113 | the pieces of `s.split(sep)` occur in `s` one after another, without overlapping |
| PyBuiltins.StripInOrder | morelib/util.py:128 | strings in order in `s.strip()` are in order in `s` |
| PyBuiltins.InOrderSuffix | morelib/util.py:129 | strings in order in a suffix of `s` are in order in `s` |
| PyBuiltins.InOrderPrefix | morelib/util.py:129 | strings in order in a prefix of `s` are in order in `s` |
| PyBuiltins.InOrderInfix | morelib/util.py:128 | strings in order in an infix of `s` are in order in `s` |
| PyBuiltins.InOrderAppend | morelib/util.py:129 | strings in order before a cut, followed by strings in order after it, are in order |
| PyBuiltins.InOrderContains | morelib/util.py:129 | each string in order in `s` occurs in `s` |
| PyBuiltins.SplitPiecesFree | morelib/util.py:113 | no piece of `split` contains the separator |
| PyBuiltins.SplitKeepsFree | morelib/util.py:127-129 | splitting creates no occurrence of a string that the input lacks |
| PyBuiltins.InsertPermutes | morelib/util.py:196 | one insertion step of the sort adds exactly the inserted element |
| PyBuiltins.InsertSorted | morelib/util.py:196 | one insertion step keeps the list in key order |
| PyBuiltins.InsertStable | morelib/util.py:196 | one insertion step keeps equal-key elements in input order |
| PyBuiltins.StableSortSorts | morelib/util.py:196 | `sorted(l, key, reverse)` is a permutation of `l` of the same length, in key order |
| PyBuiltins.StableSortStable | morelib/util.py:196 | `sorted` is stable: elements sharing a key keep their input order |
| UtilLists.LCut | morelib/util.py:70-72 | the two parts of `lcut(l, n)` concatenate back to `l`, cut at the slice bound of `n` |
| UtilLists.DJoin | morelib/util.py:76-102 | the `djoin` loop computes the left-to-right merge of all the dictionaries |
| UtilLists.MergeInto | morelib/util.py:90-98 | the inner loop folds one dictionary into the result: a new key keeps its value, a repeated key combines with `oper` |
| UtilLists.MergeStep | morelib/util.py:91-95 | folding one more key of a dictionary changes the result at that key only |
| UtilLists.JoinAllFolds | morelib/util.py:86-102 | the result's keys are the union of the inputs' keys, and each value is the left fold of `oper` over that key's values in input order |
| UtilLists.SingleSourceKept | morelib/util.py:91-92 | a key found in one input keeps that input's value |
| UtilLists.OccurrencesOutside | morelib/util.py:89-92 | a key in no input has no values to fold |
| UtilLists.OccurrencesInUnion | morelib/util.py:89-92 | a key with a value is a key of some input |
| UtilLists.DSort | morelib/util.py:104-107 | `dsort`'s items are a permutation of the dictionary's items, in key order, with equal keys in their original order |
| UtilStrings.StripEach | morelib/util.py:113 | each piece is stripped, and no piece is added or dropped |
| UtilStrings.CleanSplit | morelib/util.py:111-113 | ValueError exactly for an empty separator; otherwise one stripped piece per piece of `split`, each free of the separator and of outer whitespace |
| UtilStrings.StripKeepsFree | morelib/util.py:128 | stripping a token adds no occurrence of a separator |
| UtilStrings.SplitEach | morelib/util.py:126-130 | the inner loop of `multisplit` yields pieces free of its separator, and some piece for any token |
| UtilStrings.SplitEachKeepsFree | morelib/util.py:127-129 | splitting stripped tokens adds no occurrence of a string the tokens lack |
| UtilStrings.MultiSplit | morelib/util.py:115-130 | ValueError exactly when some separator is empty; otherwise a non-empty tuple of pieces none of which contains any separator |
| UtilStrings.SplitEachFreeOfAll | morelib/util.py:125-130 | splitting by the first separator pieces free of the later ones gives pieces free of all of them |
| UtilStrings.SplitEachInOrder | morelib/util.py:126-130 | tokens that occur in order in `s` give pieces that occur in order in `s` |
| UtilStrings.SplitEachInOrderAt | morelib/util.py:126-130 | the step of `SplitEachInOrder` once the first token is found |
| UtilStrings.TokenPiecesInOrder | morelib/util.py:128-129 | the pieces of one stripped token occur in order in the text up to the end of that token |
| UtilStrings.MultiSplitInOrder | morelib/util.py:115-130 | the pieces of `multisplit` are cut out of `s` in the order they have in `s`, so each of them occurs in `s` |
| UtilStrings.MultiSplitOne | morelib/util.py:115-130 | with one separator `t`, `multisplit` is `s.strip().split(t)`, and joining its pieces with `t` gives `s.strip()` back |
| UtilStrings.NSplit | morelib/util.py:132-139 | ValueError exactly for an empty separator |
| UtilStrings.NSplitFewOccurrences | morelib/util.py:137-139 | with at most `n` occurrences, `before` is the whole stripped string and `after` is empty |
| UtilStrings.NSplitAtOccurrence | morelib/util.py:137-139 | with more than `n` occurrences, `before` is the first `n+1` pieces re-joined and stripped, and `after` the rest re-joined and stripped |
| UtilStrings.NSplitMinusOne | morelib/util.py:138 | `n = -1` is an `lcut` at 0, so `before` is empty and `after` is the whole stripped string |
| UtilStrings.NSplitFromEnd | morelib/util.py:137-139 | below -1, the cut falls at the `(-n-1)`-th occurrence from the end: `before` and `after` are the pieces on each side re-joined and stripped, with `before + sep + after == s`; with too few occurrences `before` is empty |
| UtilClassify.FlattenAppend | morelib/util.py:177-182 | putting groups back together distributes over concatenation |
| UtilClassify.InFlatten | morelib/util.py:171-182 | an element of the flattened groups lies in one of the groups |
| UtilClassify.Runs | morelib/util.py:198-210 | the runs of the sorted list are non-empty and end with its last element |
| UtilClassify.Extend | morelib/util.py:201-207 | one loop step keeps the runs non-empty and ends them with the new element |
| UtilClassify.ExtendFlatten | morelib/util.py:202-206 | joining the last run or opening a new one appends exactly the new element to the flattened runs |
| UtilClassify.RunsFlatten | morelib/util.py:196-210 | the groups of `ranked`, put back together, are exactly the sorted list |
| UtilClassify.RunsFlattenStep | morelib/util.py:201-207 | the induction step of `RunsFlatten` for one more element |
| UtilClassify.RunsInside | morelib/util.py:202-203 | neighbours inside a group compare equal |
| UtilClassify.ExtendRunsInside | morelib/util.py:202-206 | one more element keeps the neighbours inside every group equal |
| UtilClassify.RunsBoundaries | morelib/util.py:204-206 | the last element of a group compares unequal to the first of the next |
| UtilClassify.ExtendRunsBoundaries | morelib/util.py:202-206 | one more element keeps the group boundaries unequal |
| UtilClassify.Ranked | morelib/util.py:186-210 | IndexError exactly on an empty list (`sl[0]`); otherwise the groups are the runs of the stably sorted list |
| UtilClassify.RunsOfSorted | morelib/util.py:196-210 | with the default comparison, each group has one key and the groups come in strict key order |
| UtilClassify.ExtendKeyed | morelib/util.py:202-206 | an element sorting no earlier than the last one keeps the groups keyed and ordered |
| UtilClassify.MultiSorted | morelib/util.py:149-183 | IndexError exactly for an empty key list or an empty list; otherwise the recursive multi-key sort |
| UtilClassify.SortEach | morelib/util.py:171-182 | the loop over the groups: a tied group is re-sorted by the remaining keys when there are any, and kept as it is otherwise |
| UtilClassify.MultiSortPermutes | morelib/util.py:149-183 | `multisorted` returns a permutation of its input |
| UtilClassify.SortGroupsPermutes | morelib/util.py:171-182 | the group loop returns a permutation of the flattened groups |
| UtilClassify.MultiSortSorted | morelib/util.py:149-183 | the result is in lexicographic order of the keys: first key first, ties broken by the remaining keys |
| UtilClassify.SortGroupsSorted | morelib/util.py:171-182 | keyed, ordered groups re-sorted by the remaining keys give a lexicographically sorted list |
| UtilClassify.KeyedGroupsPrefix | morelib/util.py:171-182 | a prefix of keyed, ordered groups is keyed and ordered |
| UtilClassify.TiedLexSorted | morelib/util.py:176 | a group tied on the first key and sorted by the others is sorted by all keys |
| UtilClassify.ConcatLexSorted | morelib/util.py:177 | appending a tied, sorted group after strictly smaller elements keeps the order |
| UtilClassify.MultiSortOneKey | morelib/util.py:163-168 | with a single key, `multisorted` is `sorted` |
| UtilClassify.SortGroupsNoKeys | morelib/util.py:179-182 | with no keys left, the groups stay in the order `ranked` gave |
| UtilClassify.FirstRaising | morelib/util.py:227-234 | the first item whose key function raises: every earlier item returned a value |
| UtilClassify.Distributed | morelib/util.py:213-238 | the first raising key's exception propagates unless `no_errors`; otherwise the buckets of the items by label |
| UtilClassify.BucketsSnoc | morelib/util.py:235-237 | one more item lengthens exactly the bucket of its label |
| UtilClassify.BucketEmpty | morelib/util.py:235-237 | a label no item gets has an empty bucket |
| UtilClassify.BucketsPartition | morelib/util.py:225-238 | every item is in the bucket of its own label, and each bucket holds only items with its label |
| UtilClassify.BucketHas | morelib/util.py:235-237 | item `i` is in the bucket of its label |
| UtilClassify.BucketOnly | morelib/util.py:235-237 | a bucket holds only items with its label |
| UtilClassify.SumSizesRemove | morelib/util.py:225-238 | the total of the bucket sizes is one bucket's size plus the total of the others |
| UtilClassify.SumSizesUpdate | morelib/util.py:235-237 | replacing one bucket changes the total by the size difference |
| UtilClassify.BucketSizesSum | morelib/util.py:225-238 | the bucket sizes add up to `len(l)` |
| UtilBiter.Reversed | morelib/util.py:390 | the reversed list has entry `k` at position `len - 1 - k` |
| UtilBiter.BackwardStart | morelib/util.py:390 | where `l[p::-1]` starts: within the list, or -1 for an empty slice |
| UtilBiter.Biter.constructor | morelib/util.py:333-337 | the iterator holds a copy of the list and stands on `iterable[pos]`, with its position counted from the front |
| UtilBiter.Biter.Make | morelib/util.py:333-337 | IndexError exactly when `iterable[pos]` fails; otherwise a valid iterator on that element |
| UtilBiter.Biter.Len | morelib/util.py:369-370 | `len(biter)` counts the elements behind the cursor, the current one and those ahead |
| UtilBiter.Biter.Index | morelib/util.py:365-367 | `index()` is the position of `current` in the list, with exactly that many elements behind it |
| UtilBiter.Biter.HasNext | morelib/util.py:357-359 | `has_next()` holds exactly when the forward generator yields more than the current element |
| UtilBiter.Biter.HasPrev | morelib/util.py:361-363 | `has_prev()` holds exactly when the backward generator yields more than the current element |
| UtilBiter.Biter.Next | morelib/util.py:339-346 | StopIteration exactly when `has_next()` fails, changing nothing; otherwise one step forward, with `current` the element there |
| UtilBiter.Biter.Prev | morelib/util.py:348-355 | StopIteration exactly when `has_prev()` fails, changing nothing; otherwise one step back, with `current` the element there |
| UtilBiter.Biter.Forward | morelib/util.py:372-380 | `forward(pos)` yields a suffix of the list; from the current position it starts with `current` and runs to the end; from a given non-zero `pos` inside the list it starts at `items[pos]` (negative `pos` counted from the end) and runs to the end; past the end it is empty, and before the front it is the whole list |
| UtilBiter.Biter.Backward | morelib/util.py:382-390 | `backward(pos)` yields a prefix of the list reversed; from the current position it starts with `current` and runs back to the front; from a given non-zero `pos` inside the list it starts at `items[pos]` (negative `pos` counted from the end) and runs back to the front; past the end it is the whole list reversed, and before the front it is empty |
| UtilBiter.Biter.BackwardThenForward | morelib/util.py:372-390 | the backward generator reversed, followed by the forward one without its first element, is the whole list |
| UtilBiter.RawNegativeStart | morelib/util.py:336-363 | as written, a start of -1 stands on the last element, yet `has_next` holds, `next` goes to the first element, and `has_prev` fails |
| UtilDataList.FirstMatch | morelib/util.py:512-515 | the first record holding `x`, or none when no record holds it |
| UtilDataList.Clamp | morelib/util.py:511 | a negative count becomes 0, and any other count is kept |
| UtilDataList.SumUpdate | morelib/util.py:514 | changing one count moves the sum by the difference |
| UtilDataList.SumRemove | morelib/util.py:532 | deleting one count lowers the sum by it |
| UtilDataList.AddDistinct | morelib/util.py:503-518 | `add` keeps the items distinct |
| UtilDataList.AddPlacement | morelib/util.py:511-517 | `add` of a present item changes only that record; a new item is appended at the end with the clamped count |
| UtilDataList.AddCounts | morelib/util.py:511-517 | `add(x, c)` raises the count of `x`, and the total, by the clamped `c` |
| UtilDataList.AddPresentCounts | morelib/util.py:512-515 | `AddCounts` for an item that has a record |
| UtilDataList.AddNewCounts | morelib/util.py:516-517 | `AddCounts` for a new item |
| UtilDataList.BasicSame | morelib/util.py:397-401 | records with the same items and counts have the same counts and the same distinctness |
| UtilDataList.FirstMatchSameItems | morelib/util.py:512-513 | finding a record looks at the items only |
| UtilDataList.AddAllDistinct | morelib/util.py:456-471 | adding every entry keeps the items distinct |
| UtilDataList.AddAllHas | morelib/util.py:456-471 | after the entries are added, each entry's element has a record |
| UtilDataList.AddAllSum | morelib/util.py:456-471 | adding the entries raises the total by the sum of their clamped counts |
| UtilDataList.AddKeepsItems | morelib/util.py:503-518 | `add` removes no item |
| UtilDataList.SubtractMissing | morelib/util.py:526-537 | `subtract` of an item without a record changes nothing |
| UtilDataList.SubtractDeletes | morelib/util.py:529-533 | `subtract(x)` deletes exactly the record of `x`, keeps the others in order, and lowers the total by its count |
| UtilDataList.RemoveRecord | morelib/util.py:532 | deleting one of distinct records leaves distinct records without that item, and removes exactly its count |
| UtilDataList.SubtractLowers | morelib/util.py:534-535 | `subtract(x, cnt)` lowers the count of `x` by `cnt`, possibly below zero, and changes nothing else |
| UtilDataList.SubtractLowersCount | morelib/util.py:534-535 | the count of `x` goes down by `cnt` |
| UtilDataList.SubtractLowersTotal | morelib/util.py:534-536 | the total goes down by `cnt` |
| UtilDataList.UpdateKeepsFirstMatch | morelib/util.py:514 | changing a count moves no item |
| UtilDataList.CountsUpdate | morelib/util.py:514 | setting one record's count moves the total by the difference |
| UtilDataList.GetAfterAdd | morelib/util.py:503-518 | after `add(x, c)`, `get(x)` is the former count plus the clamped `c` |
| UtilDataList.GetAfterSet | morelib/util.py:643-647 | after `set(x, v)` on a present `x`, `get(x)` is the clamped `v` |
| UtilDataList.SetIntegerWritesLast | morelib/util.py:648-651 | as written, `set` with an integer key naming no record writes the last record iterated, not the record at that position |
| UtilDataList.Repeat | morelib/util.py:598 | `[x] * n` holds `n` copies of `x` |
| UtilDataList.ElementsCount | morelib/util.py:595-598 | `elements()` holds each item exactly `int(count)` times, and nothing else |
| UtilDataList.RepeatMultiset | morelib/util.py:598 | `[x] * n` as a multiset is `n` copies of `x` |
| UtilDataList.ElementsAbsent | morelib/util.py:598 | an item without a record is not in `elements()` |
| UtilDataList.TokensCleanSplit | morelib/util.py:550-554 | the tokens of `returns` are what `cleansplit` gives after expanding a placeholder |
| UtilDataList.FieldsPerToken | morelib/util.py:558-566 | with known tokens only, each token gives one attribute, in order; unknown tokens give none |
| UtilDataList.RecordFields | morelib/util.py:557-566 | the inner loop of `_group_items` collects the attributes the tokens name |
| UtilDataList.GroupItems | morelib/util.py:548-571 | `_group_items`: one entry per record, in order, a single attribute alone and several as a tuple |
| UtilDataList.ProjectRecords | morelib/util.py:556-571 | the outer loop of `_group_items` projects every record |
| UtilDataList.GroupEach | morelib/util.py:695-699 | the loop of `rank` applies `_group_items` to each group, in order |
| UtilDataList.KeysOrCount | morelib/util.py:727 | a missing key falls back to the count, so the key list is never empty |
| UtilDataList.RankEnds | morelib/util.py:701-707 | the first group of `rank` holds the records with the least key (the greatest under `reverse`), and the last group those with the greatest |
| UtilDataList.FlattenEnds | morelib/util.py:703-707 | the flattened groups start with the first group and end with the last |
| UtilDataList.DataList.constructor | morelib/util.py:438-452 | every entry added in turn, then the total and weights computed from the counts |
| UtilDataList.DataList.Update | morelib/util.py:481-499 | `add` of each entry, then `_weight_update`; the items stay distinct |
| UtilDataList.DataList.WeightUpdate | morelib/util.py:473-479 | the total becomes the sum of the counts, and each weight `count/total`, or 0 when the total is 0; items and counts are untouched |
| UtilDataList.DataList.WeightsSumToOne | morelib/util.py:473-479 | with a non-zero total, the weights add up to 1 |
| UtilDataList.DataList.Add | morelib/util.py:503-518 | the records become `AddSpec`; the total is not recomputed |
| UtilDataList.DataList.Subtract | morelib/util.py:520-537 | the records become `SubtractSpec`, then the total and weights are recomputed |
| UtilDataList.DataList.Clear | morelib/util.py:539-544 | every count becomes 0, every record stays in order, and the total and weights are 0 |
| UtilDataList.DataList.Get | morelib/util.py:613-630 | the count of the first record of `key`; failing that, the positional record for an integer key, or None; the weights are recomputed only when nothing matched |
| UtilDataList.DataList.Set | morelib/util.py:632-654 | the clamped value becomes the count of `key`'s record; as written, UnboundLocalError for an integer key on an empty list |
| UtilDataList.DataList.Elements | morelib/util.py:595-598 | each item `int(count)` times, and only items with a record |
| UtilDataList.DataList.Rank | morelib/util.py:679-699 | IndexError exactly on an empty list; otherwise `ranked` by the key (default: the count), each group through `_group_items` |
| UtilDataList.DataList.Top | morelib/util.py:701-703 | the first group of `rank` |
| UtilDataList.DataList.Bottom | morelib/util.py:705-707 | the last group of `rank` |
| UtilDataList.DataList.Sort | morelib/util.py:709-729 | IndexError exactly on an empty list; otherwise `multisorted` by the keys (default: the count) through `_group_items` |
| UtilDataList.SumZeros | morelib/util.py:541-543 | a list of zeros sums to zero |
| RandomLists.Pair.constructor | morelib/random.py:171 | a new `[element, weight]` pair |
| RandomLists.Without | morelib/random.py:231 | `list.remove` of one position leaves one element fewer: the elements before it stay, and those after it move down by one |
| RandomLists.DistinctWithout | morelib/random.py:231 | taking out a pair keeps the pairs distinct |
| RandomLists.SnapshotOf | morelib/random.py:278-284 | the pairs read as (element, weight) values, one per pair, in order |
| RandomLists.WeightsOf | morelib/random.py:282-284 | `weights()` is the second projection of the pairs |
| RandomLists.ElemsOf | morelib/random.py:278-280 | `elems()` is the first projection of the pairs |
| RandomLists.WeightsOfPrefix | morelib/random.py:355-358 | the running weights grow by one weight per pair scanned |
| RandomLists.FirstIndex | morelib/random.py:253-260 | `list.index(x)`: none exactly when `x` is absent; otherwise a position of `x` with no `x` before it |
| RandomLists.CountInMultiset | morelib/random.py:262-264 | `list.count(x)` is the multiplicity of `x` |
| RandomLists.CountFindsIndex | morelib/random.py:253-264 | `count(x)` is positive exactly when `index(x)` succeeds |
| RandomLists.WithoutCounts | morelib/random.py:231 | removing a position lowers the count of its element by one and leaves the other counts alone |
| RandomLists.CountInAppend | morelib/random.py:222 | counting distributes over concatenation |
| RandomLists.DefaultWeightsInOrder | morelib/random.py:212-219 | appends without a weight use the stored weights in order, then `key(x)`, then 0.0 |
| RandomLists.SurplusWeightsUsed | morelib/random.py:168-169 | the surplus weights of the two-list form go, in order, to the next appends without a weight |
| RandomLists.SumConstant | morelib/random.py:400-403 | a list of `n` copies of `c` sums to `n * c` |
| RandomLists.UniformSumsToOne | morelib/random.py:400-403 | after `uniform()` the weights of a non-empty list sum to 1 |
| RandomLists.NormalizedKeepsElems | morelib/random.py:405-409 | `normalize()` moves no element |
| RandomLists.NormalizedSumsToOne | morelib/random.py:405-409 | after a `normalize()` that succeeds, the weights sum to 1 |
| RandomLists.NormalizedFails | morelib/random.py:405-409 | with non-negative weights, `normalize()` raises ZeroDivisionError exactly when every weight is 0 |
| RandomLists.AgeRaisesOdds | morelib/random.py:411-422 | `age()` multiplies the odds of an element not chosen last, against one chosen last, by the coefficient |
| RandomLists.CandidatesMember | morelib/random.py:337-340 | a pair is a candidate exactly when its weight is positive and, under no-repeat, its element is not in the cache |
| RandomLists.Swap | morelib/random.py:349 | one swap of the shuffle exchanges two positions and keeps the rest |
| RandomLists.SwapPermutes | morelib/random.py:349 | a swap keeps the contents |
| RandomLists.ShuffleDown | morelib/random.py:349 | the shuffle's swaps keep the length |
| RandomLists.ShuffleDownPermutes | morelib/random.py:349 | the shuffle's swaps keep the contents |
| RandomLists.Shuffle | morelib/random.py:349 | `random.shuffle` keeps the length |
| RandomLists.ShufflePermutes | morelib/random.py:349 | `random.shuffle` rearranges the candidates, whatever the random choices |
| RandomLists.PickIndex | morelib/random.py:355-363 | the scan stops at a candidate |
| RandomLists.PickIndexFrom | morelib/random.py:355-363 | the scan from a position stops at the first later candidate whose running total passes the draw, or at the last |
| RandomLists.PickIndexFirst | morelib/random.py:355-363 | the scan stops at the first candidate whose running total passes the draw, or at the last candidate |
| RandomLists.PickInInterval | morelib/random.py:355-361 | a draw in `[0, total)` lies in the interval of the candidate picked |
| RandomLists.Scan | morelib/random.py:352-363 | the scan loop picks the candidate `PickIndex` names |
| RandomLists.DrawOne | morelib/random.py:349-363 | the shuffle, the draw `random.uniform(0.0, total)` taken for the candidates' total, and the scan |
| RandomLists.DrawnIsCandidate | morelib/random.py:349-363 | the drawn element is a candidate's element |
| RandomLists.AgeStateFrom | morelib/random.py:370-371 | the state after `age()` inside `choice`, read off its outcome |
| RandomLists.AgeStateKeeps | morelib/random.py:370-371 | aging inside `choice` changes only weights and the error |
| RandomLists.RoundsStopAtError | morelib/random.py:335-371 | once a round raises, the later ones change nothing |
| RandomLists.RoundDrawsCandidate | morelib/random.py:337-364 | a round that does not raise NoItemsLeft draws a candidate and appends it to the choices |
| RandomLists.RoundKeepsFresh | morelib/random.py:339-369 | under no-repeat, a round keeps the choices new: none was in the cache before or among the earlier choices |
| RandomLists.RoundsNoRepeat | morelib/random.py:335-371 | under no-repeat, the returned elements are pairwise distinct |
| RandomLists.RoundsFresh | morelib/random.py:335-371 | under no-repeat, every round keeps the choices new |
| RandomLists.RoundKeepsElements | morelib/random.py:335-371 | aging and normalizing change weights, never elements |
| RandomLists.RoundChoosesElement | morelib/random.py:337-371 | one round keeps the elements and adds one element of the list to the choices when it does not raise |
| RandomLists.RoundsChooseElements | morelib/random.py:335-371 | every returned element is an element of the list, and without an error there are exactly `k` of them |
| RandomLists.RoundsNext | morelib/random.py:335 | the rounds over `i + 1` draws are one more round after the first `i` |
| RandomLists.RoundRecords | morelib/random.py:364-371 | a round that finds candidates records the draw in `_last` and, under no-repeat, in the cache, then ages if asked |
| RandomLists.InitialItems | morelib/random.py:165-183 | the constructor builds fresh, distinct pairs whose values are `InitialPairs` for each argument form |
| RandomLists.PairsOfOneList | morelib/random.py:173-183 | a tuple gives its weight, a bare element `key(x)` with a key and `1/len` without one |
| RandomLists.PairsOfTwoLists | morelib/random.py:165-171 | one fresh pair per element, and element `i` gets `weights[i]` when there is one, 0.0 otherwise |
| RandomLists.RandomList.constructor | morelib/random.py:153-162 | the initial field values |
| RandomLists.RandomList.Make | morelib/random.py:124-190 | ValueError exactly when some weight is negative; otherwise the pairs of the argument form, the surplus weights stored, and the options configured |
| RandomLists.RandomList.Len | morelib/random.py:308-309 | `len(rl)` is the number of pairs |
| RandomLists.RandomList.Elems | morelib/random.py:278-280 | the elements, in list order |
| RandomLists.RandomList.Weights | morelib/random.py:282-284 | the weights, in list order |
| RandomLists.RandomList.ElemsAndWeights | morelib/random.py:278-284 | `elems()` and `weights()` are the two halves of the pairs, position by position |
| RandomLists.RandomList.Index | morelib/random.py:253-260 | ValueError exactly when `req` is absent; otherwise the first position holding it |
| RandomLists.RandomList.Count | morelib/random.py:262-264 | the multiplicity of `req`, positive exactly when `index` succeeds |
| RandomLists.RandomList.At | morelib/random.py:301-303 | IndexError exactly when `items[pos]` fails; otherwise the element there, counted from the end when negative |
| RandomLists.RandomList.WeightOf | morelib/random.py:286-299 | ValueError exactly when `req` is absent; otherwise the weight of its first pair |
| RandomLists.RandomList.Configure | morelib/random.py:424-441 | each option given replaces its setting, and the backup is re-taken when aging is on |
| RandomLists.RandomList.Append | morelib/random.py:204-223 | the weight comes from the fallback chain and a stored weight is used up; ValueError for a negative weight; otherwise a new pair at the end, and then `configure()` |
| RandomLists.RandomList.Remove | morelib/random.py:225-237 | ValueError exactly when `req` is absent; otherwise the first pair holding it is taken out and returned, the others kept in order |
| RandomLists.RandomList.Pop | morelib/random.py:239-241 | as written: IndexError out of range; otherwise the element at `pos` is returned, and the first pair holding that element is taken out |
| RandomLists.RandomList.PopAt | morelib/random.py:239-241 | as documented: the pair at `pos` itself is taken out and its element returned |
| RandomLists.RandomList.Clear | morelib/random.py:243-245 | the pair list becomes empty, and nothing else changes |
| RandomLists.RandomList.ClearAll | morelib/random.py:247-251 | the pair list, the stored weights and the key are cleared |
| RandomLists.RandomList.Uniform | morelib/random.py:400-403 | every weight becomes `1/len`, in place |
| RandomLists.RandomList.Normalize | morelib/random.py:405-409 | every weight is divided by the sum, in place; ZeroDivisionError for a non-empty zero sum, leaving the weights alone |
| RandomLists.RandomList.Age | morelib/random.py:411-422 | the weights of the elements not in `_last` are multiplied by the coefficient, then normalized; on ZeroDivisionError the multiplied weights stay |
| RandomLists.RandomList.Choice | morelib/random.py:317-376 | the outcome, choices, weights and `_last` of `k` rounds over the given draws, stopping at the first error; on success under the stored no-repeat setting the aliased `+=` leaves the cache doubled |
| RandomLists.RandomList.Loop | morelib/random.py:335-371 | the loop of `choice` is `Rounds` over the first `n` draws, stopping at the first error |
| RandomLists.RandomList.Pick | morelib/random.py:337-369 | one round's candidates, draw and bookkeeping, or NoItemsLeft when no candidate is left; the weights are untouched |
| RandomLists.RandomList.Step | morelib/random.py:337-371 | one pass of the loop is `Round` |
| RandomLists.RandomList.AgeRound | morelib/random.py:370-371 | the aging at the end of a round is `AgeState` |
| RandomLists.RandomList.ResetRepeated | morelib/random.py:445-447 | as written, it assigns an attribute nothing reads and leaves the cache as it was |
| RandomLists.RandomList.ResetAging | morelib/random.py:449-453 | a non-empty backup becomes the pair list again and the backup empties; otherwise nothing changes |
| RandomLists.PopTakesFirstTwin | morelib/random.py:239-241 | on `[[7, 1.0], [7, 2.0]]`, `pop()` leaves `[[7, 2.0]]` |
| RandomLists.PopAtTakesLast | morelib/random.py:239-241 | on the same list, the corrected `pop()` leaves `[[7, 1.0]]` |
| RandomLists.AgedExample | morelib/random.py:411-422 | aging two unit weights, with nothing chosen last and coefficient 2, gives 0.5 each |
| RandomLists.ResetKeepsAgedWeights | morelib/random.py:440-453 | `reset_aging()` after one `age()` hands back the aged weights, because the backup shares its pairs with the list |
| VectorMath.Normalize | morelib/math.py:29-41 | TypeError exactly when an entry is negative; ZeroDivisionError exactly for a non-empty list of zeros; otherwise each entry divided by the sum |
| VectorMath.SharesSumToOne | morelib/math.py:36-39 | the shares of a non-empty list add up to 1 |
| VectorMath.EntryAtMostSum | morelib/math.py:35-38 | an entry of a list of natural values is between 0 and the sum |
| VectorMath.SumNatural | morelib/math.py:35-38 | a sum of natural values is natural |
| VectorMath.SharesBetweenZeroAndOne | morelib/math.py:35-39 | every share of a list of natural values lies in [0, 1] |
| VectorMath.SharesIdempotent | morelib/math.py:35-39 | normalizing a normalized list changes nothing |
| VectorMath.BoundsOf | morelib/math.py:56-60 | the four bounds, the first and last of each sequence in the two-sequence form; ValueError for a sequence of fewer than two; UnboundLocalError for any other argument count |
| VectorMath.Remap | morelib/math.py:43-70 | `remap` succeeds exactly when the bounds are read, both ranges are increasing, and the value is an integer of the original range; otherwise the error of reading the bounds, or ValueError |
| VectorMath.RemapBetween | morelib/math.py:62-70 | once the bounds are read, ValueError exactly when a range is empty or reversed or the value is not an integer of the original range |
| VectorMath.RemapRangesUseEnds | morelib/math.py:56-58 | the two-sequence form equals the four-bound form on the ends of the sequences |
| VectorMath.RemapEndpoints | morelib/math.py:62-70 | `remap(omin) == dmin` and `remap(omax) == dmax` |
| VectorMath.RemapWithin | morelib/math.py:68-70 | every result lies in `[dmin, dmax]` |
| VectorMath.RemapIncreasing | morelib/math.py:68-70 | a larger value maps to a strictly larger result |
| VectorMath.BetweenIncreasing | morelib/math.py:62-70 | `RemapIncreasing` once the bounds are read |
| VectorMath.AffineIncreasing | morelib/math.py:68-69 | the formula of `remap` increases strictly on the original range |
| VectorMath.RemapRoundTrip | morelib/math.py:68-70 | carrying the result back to the original range gives the value again |
| VectorMath.Products | morelib/math.py:98-105 | one product per position |
| VectorMath.Scaled | morelib/math.py:91 | `[v * n for n in w]` has `v * w[i]` at each position |
| VectorMath.ProductColumnStep | morelib/math.py:102-103 | one more list multiplies the running product by its entry |
| VectorMath.VectorProduct | morelib/math.py:73-108 | the method computes `VectorProductSpec`: scalar branch by recursion, list branch by the nested loops |
| VectorMath.EntryProduct | morelib/math.py:101-104 | the inner loop leaves the product of every list's entry at that position |
| VectorMath.VectorsMultiplyEntrywise | morelib/math.py:96-108 | with a list `v`: ValueError exactly when some length differs from `len(v)`; otherwise entry `i` is `v[i] * w[i]` times every further list's entry `i` |
| VectorMath.ProductCons | morelib/math.py:101-103 | a product with one more entry in front is that entry times the product |
| VectorMath.VectorProductCommutes | morelib/math.py:96-105 | the product of two lists does not depend on their order |
| VectorMath.ScalarThenVectors | morelib/math.py:89-95 | with a number `c`: `w` scaled by `c`; with further lists, ValueError exactly when their lengths differ from `len(w)`, and otherwise entry `i` is `c * w[i]` times their entries |
| VectorMath.ScaledRowTimesColumns | morelib/math.py:91-93 | the recursive call on the scaled list gives `c` times the column products |
| VectorMath.SameLengthSplit | morelib/math.py:98 | all lengths agree exactly when the first does and the rest do |
| VectorMath.ColumnCons | morelib/math.py:101-103 | a column's product is its first entry times the product of the rest |
| VectorMath.DotProduct | morelib/math.py:110-120 | the sum of `vector_product`; its ValueError raised again as ValueError |
| VectorMath.Pairwise | morelib/math.py:100-104 | the entry-wise products of two lists |
| VectorMath.DotProductOfTwo | morelib/math.py:110-120 | the dot product of two lists is symmetric, is ValueError exactly when their lengths differ, and otherwise is the sum of the entry-wise products |
| VectorMath.SumScaled | morelib/math.py:110-120 | the sum of a scaled list is the scaled sum |
| VectorMath.DotProductScalar | morelib/math.py:89-120 | the dot product of a number and one list is the number times the list's sum |

## Left out

- morelib/io.py is not part of this model. It is file input wrapped around `split`/`strip`, which `cleansplit` covers.
- setup.py is not part of this model. It is packaging metadata.
- `biased_choice` is not part of this model. It is a module-level wrapper that builds a `RandomList` and calls `choice`.
- `RandomGenerator` is not part of this model. It is Python's generator protocol around `choice`.
- `Singleton`, `Globale`, `isiterable` and `empty_generator` are not part of this model. They are metaprogramming and runtime type checks.
- `__repr__` and `__str__` are not part of this model. They only format output.
- `RandomList.shuffle`, `RandomList.sort`, `RandomList.copy` and `RandomList.get_generator` are not modelled. They delegate to `random.shuffle`, `list.sort` and `list.copy`, or build a `RandomGenerator`.
- `RandomList.uchoice` is not modelled. It is `random.choice` over the elements, with no weights, state or scan.
- `DataList.items`, `counts`, `weights` and `total` are not separate members. Each is one call of `_group_items` (`GroupItems`) or a read of `total`.
- `DataList.filter` is not modelled. It is Python's `filter` followed by `_group_items`.
- Randomness is an input, not a source of randomness. The shuffle's swap indices and the uniform draw are given per round (`Draw`), so the model says nothing about distributions.
- Floating point is not modelled: numbers are exact reals. Equalities such as "the weights sum to 1" hold for reals, not necessarily for Python floats.
- Python's int/float distinction is not modelled. A non-numeric entry is likewise out of reach:
  - `normalize` raises TypeError for it;
  - `remap` hits TypeError in `range` for non-integer bounds, so its original bounds are `int`;
  - `vector_product` returns `None` when `v` is neither a number nor a list.
- Dictionary iteration order is not modelled. `djoin` merges maps, and `dsort` takes the items as a sequence.
- `DataList(**kwargs)` is not modelled: the constructor takes its entries as one sequence of (item, count) pairs.
- Exceptions are modelled by their kind only: no messages, and no `try` inside user key functions except in `distributed`.
- Key functions are total functions to reals. A key that raises or returns a non-comparable value is out of scope, except `distributed`'s, which may raise.
- `UtilClassify.Distributed`: returned labels and exception-type labels are kept apart (`Returned(k)` and `Raised(x)`). So an item whose key returns an exception class does not share a bucket with an item whose key raises that exception type, as it would in the code's one dictionary.
- `str.strip` removes the ASCII whitespace only. Unicode whitespace and case are not modelled.
- `RandomList.index` ignores `start` and `end`, as the code does.
- `UtilStrings.NSplit`: its own ensures states only the error case. What it computes is stated for every `n` by `NSplitFewOccurrences` and `NSplitAtOccurrence` (n >= 0), `NSplitMinusOne` (n = -1) and `NSplitFromEnd` (n < -1).
- `UtilLists.DJoin`: `oper` is a total function, so the TypeError that `+` raises for values it cannot add is not modelled. The merge works on values, so the aliasing of `ret[key] = value` followed by `ret[key] += value` is not modelled either: on a list value, that `+=` also changes the first input dictionary's list.
- `UtilDataList.GroupItems`: the `dataitem` token (the default of `items`, `rank`, `top`, `bottom` and `sort`) yields copies of the records (`Record(d)` is a value). In the code it yields the live `_DataItem` objects, so a later `add`, `subtract`, `set`, `clear` or weight update changes records a caller already holds, and a caller's write to one changes the list. That aliasing is not modelled.
- `UtilDataList.DataList.Subtract`: assumes distinct items, which every operation keeps. With duplicate items the code would lower every matching count.
- `RandomLists.RandomList.Choice`: the duplication of the cache is stated, and the weights' evolution is stated through `Rounds`. The model does not prove how likely any element is.

Code that the model follows as written, not as documented:
- `reset_repeated` assigns an attribute that nothing reads, so the cache is not cleared.
- `choice` aliases `repeated` to `_repeated_cache`, so the final `+=` doubles the whole cache, earlier entries included: a cache `[a]` before a call that draws `b` ends as `[a, b, a, b]`.
- `reset_aging` puts back the same pair objects that `age` and `normalize` rescaled, so it restores membership and order, not weights (`ResetKeepsAgedWeights`).
- `DataList.set`'s integer branch writes the last record iterated (`SetIntegerWritesLast`). On an empty list that branch raises UnboundLocalError, and a new non-integer key is never added.
- `Biter.forward` and `backward` treat `pos=0` like no position.
- `DataList.subtract` lowers the count by `cnt` without clamping it at 0, although its docstring says "fixed to 0", so a count can go negative (`SubtractLowers`).

## Findings

| source | as written | input that shows it | evidently intended | confidence | as-written member | corrected member |
|---|---|---|---|---|---|---|
| morelib/random.py:239-241 | `pop(pos)` removes the first pair whose element equals the element at `pos` | `RandomList([7, 7], [1.0, 2.0]).pop()` leaves `[[7, 2.0]]` | the pair at `pos` is removed, leaving `[[7, 1.0]]` | not executed | RandomLists.PopTakesFirstTwin | RandomLists.RandomList.PopAt |
| morelib/util.py:333-363 | a negative start is stored unnormalised in `_pos` | `Biter([1, 2, 3], -1)` stands on 3, yet `has_next()` is true, `next()` moves to 1, and `has_prev()` is false | the position counted from the front (2), so that `has_next` is false and `has_prev` true | not executed | UtilBiter.RawNegativeStart | UtilBiter.Biter.constructor |

In the first row, `RandomList.Pop` is the method as written and `PopAtTakesLast`
runs the corrected method on the same list. In the second row, the
constructor stores the position counted from the front. Its invariant
`Valid()` (`0 <= pos < len`, `current == items[pos]`) is what `Next`,
`Prev`, `HasNext`, `HasPrev` and `BackwardThenForward` rely on.
