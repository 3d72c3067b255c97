# sifbase: the array layer and the key/value facade, in Dafny

This project models the core of sifbase, a small JavaScript database wrapper over Keyv:

- **`ArrayManager`** (src/ArrayManager.js) keeps a JavaScript-style array inside a
  key/value store. Each occupied position `i` is stored under the key spelled by `i`.
  The occupied positions form a Set, `indexes`, which is persisted under the reserved
  key `"indexes"`. Operations on the array (`set`, `push`, `delete`, `splice`,
  `filter`, ...) become reads and writes of that store.
- **`Sifbase`** (src/index.js) is the store the array talks to. It is a facade over one
  Keyv table that remembers, in its `cache`, the last value read or written per key.
  Handles are shared through a static registry keyed by (path, namespace).

Each `await` of the source is read as an ordinary call, in program order.

## How the model is laid out

| module (file) | what it holds |
|---|---|
| `JsValues` (values.dfy) | JavaScript values, truthiness, `??`, the thrown errors, and `Index`: an argument after the source's `isNaN` test |
| `JsText` (text.dfy) | the decimal spelling of a position as a store key and its parse (the array-index test), `substring`, `lastIndexOf`, the global replace of `%20`, `split` and `join` |
| `IndexSets` (indexsets.dfy) | the Set of positions: no duplicates, `new Set(list)`, numeric sorting, `[lo..hi)` ranges, and the `"indexes"` record |
| `Database` (database.dfy) | the `Sifbase` class, the Keyv handle (`KeyvStore`, a map from keys to values) and the `NAMESPACED_TABLES` registry |
| `ArraySpec` (arrayspec.dfy) | the value-level meaning of an array: the items shown at a list of positions, what `filter` selects, `[].concat(...)`, the raw array of `fromRawMap` |
| `Deletion` (deletion.dfy) | `delete(p)` and `splice` as functions on values, and their effect on the contiguous positions `[0..n)` |
| `Arrays` (arrays.dfy) | the `ArrayManager` class; each method is proved against the functions above |

`delete(p)` is modelled as written, for every state and not only for well-formed arrays.
The Set its loop walks is the Set that `set` adds to and then replaces. So the first
`set` that adds a position appends that position to the walk (`WalkStep`, with the
`live` flag); later ones do not. The method `Delete` is proved to yield `DeleteOutcome`,
the fold of `WalkStep` followed by the sweep.

On the contiguous positions `[0..n)` (what an array built by `push` has),
`DeleteContiguous` proves the intended effect:

- the item at `p` is removed and every later item moves down by one;
- `"indexes"` holds `[0..n-1)`.

When `p` is the last position, its key is left in the store, orphaned. `DeleteEffectKeys`
states this. `SpliceContiguous` proves that `splice(s, k)` on `[0..n)` removes the run of
`min(k, n-s)` items starting at `s`: `[a,b,c,d]` with `splice(1, 2)` becomes `[a,d]`.

`slice(0, e)` reads the `0` as "missing". For a non-zero `e` the window then starts after
the last position, so on a sorted array it selects nothing. `slice(0)` and `slice(0, 0)` are
`slice()`, whose window is `[0, lastIndex + 1)`: on `[0..n)` that is every item, but a
negative position is never inside it (`set(-1, x)` on an empty array, then `slice()`, gives
`[]`). The `Slice` contract states these cases.

## Model

| member | source | states |
|---|---|---|
| `JsValues.Coalesce` | src/index.js:253 | `v ?? d` is `d` exactly when `v` is `null` or `undefined`, and `v` itself otherwise (so `0`, `""` and `false` are kept) |
| `JsText.DigitValue` | src/ArrayManager.js:98 | a digit character's value is below 10 and spells back as that character |
| `JsText.NatToString` | src/ArrayManager.js:98 | the key of a position is never empty |
| `JsText.ParseIndex` | src/ArrayManager.js:67 | only a non-empty name can be accepted as an array index, and an accepted index is below 2^32 - 1 |
| `JsText.LeadingDigitPositive` | src/ArrayManager.js:67 | a digit string that does not start with '0' denotes a positive number |
| `JsText.NatToStringDigits` | src/ArrayManager.js:98 | the key of a position is all digits, with no leading zero |
| `JsText.IntToString` | src/ArrayManager.js:98 | the key of a position is never empty and starts with `-` exactly for a negative position |
| `JsText.NotIndexesKey` | src/ArrayManager.js:112 | no position's key is the reserved key `"indexes"` |
| `JsText.ParseIndexOfString` | src/ArrayManager.js:67 | the array-index test accepts the spelling of every position below 2^32 - 1 and reads back that position |
| `JsText.StringOfParseIndex` | src/ArrayManager.js:67 | every name the array-index test accepts is the canonical spelling of its index |
| `JsText.NatOfDigits` | src/ArrayManager.js:67 | a digit string without a leading zero is the spelling of its value |
| `JsText.DigitsOfNat` | src/ArrayManager.js:67 | the spelling of n is all digits and its value is n |
| `JsText.IntToStringInjective` | src/ArrayManager.js:117 | two positions share a store key only if they are equal |
| `JsText.SignedKeysDiffer` | src/ArrayManager.js:117 | a negative position and a non-negative one never share a key |
| `JsText.NegativeKeys` | src/ArrayManager.js:117 | two negative positions share a key only if they are equal |
| `JsText.NatToStringInjective` | src/ArrayManager.js:117 | distinct naturals are spelled differently |
| `JsText.PositionKeys` | src/ArrayManager.js:112-117 | all positions at once: keys are distinct and none is `"indexes"` |
| `JsText.EndsWithConcat` | src/index.js:207 | `s.endsWith(x)` holds exactly when `s` is some stem followed by `x` |
| `JsText.Substring` | src/index.js:153 | `substring` clamps both bounds to the string and swaps them when start exceeds end: in bounds it is the slice between them, whichever comes first |
| `JsText.LastIndexOf` | src/index.js:153 | the result is -1 or an occurrence of the character, and no occurrence lies after it |
| `JsText.DecodeSpaces` | src/index.js:153 | replacing `%20` never lengthens the string, and a string without `%` is unchanged |
| `JsText.DecodeSpacesHead` | src/index.js:153 | a decoded string that does not start with a space starts with the input's first character, copied unchanged |
| `JsText.DecodeSpacesTwenty` | src/index.js:153 | a decoding that starts with "20" comes from an input that starts with "20" |
| `JsText.NoLeadingTwenty` | src/index.js:153 | a string that does not start with "%20" is not a '%' followed by "20" |
| `JsText.OccursAfterPrefix` | src/index.js:153 | an occurrence past a prefix is an occurrence in the rest |
| `JsText.OccursAfterChar` | src/index.js:153 | "%20" starts a string exactly when it is '%' followed by "20" |
| `JsText.DecodeSpacesComplete` | src/index.js:153 | after the global replace no `%20` remains anywhere, even where a removal joins new neighbours |
| `JsText.Split` | src/index.js:154 | `split` always yields at least one piece |
| `JsText.JoinLength` | src/index.js:154 | `join` is at least as long as its first piece plus one separator per further piece |
| `JsText.JoinSplit` | src/index.js:154 | joining the pieces of a split with the same separator restores the string |
| `JsText.JoinSplitAtSep` | src/index.js:154 | a string that starts with the separator splits into an empty piece followed by the pieces of the rest |
| `JsText.JoinSplitAtChar` | src/index.js:154 | a string that does not start with the separator puts its first character at the head of the first piece |
| `JsText.JoinHead` | src/index.js:154 | text put in front of the first piece is put in front of the joined string |
| `JsText.JoinCons` | src/index.js:154 | joining a piece before non-empty pieces puts one separator between them |
| `JsText.DropDriveLetter` | src/index.js:154 | on a path starting with "/C:", `split("C:").slice(1).join("C:")` drops exactly that prefix and keeps every later "C:" |
| `IndexSets.RangeAscending` | src/ArrayManager.js:158-161 | `[lo..hi)` is strictly ascending, has no duplicates, and holds exactly the integers in the interval |
| `IndexSets.Without` | src/ArrayManager.js:128 | `Set.delete(x)` leaves exactly the other members, and a duplicate-free Set stays duplicate-free |
| `IndexSets.Dedup` | src/ArrayManager.js:20 | `new Set(list)` has no duplicates, no more elements than the list, and exactly its members |
| `IndexSets.DedupOfNoDup` | src/ArrayManager.js:20 | a list without duplicates becomes a Set with the same order |
| `IndexSets.NoDupAppend` | src/ArrayManager.js:137 | appending a new element keeps a list duplicate-free |
| `IndexSets.WithoutAt` | src/ArrayManager.js:128 | deleting the member at i of a duplicate-free list leaves the members before it followed by those after it, in order |
| `IndexSets.DedupPrefix` | src/ArrayManager.js:20 | the Set of any prefix of the list is a prefix of the Set of the list, so numbers keep the order of their first occurrences |
| `IndexSets.WithoutAbsent` | src/ArrayManager.js:128 | deleting a non-member changes nothing |
| `IndexSets.WithoutRange` | src/ArrayManager.js:128 | removing p from `[0..n)` leaves `[0..p)` followed by `[p+1..n)` |
| `IndexSets.WithoutRangeTop` | src/ArrayManager.js:128 | removing n-1 from `[0..n)` leaves `[0..n-1)` |
| `IndexSets.WithoutRangeStep` | src/ArrayManager.js:128 | the shape of `[0..n)` without p follows from that of `[0..n-1)` without p |
| `IndexSets.RangeLast` | src/ArrayManager.js:158-161 | `[lo..hi)` is `[lo..hi-1)` followed by `hi-1` |
| `IndexSets.InsertSorted` | src/ArrayManager.js:111 | inserting into a sorted list keeps it sorted and adds exactly that element |
| `IndexSets.Sort` | src/ArrayManager.js:111 | the numeric sort `(a, b) => a - b` yields a sorted permutation of its input |
| `IndexSets.InsertBehind` | src/ArrayManager.js:111 | inserting an element past the head of a sorted list keeps the head in front |
| `IndexSets.SortedCons` | src/ArrayManager.js:111 | an element no greater than a sorted list's head can be put in front of it |
| `IndexSets.SortedDistinctAscending` | src/ArrayManager.js:110-111 | a sorted permutation of a duplicate-free list is strictly ascending, with the same members |
| `IndexSets.DuplicateCount` | src/ArrayManager.js:110-111 | an element found at two indexes occurs at least twice |
| `IndexSets.NoDupCount` | src/ArrayManager.js:110-111 | in a duplicate-free list each element occurs at most once |
| `IndexSets.AscendingUnique` | src/ArrayManager.js:111 | two strictly ascending lists with the same members are equal |
| `IndexSets.SameMembersEmpty` | src/ArrayManager.js:111 | lists with the same members are empty together |
| `IndexSets.MembersNonEmpty` | src/ArrayManager.js:111 | a list that holds every member of a non-empty list is non-empty |
| `IndexSets.AscendingHeads` | src/ArrayManager.js:111 | ascending lists with the same members have the same head |
| `IndexSets.AscendingTails` | src/ArrayManager.js:111 | ascending lists with the same members and head have tails with the same members |
| `IndexSets.AscendingRange` | src/ArrayManager.js:111 | an ascending list holding exactly the integers of `[lo..hi)` is that range |
| `IndexSets.AscendingAppend` | src/ArrayManager.js:159 | appending an element above every member keeps a list ascending |
| `IndexSets.AscendingLast` | src/ArrayManager.js:76 | the last element of an ascending list is its largest |
| `IndexSets.RecordRoundTrip` | src/ArrayManager.js:51-56 | persisting a list and reading the record back gives the same list |
| `IndexSets.IndexList` | src/ArrayManager.js:51-56 | a record that reads back as a list persists as the very same value |
| `Database.Register` | src/index.js:119-120 | the handle is registered under (path, namespace); no other entry changes, and the path's existing inner map is kept |
| `Database.Read` | src/index.js:253 | `keyv.get(key) ?? d`: `d` for a missing, `null` or `undefined` entry; every other stored value, `0`, `""` and `false` included, as it is |
| `Database.KeyvStore.constructor` | src/index.js:115 | a new handle holds what its backing medium already holds |
| `Database.TableRegistry.constructor` | src/index.js:70 | the registry starts empty |
| `Database.Sifbase.constructor` | src/index.js:97-122 | a registered (path, namespace) reuses its handle and leaves the registry alone; otherwise the given or a new handle is used and registered when the path is truthy |
| `Database.Sifbase.IsSifStore` | src/index.js:206-208 | true exactly for a string ending in ".sifdb" |
| `Database.Sifbase.IsJsonStore` | src/index.js:215-217 | true exactly for a string ending in ".json" |
| `Database.Sifbase.BackendFor` | src/index.js:106-115 | JSON and SIFDB paths get a file store, other truthy paths a Keyv adapter, and no path an in-memory table |
| `Database.Sifbase.DirnameOfUrl` | src/index.js:152-156 | the result holds no `%20`; it is the decoded text from index 7 to the last "/", minus its first three characters when that text starts with "/C:" |
| `Database.DirnameOfFileUrl` | src/index.js:152-156 | for `file://dir/file` the result is `dir` decoded, minus a leading "/C:" |
| `Database.Sifbase.Table` | src/index.js:240-244 | no namespace gives the current one; an instance that has a namespace refuses; otherwise a new instance for the namespace, with a reused handle, or a new one that is registered under (path, namespace) when the path is truthy |
| `Database.Sifbase.Get` | src/index.js:252-256 | returns `Read`: the stored value, or the default for a missing, null or undefined one; caches exactly what it returns |
| `Database.Sifbase.Has` | src/index.js:263-265 | true exactly when the stored value is neither missing, null nor undefined; the read is cached |
| `Database.Sifbase.Set` | src/index.js:273-276 | the key holds the value in both the cache and the table, and nothing else changes |
| `Database.Sifbase.Delete` | src/index.js:282-285 | the key is gone from both the cache and the table, and nothing else changes |
| `Database.Sifbase.Clear` | src/index.js:290-293 | the cache and the table are empty |
| `ArraySpec.ItemsOfPointwise` | src/ArrayManager.js:93-99 | two stores that agree on each position's item show the same items |
| `ArraySpec.ItemsOfUpdate` | src/ArrayManager.js:117 | writing a key that no listed position uses changes none of their items |
| `ArraySpec.AppendItem` | src/ArrayManager.js:158-161 | persisting the positions and writing above them appends exactly that item |
| `ArraySpec.ReadBackStep` | src/ArrayManager.js:320-322 | one more pushed value extends what reads back by one item |
| `ArraySpec.Scan` | src/ArrayManager.js:227-231 | the matches among the first k positions number at most k |
| `ArraySpec.Matching` | src/ArrayManager.js:224-234 | all the items exactly when the callback accepts each of them; none exactly when it rejects each of them |
| `ArraySpec.ScanPrefix` | src/ArrayManager.js:227-228 | stopping early yields a prefix of the full list of matches |
| `ArraySpec.MatchingCut` | src/ArrayManager.js:226-231 | the early stop of `filter` returns the first `limit` matches, or all of them |
| `ArraySpec.ScanEmpty` | src/ArrayManager.js:180-182 | no match exactly when the callback rejects every item |
| `ArraySpec.ScanAll` | src/ArrayManager.js:214-216 | as many matches as positions exactly when every item is accepted, and then the matches are all the items |
| `ArraySpec.ScanFirst` | src/ArrayManager.js:180-182 | the first match is the item at the first accepted position |
| `ArraySpec.ScanWindow` | src/ArrayManager.js:297 | on `[0..n)` the window `[lo, hi)` with `lo <= hi` selects the items between the two bounds clamped to the positions seen |
| `ArraySpec.SliceItems` | src/ArrayManager.js:295-297 | over any position list and items: the window that `slice(start, end)` builds selects every item, the clamped range, or the prefix below `start` on `[0..n)`, and nothing for a missing or zero `start` with a non-zero `end` on sorted positions |
| `ArraySpec.WindowSlices` | src/ArrayManager.js:297 | the clamped window over k items is the one over k-1, plus item k-1 when it falls inside |
| `ArraySpec.WindowAboveAll` | src/ArrayManager.js:295-297 | a window that starts above every position selects nothing |
| `ArraySpec.Flatten` | src/ArrayManager.js:319 | `[].concat(...items)` keeps a list with no array argument as it is |
| `ArraySpec.RawArrayUnique` | src/ArrayManager.js:64-70 | the raw array of a map is determined by the map |
| `Deletion.ShiftWritten` | src/ArrayManager.js:131-135 | after the copies from p up to m, position j holds the original item at j+1 |
| `Deletion.ShiftElsewhere` | src/ArrayManager.js:131-135 | a key the copies do not write keeps its entry or its absence |
| `Deletion.SweptStep` | src/ArrayManager.js:139 | sweeping one more position deletes its key unless it is kept |
| `Deletion.SweptTail` | src/ArrayManager.js:139 | on `[0..n)` keeping `[0..n-1)`, the sweep deletes only the key of n-1 |
| `Deletion.SweptNothing` | src/ArrayManager.js:139 | a sweep in which every position is kept deletes nothing |
| `Deletion.DeleteEffectItems` | src/ArrayManager.js:124-143 | on `[0..n)`, the items after `delete(p)` are the old items without the one at p |
| `Deletion.DeleteEffectAt` | src/ArrayManager.js:131-135 | after `delete(p)`, position j shows the old item at j below p and at j+1 from p on |
| `Deletion.DeleteEffectKeys` | src/ArrayManager.js:139-142 | `"indexes"` holds `[0..n-1)`; the key of n-1 is gone when anything shifted and orphaned when p was last; keys outside p..n-1 are untouched |
| `Deletion.SpliceStep` | src/ArrayManager.js:171-173 | deleting at s after d removals at s removes d+1 items starting at s |
| `Deletion.WalkStep` | src/ArrayManager.js:131-138 | only the first `set` that adds a position can extend the walk, and it ends the live phase; `kept` stays duplicate-free |
| `Deletion.Finish` | src/ArrayManager.js:131-138 | running the loop to its end keeps `kept`, the positions that become the new Set, duplicate-free |
| `Deletion.DeleteOutcome` | src/ArrayManager.js:124-143 | after `delete(p)` the positions are a Set without duplicates, and they are persisted under `"indexes"` |
| `Deletion.SpliceRounds` | src/ArrayManager.js:168-174 | `splice` either changes nothing or leaves a duplicate-free Set of positions that is persisted |
| `Deletion.ContiguousStep` | src/ArrayManager.js:131-138 | on `[0..n)` each round of the walk moves to the next stage of the expected walk |
| `Deletion.StepBelow` | src/ArrayManager.js:137 | below p a round only records its position |
| `Deletion.StepAt` | src/ArrayManager.js:132-134 | the round at p+1 writes to p, which re-adds p to the positions and to the walk |
| `Deletion.StepAtWalk` | src/ArrayManager.js:109-112 | that `set` re-sorts to `[0..n)`, persists it and appends p to the walk |
| `Deletion.StepAtShift` | src/ArrayManager.js:132-134 | the stages of the walk just before and after p |
| `Deletion.AddBackMembers` | src/ArrayManager.js:110 | `[0..n)` without p, with p appended, holds each of `0..n-1` once |
| `Deletion.SortAddBack` | src/ArrayManager.js:111 | re-sorting after adding p back gives `[0..n)` |
| `Deletion.StepAbove` | src/ArrayManager.js:132-134 | above p a round copies the untouched item at k+1 to k |
| `Deletion.StepAboveShape` | src/ArrayManager.js:132-134 | the stages of the walk before and after a round above p |
| `Deletion.StepAboveWalk` | src/ArrayManager.js:132-134 | a round above p writes an existing position, so the positions and the walk stay as they are |
| `Deletion.ShiftUnread` | src/ArrayManager.js:133 | no earlier round has overwritten position k+1 when round k reads it |
| `Deletion.StepLast` | src/ArrayManager.js:137 | the re-added p, visited last, is already kept |
| `Deletion.ContiguousFinish` | src/ArrayManager.js:131-138 | on `[0..n)` the walk ends with p's successors shifted down and `[0..n-1)` kept |
| `Deletion.ContiguousRound` | src/ArrayManager.js:131-138 | round k followed by the rest of the walk on `[0..n)` gives the same final state |
| `Deletion.DeleteContiguous` | src/ArrayManager.js:124-143 | `delete(p)` on `[0..n)` leaves the positions `[0..n-1)` and the store `DeleteEffect` |
| `Deletion.DeleteContiguousShift` | src/ArrayManager.js:124-143 | the same, when p is below n-1 |
| `Deletion.ShiftPersisted` | src/ArrayManager.js:139-142 | the sweep and the persisting of `[0..n-1)` after the shift |
| `Deletion.ShiftWalk` | src/ArrayManager.js:131-138 | the whole walk when p is below n-1 |
| `Deletion.DeleteContiguousLast` | src/ArrayManager.js:124-143 | deleting the last position moves nothing and sweeps nothing |
| `Deletion.DeleteContiguousItems` | src/ArrayManager.js:124-143 | `delete(p)` on `[0..n)` removes the item at p and keeps the order of the rest |
| `Deletion.SpliceAbsent` | src/ArrayManager.js:171-173 | `splice` at an unoccupied position changes nothing |
| `Deletion.SpliceContiguous` | src/ArrayManager.js:168-174 | `splice(s, k)` on `[0..n)` leaves `[0..n-m)` and the items without the m from s on, where m is `min(k, n-s)` |
| `Deletion.SpliceContiguousStep` | src/ArrayManager.js:171-173 | one more round keeps that shape |
| `Deletion.SpliceRound` | src/ArrayManager.js:171-173 | a round deletes one more item of the run while any is left, and otherwise changes nothing |
| `Deletion.DeleteRun` | src/ArrayManager.js:172 | `delete(s)` on `[0..k)` as a step between two stores |
| `Deletion.SpliceRoundDelete` | src/ArrayManager.js:172 | a deleting round removes the next item of the run |
| `Arrays.ArrayManager.constructor` | src/ArrayManager.js:18-21 | the positions become `new Set(list)`: the list's members, once each, in the order of their first occurrences (`IndexSets.DedupPrefix`), and the list itself when it has no duplicates |
| `Arrays.ArrayManager.From` | src/ArrayManager.js:50-57 | a missing or falsy record gives an empty array and persists `[]`; a list record gives `new Set(list)`, in the record's order, and leaves the store unchanged; any other record is refused |
| `Arrays.RestoreRange` | src/ArrayManager.js:50-57 | a manager rebuilt from a persisted `[0..n)` has exactly the positions `[0..n)`, in order |
| `Arrays.ArrayManager.LastIndex` | src/ArrayManager.js:75-77 | -1 for an empty array, otherwise an occupied position |
| `Arrays.ArrayManager.LastIndexBounds` | src/ArrayManager.js:75-77 | on sorted positions `lastIndex` is the largest; on `[0..n)` it is n-1, so `length` is `lastIndex + 1` |
| `Arrays.ArrayManager.Has` | src/ArrayManager.js:84-86 | nothing that is not a number is a position |
| `Arrays.ArrayManager.Keys` | src/ArrayManager.js:378-380 | as many keys as `length`; exactly the occupied positions, each once |
| `Arrays.ArrayManager.Get` | src/ArrayManager.js:93-99 | a non-number throws; an unoccupied position gives `undefined` without a store read; otherwise the stored value or the default, cached |
| `Arrays.ArrayManager.Set` | src/ArrayManager.js:106-118 | a non-number throws and changes nothing; an existing position only gets its value; a new one is added, re-sorted, persisted before the value is written; the positions stay ascending and duplicate-free |
| `Arrays.ArrayManager.Push` | src/ArrayManager.js:158-161 | the value is stored at `lastIndex + 1`, as `set` stores it: the exact new positions, store and cache, so every key other than "indexes" and that position's keeps its entry; on sorted positions the value is appended to the items, and `[0..n)` becomes `[0..n+1)` |
| `Arrays.ArrayManager.Clear` | src/ArrayManager.js:148-152 | no positions, `length` 0, `lastIndex` -1, the store holding only `"indexes": []` |
| `Arrays.ArrayManager.Delete` | src/ArrayManager.js:124-143 | a non-number throws; an unoccupied position gives `false` and changes nothing; otherwise the state is `DeleteOutcome` and the positions are persisted |
| `Arrays.ArrayManager.ShiftDown` | src/ArrayManager.js:128-138 | the first loop of `delete` ends in the state of the walk `Finish` |
| `Arrays.ArrayManager.ShiftRound` | src/ArrayManager.js:131-138 | one iteration of that loop is one `WalkStep` |
| `Arrays.ArrayManager.Sweep` | src/ArrayManager.js:139 | the second loop deletes the keys of exactly the positions not kept |
| `Arrays.ArrayManager.Splice` | src/ArrayManager.js:168-174 | a non-number index or amount throws and changes nothing; a missing amount is 1; otherwise the state is `amount` rounds of `SpliceRounds` |
| `Arrays.ArrayManager.Filter` | src/ArrayManager.js:224-234 | the matches in position order, cut to `iterations + 1` of them; all of them by default |
| `Arrays.ArrayManager.ScanUpTo` | src/ArrayManager.js:225-231 | the loop stops at the end or with `limit` matches, holding the matches of the positions it visited |
| `Arrays.ArrayManager.ItemOf` | src/ArrayManager.js:229 | the `get` of the k-th position returns the k-th item and caches it under that position's key |
| `Arrays.ArrayManager.ScanStep` | src/ArrayManager.js:228-230 | one iteration of `filter`'s loop extends the matches of the first k positions to those of the first k+1, by at most one item, and leaves the items as they are |
| `Arrays.ArrayManager.Find` | src/ArrayManager.js:180-182 | the item at the first accepted position, or `undefined` when there is none |
| `Arrays.ArrayManager.AnyMatch` | src/ArrayManager.js:205-207 | true exactly when the first match exists and is not `undefined`; with no `undefined` items, exactly when some item is accepted |
| `Arrays.ArrayManager.Every` | src/ArrayManager.js:214-216 | true exactly when the callback accepts every item |
| `Arrays.ArrayManager.ToRawArray` | src/ArrayManager.js:250-253 | the forced read returns all items in position order |
| `Arrays.ArrayManager.Slice` | src/ArrayManager.js:294-298 | on `[0..n)`: `slice()` and `slice(0)` give every item, `slice(s, e)` the items between s and e clamped to the positions (none when s > e), `slice(s)` those below s; `slice(0, e)` with e non-zero gives nothing on sorted positions |
| `Arrays.ArrayManager.First` | src/ArrayManager.js:303-305 | the first item in Set order, cached under its position's key, or `undefined` with the cache unchanged for an empty array |
| `Arrays.ArrayManager.Last` | src/ArrayManager.js:310-312 | the item at the last position, cached under its key, or `undefined` with the cache unchanged for an empty array |
| `Arrays.ArrayManager.Concat` | src/ArrayManager.js:318-323 | on sorted positions the flattened values are appended in order; `[0..n)` grows by their number; no position is lost, and every key other than "indexes" and the positions' keeps its entry or its absence; the "indexes" record is the current positions afterwards when it was before, or when the positions were sorted and something was pushed; with nothing to push, positions and store are unchanged |
| `Arrays.ArrayManager.ConcatStep` | src/ArrayManager.js:320-322 | one `push` of `concat`'s loop: on sorted positions it appends the value, on `[0..n)` it adds one position, no position is lost, the store outside the managed keys stays as it was, and the "indexes" record is the current positions afterwards when it was before or the positions were sorted |
| `Arrays.ArrayManager.FromRawMap` | src/ArrayManager.js:64-70 | the result is the raw array of the map: index keys become elements, gaps are holes, and keys that are not array indexes are ignored ("length" included; see Left out) |
| `Arrays.PushRange` | src/ArrayManager.js:158-161 | `push` on `[0..n)` yields `[0..n+1)` |
| `Arrays.RawArrayNonIndex` | src/ArrayManager.js:66-68 | assigning a key that is not an array index leaves the raw array as it is ("length" included; see Left out) |
| `Arrays.ArrayManager.AssignKey` | src/ArrayManager.js:66-68 | assigning one more key of the map keeps the array the raw array of the larger map: an index key sets that element, a key that is not an array index changes nothing ("length" included; see Left out) |
| `Arrays.RawArraySet` | src/ArrayManager.js:66-68 | assigning index i sets element i, growing the array with holes when i is past its end |

## Left out

- src/SifStore.js is not part of this model. It is a wrapper over the `keyv-file` library, which is not visible. A store opened on a JSON or SIFDB file is modelled only by its `Backend` tag.
- The `SIFDB` class, `importJSON`, `importSIFDB` and `export` in src/index.js: filesystem I/O, JSON and base64.
- The `dirname` getter reads a stack trace and `process.platform`. `Sifbase.await` is a timer.
- Keyv itself is not modelled: construction options, the error handler, key expiration (`expirationTime`), `opts`, and key prefixing by namespace. Each handle is one map from keys to values, and what a new handle's medium already holds is a parameter (`persisted`).
- The Proxy property sugar of both classes; it forwards to `get` and `set`.
- The asynchronous iterators, and the cached `#rawArray` that is rebuilt in the background. `toRawArray()` without `forced` returns that cache, so only the forced read is modelled.
- Interleavings of concurrent calls. Every `await` is read as a call that completes before the next statement.
- `findIndex`, `map`, `forEach`, `toSet`, `reverse`, `at`, `includes`, `join` and `values` of ArrayManager, and `fromKeyv`, `fromStore` and `asArray` of Sifbase. These are outside the modelled core, and `values` is the forced `toRawArray`.
- Numbers are integers. A fractional or non-canonical position such as `1.5` or `"01"` is not modelled. `isNaN` and `Number(...)` are abstracted into `Index`: a number or not one.
- A store key for a position is the decimal spelling of the position (`IntToString`). What Keyv does to a numeric key is outside the model.
- `from` refuses a truthy `"indexes"` record that is not a list of numbers, with `MalformedIndexRecord`. In the source, `new Set(record)` throws a TypeError for a record that is not iterable, such as `5` or `true`. A string record becomes a Set of its characters, and a list keeps its non-number elements. The model refuses all of these alike.
- The `cache` of `Sifbase` is keyed here by strings, and a position is cached under its decimal spelling. In the source it is a JavaScript Map keyed by the argument as given. ArrayManager passes numbers, so in the source `cache.get("1")` misses after `set(1, v)`; the model merges the two keys. For the same reason the map given to `fromRawMap` has only string keys.
- The registry's namespace is an `Option<string>`, so a `null` namespace and an `undefined` one are the same key here. The source's Map keeps them apart.
- `Arrays.ArrayManager.Delete`: for an occupied position the contract does not say what happens to the cache, which the walk's `get` and `set` calls fill.
- `Arrays.ArrayManager.Filter`: the contract does not say what the cache becomes; each `get` and `set` it makes caches the value under its key. Only `Get`, `Set`, `Push`, `Clear`, `ItemOf`, `First` and `Last` state the new cache.
- `Arrays.ArrayManager.ScanUpTo`: the new cache is not stated, as for `Filter`.
- `Arrays.ArrayManager.ScanStep`: the new cache is not stated, as for `Filter`.
- `Arrays.ArrayManager.Find`: the new cache is not stated, as for `Filter`.
- `Arrays.ArrayManager.AnyMatch`: the new cache is not stated, as for `Filter`.
- `Arrays.ArrayManager.Every`: the new cache is not stated, as for `Filter`.
- `Arrays.ArrayManager.ToRawArray`: the new cache is not stated, as for `Filter`.
- `Arrays.ArrayManager.Slice`: the new cache is not stated, as for `Filter`.
- `Arrays.ArrayManager.Concat`: the new cache is not stated, as for `Filter`.
- `Arrays.ArrayManager.Splice`: the new cache is not stated, as for `Filter`.
- `Arrays.ArrayManager.From`: the new cache is not stated, as for `Filter`.
- `Arrays.ArrayManager.FromRawMap`: a `"length"` key is ignored, like every key that is not an array index. In the source, `arr["length"] = value` truncates the array or grows it with holes, and throws a RangeError when the value is not a valid length. Its effect depends on where the key comes in the Map's insertion order, which a `map` does not have.
- `Arrays.RawArrayNonIndex`: "changes nothing" for a key that is not an array index is false for `"length"` in the source, for the reason just given.
- `Arrays.ArrayManager.AssignKey`: the same gap as `RawArrayNonIndex`, for `"length"`.
- `Arrays.ArrayManager.Delete`: the item-level effect (the later items move down, and `"indexes"` becomes `[0..n-1)`) is proved only for contiguous positions. On other states only `DeleteOutcome` is stated, because there the walk can visit a re-added position a second time.
- `Arrays.ArrayManager.Splice`: the item-level effect is proved only for contiguous positions, for the same reason.
- `Arrays.ArrayManager.Push` and `Arrays.ArrayManager.Concat`: the effect on the items is stated only for sorted positions. On unsorted positions `lastIndex + 1` may already be occupied.
- `Arrays.ArrayManager.Slice`: the items are stated only for `[0..n)`, and for a missing or zero `start` on sorted positions.
- `Arrays.ArrayManager.Length` has no contract of its own. It is `indexes.size`, and `LastIndexBounds`, `Keys`, `Clear` and `Push` state its relations.
