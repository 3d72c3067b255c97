/** The ArrayManager class of src/ArrayManager.js: an array whose items live in a Sifbase
    store, one key per occupied position, with the occupied positions kept in `indexes`
    and persisted under the reserved key "indexes". Each asynchronous call of the source
    is read as an ordinary call, in program order. */
module Arrays {
  import opened JsValues
  import opened JsText
  import opened IndexSets
  import opened Database
  import opened ArraySpec
  import opened Deletion

  class ArrayManager {
    /** The occupied positions, in the insertion order of the source's Set. */
    var indexes: seq<int>
    /** The store that holds the items (the private `#sifbase`). */
    const db: Sifbase

    /** `indexes` is a Set: no position occurs twice. */
    predicate Valid()
      reads this
    {
      NoDup(indexes)
    }

    /** The items the array shows, in the order of `indexes`: one per position. */
    function Items(): (r: seq<Value>)
      reads this, db.keyv
      ensures |r| == |indexes|
    {
      ItemsOf(indexes, db.keyv.entries)
    }

    /** The record under "indexes" is the current list of positions. */
    predicate Persisted()
      reads this, db.keyv
    {
      "indexes" in db.keyv.entries && db.keyv.entries["indexes"] == Record(indexes)
    }

    /** The positions are exactly 0, 1, ..., n-1 in order, as an array built by `push` has. */
    predicate Contiguous()
      reads this
    {
      indexes == Range(0, |indexes|)
    }

    /** `new ArrayManager(indexes, sifbase)`: the positions become a Set. */
    constructor (ixs: seq<int>, db: Sifbase)
      ensures this.db == db && Valid() && indexes == Dedup(ixs)
      ensures forall i :: i in indexes <==> i in ixs
      ensures NoDup(ixs) ==> indexes == ixs
    {
      indexes := Dedup(ixs);
      this.db := db;
      if NoDup(ixs) {
        DedupOfNoDup(ixs);
      }
    }

    /** `ArrayManager.from(sifbase)`: reads the "indexes" record; when it is missing or falsy,
        starts from, and persists, an empty list. A record that is not a list of
        numbers is refused. */
    static method From(db: Sifbase) returns (r: Result<ArrayManager>)
      modifies db, db.keyv
      ensures var rec := Read(old(db.keyv.entries), "indexes", Undefined);
        && (!Truthy(rec) ==>
              && r.Ok? && fresh(r.value) && r.value.db == db && r.value.indexes == []
              && db.keyv.entries == old(db.keyv.entries)["indexes" := Record([])]
              && r.value.Persisted() && r.value.Valid())
        && (Truthy(rec) && IndexList(rec).Some? ==>
              && r.Ok? && fresh(r.value) && r.value.db == db && r.value.Valid()
              && r.value.indexes == Dedup(IndexList(rec).value)
              && (forall i :: i in r.value.indexes <==> i in IndexList(rec).value)
              && db.keyv.entries == old(db.keyv.entries))
        && (Truthy(rec) && IndexList(rec).None? ==>
              r == Err(MalformedIndexRecord) && db.keyv.entries == old(db.keyv.entries))
    {
      var rec := db.Get("indexes", Undefined);
      if !Truthy(rec) {
        rec := Record([]);
        db.Set("indexes", rec);
      }
      match IndexList(rec) {
        case None =>
          r := Err(MalformedIndexRecord);
        case Some(xs) =>
          var am := new ArrayManager(xs, db);
          if xs == [] {
            RecordRoundTrip([]);
          }
          r := Ok(am);
      }
    }

    /** `lastIndex`: the last position in Set order, or -1 for an empty array. */
    function LastIndex(): (r: int)
      reads this
      ensures |indexes| == 0 ==> r == -1
      ensures |indexes| > 0 ==> r in indexes
    {
      if |indexes| == 0 then -1 else indexes[|indexes| - 1]
    }

    /** `length`: the number of occupied positions. */
    function Length(): nat
      reads this
    {
      |indexes|
    }

    /** On sorted positions `lastIndex` is the largest one; on [0..n) it is n-1, so `length`
        is `lastIndex + 1`. */
    lemma LastIndexBounds()
      ensures Ascending(indexes) ==> forall i :: i in indexes ==> i <= LastIndex()
      ensures Contiguous() ==> LastIndex() == |indexes| - 1 && Length() == LastIndex() + 1
    {
      if Ascending(indexes) && |indexes| > 0 {
        AscendingLast(indexes);
      }
    }

    /** `has(index)`: whether the index is an occupied position; nothing that is not a
        number is one. */
    function Has(index: Index): (b: bool)
      reads this
      ensures index.NotANumber? ==> !b
    {
      index.Number? && index.n in indexes
    }

    /** `keys()`: the occupied positions, each once. */
    function Keys(): (r: seq<int>)
      reads this
      ensures |r| == Length()
      ensures forall i :: i in r <==> Has(Number(i))
      ensures Valid() ==> NoDup(r)
    {
      indexes
    }

    /** `get(index, defaultValue)`: throws for a non-number; returns `undefined` for a
        position that is not occupied without asking the store; otherwise the store's
        value, or the default for a missing or `null` one. */
    method Get(index: Index, d: Value) returns (r: Result<Value>)
      modifies db
      ensures index.NotANumber? ==> r == Err(IndexNotNumber) && db.cache == old(db.cache)
      ensures index.Number? && !Has(index) ==> r == Ok(Undefined) && db.cache == old(db.cache)
      ensures Has(index) ==>
        && r == Ok(Read(db.keyv.entries, IntToString(index.n), d))
        && db.cache == old(db.cache)[IntToString(index.n) := r.value]
      ensures Has(index) && d == Undefined ==> r.value == ItemAt(db.keyv.entries, index.n)
    {
      if index.NotANumber? {
        return Err(IndexNotNumber);
      }
      if !Has(index) {
        return Ok(Undefined);
      }
      var v := db.Get(IntToString(index.n), d);
      r := Ok(v);
    }

    /** `set(index, value)`: throws for a non-number. A new position is added, the positions
        are re-sorted numerically and persisted, and then the value is written; for an
        occupied position only the value is written. */
    method Set(index: Index, v: Value) returns (r: Outcome)
      requires Valid()
      modifies this, db, db.keyv
      ensures Valid()
      ensures index.NotANumber? ==>
        && r == Fail(IndexNotNumber) && indexes == old(indexes)
        && db.keyv.entries == old(db.keyv.entries) && db.cache == old(db.cache)
      ensures index.Number? ==> r == Pass && index.n in indexes
      ensures index.Number? ==> ItemAt(db.keyv.entries, index.n) == Coalesce(v, Undefined)
      ensures old(Has(index)) ==>
        && indexes == old(indexes)
        && db.keyv.entries == old(db.keyv.entries)[IntToString(index.n) := v]
        && db.cache == old(db.cache)[IntToString(index.n) := v]
      ensures index.Number? && !old(Has(index)) ==>
        && indexes == Sort(old(indexes) + [index.n]) && Ascending(indexes)
        && (forall i :: i in indexes <==> i in old(indexes) || i == index.n)
        && db.keyv.entries == old(db.keyv.entries)["indexes" := Record(indexes)][IntToString(index.n) := v]
        && db.cache == old(db.cache)["indexes" := Record(indexes)][IntToString(index.n) := v]
        && Persisted()
      ensures index.Number? && old(Persisted()) ==> Persisted()
    {
      if index.NotANumber? {
        return Fail(IndexNotNumber);
      }
      var n := index.n;
      PositionKeys();
      if n !in indexes {
        NoDupAppend(indexes, n);
        var sorted := Sort(indexes + [n]);
        SortedDistinctAscending(sorted, indexes + [n]);
        indexes := sorted;
        db.Set("indexes", Record(indexes));
      }
      db.Set(IntToString(n), v);
      r := Pass;
    }

    /** `push(value)`: stores the value at `lastIndex + 1`. On a sorted array that is past
        every position, so the value is appended; [0..n) becomes [0..n+1). */
    method Push(v: Value) returns (r: Outcome)
      requires Valid()
      modifies this, db, db.keyv
      ensures Valid() && r == Pass
      ensures old(LastIndex()) + 1 in indexes
      ensures ItemAt(db.keyv.entries, old(LastIndex()) + 1) == Coalesce(v, Undefined)
      ensures old(Ascending(indexes)) ==>
        && Ascending(indexes) && Persisted()
        && indexes == old(indexes) + [old(LastIndex()) + 1]
        && Items() == old(Items()) + [Coalesce(v, Undefined)]
      ensures old(Contiguous()) ==> Contiguous() && Length() == old(Length()) + 1
      ensures var n := old(LastIndex()) + 1;
        n in old(indexes) ==>
          && indexes == old(indexes)
          && db.keyv.entries == old(db.keyv.entries)[IntToString(n) := v]
          && db.cache == old(db.cache)[IntToString(n) := v]
      ensures var n := old(LastIndex()) + 1;
        n !in old(indexes) ==>
          && indexes == Sort(old(indexes) + [n])
          && (forall i :: i in indexes <==> i in old(indexes) || i == n)
          && db.keyv.entries == old(db.keyv.entries)["indexes" := Record(indexes)][IntToString(n) := v]
          && db.cache == old(db.cache)["indexes" := Record(indexes)][IntToString(n) := v]
      ensures db.keyv.entries - ManagedKeys(indexes) == old(db.keyv.entries) - ManagedKeys(indexes)
    {
      ghost var before := indexes;
      ghost var e0 := db.keyv.entries;
      LastIndexBounds();
      var n := LastIndex() + 1;
      r := Set(Number(n), v);
      ManagedAfterSet(e0, db.keyv.entries, before, indexes, n, v);
      if Ascending(before) {
        assert n !in before;
        AscendingAppend(before, n);
        AscendingUnique(indexes, before + [n]);
        AppendItem(before, e0, n, Record(indexes), v);
      }
      if before == Range(0, |before|) {
        PushRange(before, n, indexes);
      }
    }

    /** `clear()`: empties the store and the positions, then persists the empty list. */
    method Clear()
      modifies this, db, db.keyv
      ensures indexes == [] && Valid() && Length() == 0 && LastIndex() == -1 && Items() == []
      ensures db.keyv.entries == map["indexes" := Record([])] && Persisted()
      ensures db.cache == map["indexes" := Record([])]
    {
      db.Clear();
      indexes := [];
      db.Set("indexes", Record([]));
    }

    /** `delete(index)`: throws for a non-number and returns `false` for a position that is
        not occupied, changing nothing. Otherwise it removes the position, walks the Set
        moving each item above it down one position, deletes the keys of the positions the
        walk dropped, and persists the rebuilt positions: the outcome is `DeleteOutcome`. */
    method Delete(index: Index) returns (r: Result<Value>)
      requires Valid()
      modifies this, db, db.keyv
      ensures Valid()
      ensures index.NotANumber? ==>
        && r == Err(IndexNotNumber) && indexes == old(indexes)
        && db.keyv.entries == old(db.keyv.entries) && db.cache == old(db.cache)
      ensures index.Number? && !old(Has(index)) ==>
        && r == Ok(Bool(false)) && indexes == old(indexes)
        && db.keyv.entries == old(db.keyv.entries) && db.cache == old(db.cache)
      ensures old(Has(index)) ==>
        && r == Ok(Undefined) && Persisted()
        && Stored(indexes, db.keyv.entries) == DeleteOutcome(old(indexes), old(db.keyv.entries), index.n)
    {
      if index.NotANumber? {
        return Err(IndexNotNumber);
      }
      if !Has(index) {
        return Ok(Bool(false));
      }
      var p := index.n;
      indexes := Without(indexes, p);
      var kept := ShiftDown(p);
      Sweep(kept);
      indexes := kept;
      db.Set("indexes", Record(indexes));
      r := Ok(Undefined);
    }

    /** The first loop of `delete(p)`, after p has left the Set: the walk over the Set that
        moves each item above p down one position and collects the rebuilt positions. */
    method ShiftDown(p: int) returns (kept: seq<int>)
      requires Valid()
      modifies this, db, db.keyv
      ensures Valid() && NoDup(kept)
      ensures var w := Finish(Walk(old(indexes), true, old(indexes), old(db.keyv.entries), []), p, 0);
        indexes == w.ixs && db.keyv.entries == w.e && kept == w.kept
    {
      ghost var fin := Finish(Walk(indexes, true, indexes, db.keyv.entries, []), p, 0);
      // `iter` is the Set the loop walks; while `live`, `this.indexes` is still that Set,
      // so the first `set` that adds a position appends it to the walk.
      var iter := indexes;
      var live := true;
      kept := [];
      var k := 0;
      while k < |iter|
        invariant Valid() && NoDup(kept)
        invariant 0 <= k <= |iter|
        invariant live ==> indexes == iter
        invariant Finish(Walk(iter, live, indexes, db.keyv.entries, kept), p, k) == fin
        decreases |iter| - k + (if live then 1 else 0)
      {
        iter, live, kept := ShiftRound(p, iter, live, kept, k);
        k := k + 1;
      }
    }

    /** Round k of the first loop of `delete(p)`: the step `WalkStep` of the walk. */
    method ShiftRound(p: int, iter: seq<int>, live: bool, kept: seq<int>, k: nat)
      returns (iter': seq<int>, live': bool, kept': seq<int>)
      requires Valid() && NoDup(kept) && k < |iter| && (live ==> indexes == iter)
      modifies this, db, db.keyv
      ensures Valid() && NoDup(kept') && (live' ==> indexes == iter')
      ensures Walk(iter', live', indexes, db.keyv.entries, kept') ==
        WalkStep(Walk(iter, live, old(indexes), old(db.keyv.entries), kept), p, k)
    {
      ghost var w := Walk(iter, live, indexes, db.keyv.entries, kept);
      iter', live', kept' := iter, live, kept;
      var i := iter[k];
      if i > p {
        var got := Get(Number(i), Undefined);
        i := i - 1;
        var added := i !in indexes;
        var _ := Set(Number(i), got.value);
        if added && live {
          iter' := iter + [i];
          live' := false;
        }
      }
      if i !in kept {
        NoDupAppend(kept, i);
        kept' := kept + [i];
      }
    }

    /** The second loop of `delete`: walks the Set now in `this.indexes` and deletes the key
        of every position that `kept` lacks. */
    method Sweep(kept: seq<int>)
      modifies db, db.keyv
      ensures db.keyv.entries == Swept(old(db.keyv.entries), indexes, kept)
    {
      ghost var e0 := db.keyv.entries;
      var j := 0;
      while j < |indexes|
        invariant 0 <= j <= |indexes|
        invariant db.keyv.entries == Swept(e0, indexes[..j], kept)
      {
        SweptStep(e0, indexes[..j], indexes[j], kept);
        assert indexes[..j + 1] == indexes[..j] + [indexes[j]];
        if indexes[j] !in kept {
          var _ := db.Delete(IntToString(indexes[j]));
        }
        j := j + 1;
      }
      assert indexes[..j] == indexes;
    }

    /** `splice(index, amount = 1)`: throws for a non-number index or amount; otherwise runs
        `amount` rounds, each deleting `index` while it is still a position. A missing
        `amount` is 1. */
    method Splice(index: Index, amount: Option<Index>) returns (r: Outcome)
      requires Valid()
      modifies this, db, db.keyv
      ensures Valid()
      ensures index.NotANumber? ==>
        r == Fail(IndexNotNumber) && indexes == old(indexes) && db.keyv.entries == old(db.keyv.entries)
      ensures var a := if amount.Some? then amount.value else Number(1);
        index.Number? && a.NotANumber? ==>
        r == Fail(AmountNotNumber) && indexes == old(indexes) && db.keyv.entries == old(db.keyv.entries)
      ensures var a := if amount.Some? then amount.value else Number(1);
        index.Number? && a.Number? ==>
        && r == Pass
        && Stored(indexes, db.keyv.entries) ==
           SpliceRounds(Stored(old(indexes), old(db.keyv.entries)), index.n, if a.n < 0 then 0 else a.n)
    {
      var a := if amount.Some? then amount.value else Number(1);
      if index.NotANumber? {
        return Fail(IndexNotNumber);
      }
      if a.NotANumber? {
        return Fail(AmountNotNumber);
      }
      ghost var st := Stored(indexes, db.keyv.entries);
      ghost var rounds := 0;
      var i := index.n;
      while i < index.n + a.n
        invariant Valid()
        invariant index.n <= i <= (if a.n < 0 then index.n else index.n + a.n)
        invariant rounds == i - index.n
        invariant Stored(indexes, db.keyv.entries) == SpliceRounds(st, index.n, rounds)
      {
        if Has(index) {
          var _ := Delete(index);
        }
        rounds := rounds + 1;
        i := i + 1;
      }
      r := Pass;
    }

    /** `filter(callback, iterations)`: walks the positions in order and collects the items
        the callback accepts, stopping once it holds `iterations + 1` of them; the default
        for `iterations` is the number of positions, so by default nothing is cut. */
    method Filter(cb: (Value, int) -> bool, iterations: Option<int>) returns (items: seq<Value>)
      modifies db
      ensures var m := Matching(indexes, Items(), cb);
        var limit := (if iterations.Some? then iterations.value else |indexes|) + 1;
        items == m[..if limit < 0 then 0 else if limit < |m| then limit else |m|]
      ensures iterations.None? ==> items == Matching(indexes, Items(), cb)
    {
      var limit := (if iterations.Some? then iterations.value else |indexes|) + 1;
      var k;
      items, k := ScanUpTo(cb, limit);
      MatchingCut(indexes, Items(), cb, k, limit);
    }

    /** The loop of `filter`: the items the callback accepts, position by position, until
        `limit` of them are collected or the positions run out. */
    method ScanUpTo(cb: (Value, int) -> bool, limit: int) returns (items: seq<Value>, k: nat)
      modifies db
      ensures k <= |indexes| && items == Scan(indexes, Items(), cb, k)
      ensures k == |indexes| || |items| >= limit
      ensures |items| <= (if limit < 0 then 0 else limit)
    {
      items := [];
      k := 0;
      ghost var vals := Items();
      while k < |indexes| && |items| < limit
        invariant 0 <= k <= |indexes| && Items() == vals
        invariant items == Scan(indexes, vals, cb, k)
        invariant |items| <= (if limit < 0 then 0 else limit)
        decreases |indexes| - k
      {
        items := ScanStep(cb, items, k);
        k := k + 1;
      }
    }

    /** One iteration of the loop of `filter`: reads the k-th item and keeps it when the
        callback accepts it. */
    method ScanStep(cb: (Value, int) -> bool, items: seq<Value>, k: nat) returns (items': seq<Value>)
      requires k < |indexes| && items == Scan(indexes, Items(), cb, k)
      modifies db
      ensures items' == Scan(indexes, Items(), cb, k + 1) && |items'| <= |items| + 1
      ensures Items() == old(Items())
    {
      var v := ItemOf(k);
      if cb(v, indexes[k]) {
        items' := items + [v];
      } else {
        items' := items;
      }
    }

    /** `get(i)` for the k-th position i of the Set: the item shown there. */
    method ItemOf(k: nat) returns (v: Value)
      requires k < |indexes|
      modifies db
      ensures v == Items()[k]
      ensures db.cache == old(db.cache)[IntToString(indexes[k]) := v]
    {
      var got := Get(Number(indexes[k]), Undefined);
      v := got.value;
    }

    /** `find(callback)`: the first item the callback accepts, or `undefined`. */
    method Find(cb: (Value, int) -> bool) returns (r: Value)
      modifies db
      ensures var m := Matching(indexes, Items(), cb); r == if |m| > 0 then m[0] else Undefined
      ensures (forall k :: 0 <= k < |indexes| ==> !cb(Items()[k], indexes[k])) ==> r == Undefined
      ensures (exists k :: 0 <= k < |indexes| && cb(Items()[k], indexes[k])) ==>
        exists k :: 0 <= k < |indexes| && cb(Items()[k], indexes[k]) && r == Items()[k] &&
                    (forall j :: 0 <= j < k ==> !cb(Items()[j], indexes[j]))
    {
      var found := Filter(cb, Some(1));
      r := if |found| > 0 then found[0] else Undefined;
      ScanEmpty(indexes, Items(), cb, |indexes|);
      if |Matching(indexes, Items(), cb)| > 0 {
        ScanFirst(indexes, Items(), cb, |indexes|);
      }
    }

    /** `some(callback)`: whether `find` gives something other than `undefined`; a first
        match whose item is `undefined` therefore counts as no match. */
    method AnyMatch(cb: (Value, int) -> bool) returns (b: bool)
      modifies db
      ensures var m := Matching(indexes, Items(), cb); b <==> |m| > 0 && m[0] != Undefined
      ensures b ==> exists k :: 0 <= k < |indexes| && cb(Items()[k], indexes[k])
      ensures (forall k :: 0 <= k < |indexes| ==> Items()[k] != Undefined) ==>
        (b <==> exists k :: 0 <= k < |indexes| && cb(Items()[k], indexes[k]))
    {
      var found := Find(cb);
      b := found != Undefined;
    }

    /** `every(callback)`: whether the unlimited `filter` keeps as many items as there are
        positions, that is, whether the callback accepts every item. */
    method Every(cb: (Value, int) -> bool) returns (b: bool)
      modifies db
      ensures b <==> forall k :: 0 <= k < |indexes| ==> cb(Items()[k], indexes[k])
    {
      var found := Filter(cb, None);
      b := |found| == |indexes|;
      ScanAll(indexes, Items(), cb, |indexes|);
    }

    /** `toRawArray(true)`: `filter(() => true)`, all items in position order. */
    method ToRawArray() returns (items: seq<Value>)
      modifies db
      ensures items == Items()
    {
      items := Filter(Always(), None);
      ScanAll(indexes, Items(), Always(), |indexes|);
    }

    /** `slice(start, end)`: the items whose positions lie in a window. A missing or zero
        `start` becomes `lastIndex + 1`; when `end` is missing or zero the window is
        [0, start). So `slice()` and `slice(0)` are every item, `slice(s)` the items before
        s, and `slice(0, e)` with e non-zero, on a sorted array, nothing. On [0..n) the
        window is clamped to the positions, and empty when it starts after it ends. */
    method Slice(start: Option<int>, end: Option<int>) returns (items: seq<Value>)
      modifies db
      ensures SliceCases(indexes, Items(), start, end, items)
    {
      var from := if start.None? || start.value == 0 then LastIndex() + 1 else start.value;
      var lo, hi := if end.None? || end.value == 0 then 0 else from,
                    if end.None? || end.value == 0 then from else end.value;
      items := Filter(InWindow(lo, hi), None);
      ghost var vals := Items();
      assert items == Matching(indexes, vals, InWindow(lo, hi)) && |vals| == Length();
      SliceItems(indexes, vals, start, end, LastIndex(), from, lo, hi);
    }

    /** `first()`: the item at the first position in Set order, or `undefined` when there is
        none (the lookup falls back on position 0, which is then not occupied). */
    method First() returns (r: Value)
      modifies db
      ensures |indexes| > 0 ==> r == Items()[0] && db.cache == old(db.cache)[IntToString(indexes[0]) := r]
      ensures |indexes| == 0 ==> r == Undefined && db.cache == old(db.cache)
    {
      var x := if |indexes| > 0 && indexes[0] != 0 then indexes[0] else 0;
      var got := Get(Number(x), Undefined);
      r := got.value;
    }

    /** `last()`: the item at `lastIndex`, or `undefined` for an empty array. */
    method Last() returns (r: Value)
      modifies db
      ensures |indexes| > 0 ==>
        r == Items()[|indexes| - 1] && db.cache == old(db.cache)[IntToString(indexes[|indexes| - 1]) := r]
      ensures |indexes| == 0 ==> r == Undefined && db.cache == old(db.cache)
    {
      var got := Get(Number(LastIndex()), Undefined);
      r := got.value;
    }

    /** `concat(...items)`: pushes the items, each array argument contributing its elements,
        in order. */
    method Concat(items: seq<Value>)
      requires Valid()
      modifies this, db, db.keyv
      ensures Valid()
      ensures old(Ascending(indexes)) ==>
        Ascending(indexes) && Items() == old(Items()) + ReadBack(Flatten(items))
      ensures old(Contiguous()) ==> Contiguous() && Length() == old(Length()) + |Flatten(items)|
      ensures forall i :: i in old(indexes) ==> i in indexes
      ensures db.keyv.entries - ManagedKeys(indexes) == old(db.keyv.entries) - ManagedKeys(indexes)
      ensures old(Persisted()) || (old(Ascending(indexes)) && |Flatten(items)| > 0) ==> Persisted()
      ensures |Flatten(items)| == 0 ==> indexes == old(indexes) && db.keyv.entries == old(db.keyv.entries)
    {
      var flat := Flatten(items);
      ghost var persisted := Persisted();
      ghost var ascending := Ascending(indexes);
      ghost var c := Contiguous();
      ghost var items0 := Items();
      ghost var n := |indexes|;
      ghost var ixs0 := indexes;
      ghost var e0 := db.keyv.entries;
      var k := 0;
      while k < |flat|
        invariant Valid()
        invariant 0 <= k <= |flat|
        invariant ascending ==> Ascending(indexes) && Items() == items0 + ReadBack(flat[..k])
        invariant c ==> Contiguous() && |indexes| == n + k
        invariant forall i :: i in ixs0 ==> i in indexes
        invariant db.keyv.entries - ManagedKeys(indexes) == e0 - ManagedKeys(indexes)
        invariant persisted || (ascending && k > 0) ==> Persisted()
        invariant k == 0 ==> indexes == ixs0 && db.keyv.entries == e0
      {
        ghost var prev := Items();
        ConcatStep(flat[k], e0, ixs0);
        if ascending {
          ReadBackStep(items0, flat, k, prev, Items());
        }
        k := k + 1;
      }
      assert flat[..k] == flat;
    }

    /** One iteration of `concat`'s pushes: the value is pushed, no earlier position is lost,
        the "indexes" record stays (or, on sorted positions, becomes) the current positions,
        and the store still agrees with `e0` outside the managed keys. */
    method ConcatStep(x: Value, ghost e0: map<string, Value>, ghost ixs0: seq<int>)
      requires Valid() && forall i :: i in ixs0 ==> i in indexes
      requires db.keyv.entries - ManagedKeys(indexes) == e0 - ManagedKeys(indexes)
      modifies this, db, db.keyv
      ensures Valid() && forall i :: i in ixs0 ==> i in indexes
      ensures db.keyv.entries - ManagedKeys(indexes) == e0 - ManagedKeys(indexes)
      ensures old(Ascending(indexes)) ==> Ascending(indexes) && Items() == old(Items()) + [Coalesce(x, Undefined)]
      ensures old(Contiguous()) ==> Contiguous() && |indexes| == old(|indexes|) + 1
      ensures old(Persisted()) || old(Ascending(indexes)) ==> Persisted()
    {
      ghost var ixs1 := indexes;
      ghost var e1 := db.keyv.entries;
      NotIndexesKey(LastIndex() + 1);
      var _ := Push(x);
      ManagedSubset(ixs1, indexes);
      ManagedGrow(e0, e1, ManagedKeys(ixs1), ManagedKeys(indexes));
    }

    /** `ArrayManager.fromRawMap(map)`: `arr[key] = value` for every entry, so the keys that
        spell array indexes become elements and the positions between them holes. */
    static method FromRawMap(m: map<string, Value>) returns (arr: seq<Option<Value>>)
      ensures RawArrayOf(m, arr)
    {
      arr := [];
      var rest := m.Keys;
      while rest != {}
        invariant rest <= m.Keys
        invariant RawArrayOf(m - rest, arr)
        decreases |rest|
      {
        var key :| key in rest;
        arr := AssignKey(m - rest, m - (rest - {key}), key, arr);
        rest := rest - {key};
      }
      assert m - {} == m;
    }

    /** `arr[key] = value` for one more entry of the map: a key that spells an array index
        sets that element, growing the array with holes; any other key changes nothing. */
    static method AssignKey(before: map<string, Value>, after: map<string, Value>, key: string,
                            arr: seq<Option<Value>>) returns (next: seq<Option<Value>>)
      requires RawArrayOf(before, arr)
      requires after.Keys == before.Keys + {key} && key in after
      requires forall k :: k in before ==> after[k] == before[k]
      ensures RawArrayOf(after, next)
    {
      match ParseIndex(key) {
        case None =>
          RawArrayNonIndex(before, after, key, arr);
          next := arr;
        case Some(i) =>
          StringOfParseIndex(key);
          next := if i < |arr| then arr[i := Some(after[key])]
                  else arr + seq(i - |arr|, _ => None) + [Some(after[key])];
          RawArraySet(before, after, key, i, arr, next);
      }
    }
  }

  /** The store keys an array manages: "indexes" and the key of each position. */
  function ManagedKeys(ixs: seq<int>): set<string>
  {
    {"indexes"} + set i | i in ixs :: IntToString(i)
  }

  /** `set(n, v)` writes at most "indexes" and the key of n, both managed afterwards, so the
      store outside the managed keys is as it was. */
  lemma ManagedAfterSet(e: map<string, Value>, e2: map<string, Value>, ixs: seq<int>, ixs2: seq<int>,
                        n: int, v: Value)
    requires n in ixs2
    requires n in ixs ==> e2 == e[IntToString(n) := v]
    requires n !in ixs ==> e2 == e["indexes" := Record(ixs2)][IntToString(n) := v]
    ensures e2 - ManagedKeys(ixs2) == e - ManagedKeys(ixs2)
  {
    assert IntToString(n) in ManagedKeys(ixs2);
  }

  /** Agreement outside a set of keys implies agreement outside any larger set. */
  lemma ManagedGrow(e0: map<string, Value>, e: map<string, Value>, t: set<string>, t2: set<string>)
    requires t <= t2 && e - t == e0 - t
    ensures e - t2 == e0 - t2
  {
    assert forall k :: k in e - t2 ==> k in e - t;
    assert forall k :: k in e0 - t2 ==> k in e0 - t;
  }

  /** More positions manage more keys. */
  lemma ManagedSubset(ixs: seq<int>, ixs2: seq<int>)
    requires forall i :: i in ixs ==> i in ixs2
    ensures ManagedKeys(ixs) <= ManagedKeys(ixs2)
  {
  }

  /** A manager rebuilt from a persisted [0..n) has the positions [0..n) again, in order, so
      the contracts stated for contiguous positions apply to it. */
  lemma RestoreRange(n: nat)
    ensures IndexList(Record(Range(0, n))) == Some(Range(0, n))
    ensures Dedup(IndexList(Record(Range(0, n))).value) == Range(0, n)
  {
    RecordRoundTrip(Range(0, n));
    RangeAscending(0, n);
    DedupOfNoDup(Range(0, n));
  }

  /** `push` on [0..n): the new position is n, so the positions become [0..n+1). */
  lemma PushRange(before: seq<int>, n: int, after: seq<int>)
    requires before == Range(0, |before|)
    requires n == (if |before| == 0 then -1 else before[|before| - 1]) + 1
    requires Ascending(before) ==> after == before + [n]
    ensures after == Range(0, |after|) && |after| == |before| + 1
  {
    RangeAscending(0, |before|);
    assert Range(0, |before| + 1) == Range(0, |before|) + [|before|];
  }

  /** Adding a key that spells no array index leaves the raw array as it is. */
  lemma RawArrayNonIndex(m: map<string, Value>, m2: map<string, Value>, key: string, arr: seq<Option<Value>>)
    requires RawArrayOf(m, arr) && ParseIndex(key).None?
    requires m2.Keys == m.Keys + {key} && forall k :: k in m ==> m2[k] == m[k]
    ensures RawArrayOf(m2, arr)
  {
    forall i | 0 <= i < |arr| ensures NatToString(i) != key {
      ParseIndexOfString(i);
    }
  }

  /** Adding the key that spells index i sets element i, growing the array with holes when
      i is past its end. */
  lemma RawArraySet(m: map<string, Value>, m2: map<string, Value>, key: string, i: nat,
                    arr: seq<Option<Value>>, next: seq<Option<Value>>)
    requires RawArrayOf(m, arr) && ParseIndex(key) == Some(i) && NatToString(i) == key
    requires m2.Keys == m.Keys + {key} && key in m2 && forall k :: k in m ==> m2[k] == m[k]
    requires next == if i < |arr| then arr[i := Some(m2[key])]
                     else arr + seq(i - |arr|, _ => None) + [Some(m2[key])]
    ensures RawArrayOf(m2, next)
  {
    forall j | 0 <= j < |next|
      ensures next[j] == if NatToString(j) in m2 then Some(m2[NatToString(j)]) else None
    {
      if j != i {
        ParseIndexOfString(j);
        assert NatToString(j) != key;
      }
    }
  }
}
