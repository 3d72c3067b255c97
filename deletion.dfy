/** What `delete(p)` and `splice(index, amount)` of src/ArrayManager.js do to the positions
    and the store, as functions on values. `delete` walks the Set of positions while it
    rewrites it: the walk is the fold `Finish` of `WalkStep`, and `DeleteOutcome` its
    result after the sweep of vacated keys. On the contiguous positions [0..n) the
    outcome is `DeleteEffect`: the item at p removed and every later item moved down. */
module Deletion {
  import opened JsValues
  import opened JsText
  import opened IndexSets
  import opened Database
  import opened ArraySpec

  // ---------------------------------------------------------------------------
  // delete(p): the shifting loop and the sweep of vacated keys

  /** The keys of positions lo, ..., hi-1. */
  function Written(lo: int, hi: int): set<string>
  {
    set j | lo <= j < hi :: IntToString(j)
  }

  /** The store after copying, for j = p, p+1, ..., m-1 in turn, the item at j+1 to j. */
  function Shift(e: map<string, Value>, p: int, m: int): map<string, Value>
    decreases m - p
  {
    if m <= p then e else Shift(e, p, m - 1)[IntToString(m - 1) := ItemAt(e, m)]
  }

  /** Each copy reads a key no earlier copy has written, so position j ends up holding the
      original item at j+1. */
  lemma {:induction false} ShiftWritten(e: map<string, Value>, p: int, m: int, j: int)
    requires p <= j < m
    ensures IntToString(j) in Shift(e, p, m) && Shift(e, p, m)[IntToString(j)] == ItemAt(e, j + 1)
    decreases m - p
  {
    if j < m - 1 {
      ShiftWritten(e, p, m - 1, j);
      IntToStringInjective(j, m - 1);
    }
  }

  /** A key that none of the copies writes keeps its entry (or its absence). */
  lemma {:induction false} ShiftElsewhere(e: map<string, Value>, p: int, m: int, key: string)
    requires forall j :: p <= j < m ==> IntToString(j) != key
    ensures (key in Shift(e, p, m) <==> key in e) && (key in e ==> Shift(e, p, m)[key] == e[key])
    decreases m - p
  {
    if p < m {
      ShiftElsewhere(e, p, m - 1, key);
    }
  }

  /** The store after the sweep at the end of `delete`: the keys of the positions in `xs`
      that the rebuilt list `kept` no longer holds are deleted. */
  function Swept(e: map<string, Value>, xs: seq<int>, kept: seq<int>): map<string, Value>
  {
    e - (set x | x in xs && x !in kept :: IntToString(x))
  }

  /** Sweeping one more position: its key is deleted unless it is kept. */
  lemma SweptStep(e: map<string, Value>, xs: seq<int>, x: int, kept: seq<int>)
    ensures Swept(e, xs + [x], kept) ==
      if x in kept then Swept(e, xs, kept) else Swept(e, xs, kept) - {IntToString(x)}
  {
    var a := set y | y in xs + [x] && y !in kept :: IntToString(y);
    var b := set y | y in xs && y !in kept :: IntToString(y);
    if x in kept {
      assert a == b;
    } else {
      assert a == b + {IntToString(x)};
    }
  }

  /** On the contiguous run [0..n) with kept = [0..n-1), the sweep deletes only the key of n-1. */
  lemma SweptTail(e: map<string, Value>, n: int)
    requires n >= 1
    ensures Swept(e, Range(0, n), Range(0, n - 1)) == e - {IntToString(n - 1)}
  {
    RangeAscending(0, n);
    RangeAscending(0, n - 1);
    assert (set x | x in Range(0, n) && x !in Range(0, n - 1) :: IntToString(x)) == {IntToString(n - 1)} by {
      assert n - 1 in Range(0, n);
    }
  }

  /** A sweep of positions that are all kept deletes nothing. */
  lemma SweptNothing(e: map<string, Value>, xs: seq<int>, kept: seq<int>)
    requires forall x :: x in xs ==> x in kept
    ensures Swept(e, xs, kept) == e
  {
    assert (set x | x in xs && x !in kept :: IntToString(x)) == {};
  }

  /** The store after `delete(p)` on the contiguous positions [0..n): "indexes" is first
      rewritten with [0..n) by the copy that re-adds p (when there is anything to shift),
      positions p..n-2 receive the items from p+1..n-1, the vacated key of n-1 is
      swept, and "indexes" is finally persisted as [0..n-1). */
  function DeleteEffect(e: map<string, Value>, p: int, n: int): map<string, Value>
    requires 0 <= p < n
  {
    if p < n - 1 then
      (Shift(e["indexes" := Record(Range(0, n))], p, n - 1) - {IntToString(n - 1)})["indexes" := Record(Range(0, n - 1))]
    else e["indexes" := Record(Range(0, n - 1))]
  }

  /** The items `delete(p)` leaves on the contiguous array [0..n): the old items with the
      one at p removed, each later item moved down one position. */
  lemma DeleteEffectItems(e: map<string, Value>, p: int, n: int)
    requires 0 <= p < n
    ensures var items := ItemsOf(Range(0, n), e);
      ItemsOf(Range(0, n - 1), DeleteEffect(e, p, n)) == items[..p] + items[p + 1..]
  {
    var items := ItemsOf(Range(0, n), e);
    var a := ItemsOf(Range(0, n - 1), DeleteEffect(e, p, n));
    var b := items[..p] + items[p + 1..];
    forall j | 0 <= j < n - 1 ensures a[j] == b[j] {
      DeleteEffectAt(e, p, n, j);
      if j < p {
        assert b[j] == items[j];
      } else {
        assert b[j] == items[j + 1];
      }
    }
  }

  /** The item at position j after `delete(p)` on [0..n): the old item at j below p, the
      old item at j+1 from p on. */
  lemma DeleteEffectAt(e: map<string, Value>, p: int, n: int, j: int)
    requires 0 <= p < n && 0 <= j < n - 1
    ensures ItemAt(DeleteEffect(e, p, n), j) == ItemAt(e, if j < p then j else j + 1)
  {
    var key := IntToString(j);
    IntToStringInjective(j, n - 1);
    NotIndexesKey(j);
    NotIndexesKey(j + 1);
    if p < n - 1 {
      var e1 := e["indexes" := Record(Range(0, n))];
      if j < p {
        forall i | p <= i < n - 1 ensures IntToString(i) != key {
          IntToStringInjective(i, j);
        }
        ShiftElsewhere(e1, p, n - 1, key);
      } else {
        ShiftWritten(e1, p, n - 1, j);
      }
    }
  }

  /** What `delete(p)` leaves in the store besides the items: "indexes" holds [0..n-1); the
      key of n-1 is gone when something was shifted but stays behind (orphaned) when p was
      the last position; and no key other than those of positions p..n-1 and "indexes"
      changes. */
  lemma DeleteEffectKeys(e: map<string, Value>, p: int, n: int)
    requires 0 <= p < n
    ensures "indexes" in DeleteEffect(e, p, n) && DeleteEffect(e, p, n)["indexes"] == Record(Range(0, n - 1))
    ensures p < n - 1 ==> IntToString(n - 1) !in DeleteEffect(e, p, n)
    ensures p == n - 1 ==> (IntToString(n - 1) in DeleteEffect(e, p, n) <==> IntToString(n - 1) in e)
    ensures forall key :: key != "indexes" && key !in Written(p, n) ==>
      (key in DeleteEffect(e, p, n) <==> key in e) &&
      (key in e ==> DeleteEffect(e, p, n)[key] == e[key])
  {
    NotIndexesKey(n - 1);
    forall key | key != "indexes" && key !in Written(p, n)
      ensures (key in DeleteEffect(e, p, n) <==> key in e) && (key in e ==> DeleteEffect(e, p, n)[key] == e[key])
    {
      assert IntToString(n - 1) in Written(p, n);
      if p < n - 1 {
        forall j | p <= j < n - 1 ensures IntToString(j) != key {
          assert IntToString(j) in Written(p, n);
        }
        ShiftElsewhere(e["indexes" := Record(Range(0, n))], p, n - 1, key);
      }
    }
  }

  /** One more `delete(s)` on the items left after removing d items at s removes the
      next one. */
  lemma SpliceStep(items: seq<Value>, s: int, d: int, d': int)
    requires 0 <= s && 0 <= d && s + d < |items| && d' == d + 1
    ensures var before := items[..s] + items[s + d..];
      before[..s] + before[s + 1..] == items[..s] + items[s + d'..]
  {
    var before := items[..s] + items[s + d..];
    assert before[..s] == items[..s];
    assert before[s + 1..] == items[s + d'..];
  }

  // ---------------------------------------------------------------------------
  // The walk of delete(p) for any positions

  /** The state of `delete`'s loop: `iter` is the Set being walked, `live` says that
      `this.indexes` is still that Set (so a `set` that adds a position appends it to the
      walk), `ixs` is `this.indexes`, `e` the store, and `kept` the rebuilt list. */
  datatype Walk = Walk(iter: seq<int>, live: bool, ixs: seq<int>, e: map<string, Value>, kept: seq<int>)

  /** One round of the loop, at the k-th element i of the walk. A position i above p is
      read (as `undefined` when it is not a position) and its item written to i-1 by
      `set`, which adds, re-sorts and persists the positions when i-1 is new; in the first
      such `set` the Set being walked is still `this.indexes`, so i-1 joins the walk. The
      (possibly decremented) position joins `kept` unless it is there already. */
  function WalkStep(w: Walk, p: int, k: nat): (r: Walk)
    requires k < |w.iter|
    ensures r.iter == w.iter || (w.live && |r.iter| == |w.iter| + 1)
    ensures r.live ==> w.live && r.iter == w.iter
    ensures NoDup(w.kept) ==> NoDup(r.kept)
  {
    var i := w.iter[k];
    var j := if i > p then i - 1 else i;
    var kept := if j in w.kept then w.kept else w.kept + [j];
    assert NoDup(w.kept) ==> NoDup(kept) by {
      if NoDup(w.kept) && j !in w.kept {
        NoDupAppend(w.kept, j);
      }
    }
    if i <= p then w.(kept := kept)
    else
      var got := if i in w.ixs then ItemAt(w.e, i) else Undefined;
      if j in w.ixs then w.(e := w.e[IntToString(j) := got], kept := kept)
      else
        var ixs := Sort(w.ixs + [j]);
        Walk(if w.live then w.iter + [j] else w.iter, false, ixs,
             w.e["indexes" := Record(ixs)][IntToString(j) := got], kept)
  }

  /** The loop run from round k to the end of the walk; `kept` stays duplicate-free. */
  function Finish(w: Walk, p: int, k: nat): (r: Walk)
    ensures NoDup(w.kept) ==> NoDup(r.kept)
    decreases |w.iter| - k + (if w.live then 1 else 0)
  {
    if k >= |w.iter| then w else Finish(WalkStep(w, p, k), p, k + 1)
  }

  /** The positions and the store of an ArrayManager. */
  datatype Stored = Stored(ixs: seq<int>, e: map<string, Value>)

  /** `delete(p)` on an occupied position p: p leaves the Set, the walk runs, the keys of
      the positions in `this.indexes` that `kept` lacks are deleted, and `kept` becomes the
      positions and is persisted under "indexes". */
  function DeleteOutcome(ixs: seq<int>, e: map<string, Value>, p: int): (r: Stored)
    ensures NoDup(r.ixs)
    ensures "indexes" in r.e && r.e["indexes"] == Record(r.ixs)
  {
    var s := Without(ixs, p);
    Persisted(Finish(Walk(s, true, s, e, []), p, 0))
  }

  /** The end of `delete`: the sweep of the walked positions that were not kept, and
      `kept` persisted as the positions. */
  function Persisted(w: Walk): Stored
  {
    Stored(w.kept, Swept(w.e, w.ixs, w.kept)["indexes" := Record(w.kept)])
  }

  /** `splice(s, amount)`: `rounds` rounds, each deleting s while it is a position. Either
      nothing changes, or the result is a Set of positions that is persisted. */
  function SpliceRounds(st: Stored, s: int, rounds: nat): (r: Stored)
    ensures r == st || (NoDup(r.ixs) && "indexes" in r.e && r.e["indexes"] == Record(r.ixs))
  {
    if rounds == 0 then st
    else
      var prev := SpliceRounds(st, s, rounds - 1);
      if s in prev.ixs then DeleteOutcome(prev.ixs, prev.e, s) else prev
  }

  // ---------------------------------------------------------------------------
  // The walk on the contiguous positions [0..n)

  /** The state of the walk on [0..n) after k rounds: up to p nothing is written; the
      round at p adds p back (so p joins the walk and the positions become [0..n) again)
      and, from then on, round k has copied the item at k+1 to k. */
  function ContiguousWalk(e: map<string, Value>, p: int, n: int, k: int): Walk
    requires 0 <= p < n && 0 <= k
  {
    var s0 := Range(0, p) + Range(p + 1, n);
    if k <= p then Walk(s0, true, s0, e, Range(0, k))
    else Walk(s0 + [p], false, Range(0, n), Shift(e["indexes" := Record(Range(0, n))], p, Min(k, n - 1)),
              Range(0, Min(k, n - 1)))
  }

  /** One round of the walk on [0..n) moves the state from round k to round k+1. */
  lemma ContiguousStep(e: map<string, Value>, p: int, n: int, k: int)
    requires 0 <= p < n && 0 <= k < |ContiguousWalk(e, p, n, k).iter|
    requires k <= p || p < n - 1
    ensures WalkStep(ContiguousWalk(e, p, n, k), p, k) == ContiguousWalk(e, p, n, k + 1)
  {
    if k < p {
      StepBelow(e, p, n, k);
    } else if k == p {
      StepAt(e, p, n);
    } else if k < n - 1 {
      StepAbove(e, p, n, k);
    } else {
      StepLast(e, p, n);
    }
  }

  /** Below p a round only records its position in `kept`. */
  lemma StepBelow(e: map<string, Value>, p: int, n: int, k: int)
    requires 0 <= k < p < n
    ensures WalkStep(ContiguousWalk(e, p, n, k), p, k) == ContiguousWalk(e, p, n, k + 1)
  {
    var w := ContiguousWalk(e, p, n, k);
    assert w.iter[k] == k;
    RangeAscending(0, k);
    assert Range(0, k + 1) == Range(0, k) + [k];
  }

  /** At p the item at p+1 is written to p, which adds p back: the positions become [0..n)
      and p joins the walk. */
  lemma StepAt(e: map<string, Value>, p: int, n: int)
    requires 0 <= p < n - 1
    ensures WalkStep(ContiguousWalk(e, p, n, p), p, p) == ContiguousWalk(e, p, n, p + 1)
  {
    StepAtWalk(e, p, n);
    StepAtShift(e, p, n);
  }

  /** The round at p as a step of the walk: it writes the item at p+1 to p, re-adds p and
      persists [0..n). */
  lemma StepAtWalk(e: map<string, Value>, p: int, n: int)
    requires 0 <= p < n - 1
    ensures var s0 := Range(0, p) + Range(p + 1, n);
      WalkStep(Walk(s0, true, s0, e, Range(0, p)), p, p) ==
      Walk(s0 + [p], false, Range(0, n), e["indexes" := Record(Range(0, n))][IntToString(p) := ItemAt(e, p + 1)],
           Range(0, p) + [p])
  {
    var s0 := Range(0, p) + Range(p + 1, n);
    assert s0[p] == p + 1;
    SortAddBack(n, p);
    RangeAscending(0, p);
  }

  /** The walk on [0..n) just before and just after the round at p. */
  lemma StepAtShift(e: map<string, Value>, p: int, n: int)
    requires 0 <= p < n - 1
    ensures var s0 := Range(0, p) + Range(p + 1, n);
      ContiguousWalk(e, p, n, p) == Walk(s0, true, s0, e, Range(0, p)) &&
      ContiguousWalk(e, p, n, p + 1) ==
      Walk(s0 + [p], false, Range(0, n), e["indexes" := Record(Range(0, n))][IntToString(p) := ItemAt(e, p + 1)],
           Range(0, p) + [p])
  {
    var e1 := e["indexes" := Record(Range(0, n))];
    NotIndexesKey(p + 1);
    assert Min(p + 1, n - 1) == p + 1;
    assert Range(0, p + 1) == Range(0, p) + [p];
    assert Shift(e1, p, p + 1) == e1[IntToString(p) := ItemAt(e, p + 1)];
  }

  /** [0..n) without p, with p appended, holds each of 0..n-1 once. */
  lemma AddBackMembers(n: int, p: int)
    requires 0 <= p < n
    ensures var s0 := Range(0, p) + Range(p + 1, n);
      p !in s0 && (p + 1 < n ==> p + 1 in s0) && NoDup(s0 + [p]) &&
      forall x :: x in s0 + [p] <==> 0 <= x < n
  {
    var s0 := Range(0, p) + Range(p + 1, n);
    WithoutRange(n, p);
    RangeAscending(0, n);
    if p + 1 < n {
      assert s0[p] == p + 1;
    }
    NoDupAppend(s0, p);
    forall x ensures x in s0 + [p] <==> 0 <= x < n {
      assert x in s0 + [p] <==> x in s0 || x == p;
    }
  }

  /** Adding p back to [0..n) without p and sorting gives [0..n). */
  lemma SortAddBack(n: int, p: int)
    requires 0 <= p < n
    ensures var s0 := Range(0, p) + Range(p + 1, n);
      p !in s0 && (p + 1 < n ==> p + 1 in s0) && Sort(s0 + [p]) == Range(0, n)
  {
    var s0 := Range(0, p) + Range(p + 1, n);
    AddBackMembers(n, p);
    var sorted := Sort(s0 + [p]);
    SortedDistinctAscending(sorted, s0 + [p]);
    AscendingRange(sorted, 0, n);
  }

  /** Above p a round copies the item at k+1, which no earlier round has overwritten, to k. */
  lemma StepAbove(e: map<string, Value>, p: int, n: int, k: int)
    requires 0 <= p < k < n - 1
    ensures WalkStep(ContiguousWalk(e, p, n, k), p, k) == ContiguousWalk(e, p, n, k + 1)
  {
    var e1 := e["indexes" := Record(Range(0, n))];
    StepAboveShape(e, p, n, k);
    StepAboveWalk(p, n, k, Shift(e1, p, k));
    ShiftUnread(e, p, n, k);
  }

  /** The walk on [0..n) before and after round k above p. */
  lemma StepAboveShape(e: map<string, Value>, p: int, n: int, k: int)
    requires 0 <= p < k < n - 1
    ensures var s0 := Range(0, p) + Range(p + 1, n);
      var e1 := e["indexes" := Record(Range(0, n))];
      ContiguousWalk(e, p, n, k) == Walk(s0 + [p], false, Range(0, n), Shift(e1, p, k), Range(0, k)) &&
      ContiguousWalk(e, p, n, k + 1) ==
        Walk(s0 + [p], false, Range(0, n), Shift(e1, p, k)[IntToString(k) := ItemAt(e1, k + 1)], Range(0, k) + [k])
  {
    assert Min(k, n - 1) == k;
    assert Min(k + 1, n - 1) == k + 1;
    assert Range(0, k + 1) == Range(0, k) + [k];
  }

  /** Round k above p reads position k+1 and writes position k, both already positions. */
  lemma StepAboveWalk(p: int, n: int, k: int, e: map<string, Value>)
    requires 0 <= p < k < n - 1
    ensures var s0 := Range(0, p) + Range(p + 1, n);
      WalkStep(Walk(s0 + [p], false, Range(0, n), e, Range(0, k)), p, k) ==
      Walk(s0 + [p], false, Range(0, n), e[IntToString(k) := ItemAt(e, k + 1)], Range(0, k) + [k])
  {
    var s0 := Range(0, p) + Range(p + 1, n);
    assert (s0 + [p])[k] == k + 1;
    RangeAscending(0, n);
    RangeAscending(0, k);
  }

  /** The rounds before k have not written the key of k+1, so it still holds the
      original item. */
  lemma ShiftUnread(e: map<string, Value>, p: int, n: int, k: int)
    requires 0 <= p < k < n - 1
    ensures var e1 := e["indexes" := Record(Range(0, n))];
      ItemAt(Shift(e1, p, k), k + 1) == ItemAt(e1, k + 1) == ItemAt(e, k + 1)
  {
    NotIndexesKey(k + 1);
    forall j | p <= j < k ensures IntToString(j) != IntToString(k + 1) {
      IntToStringInjective(j, k + 1);
    }
    ShiftElsewhere(e["indexes" := Record(Range(0, n))], p, k, IntToString(k + 1));
  }

  /** The last round visits p itself, which is already kept. */
  lemma StepLast(e: map<string, Value>, p: int, n: int)
    requires 0 <= p < n - 1
    ensures WalkStep(ContiguousWalk(e, p, n, n - 1), p, n - 1) == ContiguousWalk(e, p, n, n)
  {
    var w := ContiguousWalk(e, p, n, n - 1);
    assert w.iter[n - 1] == p;
    RangeAscending(0, n - 1);
  }

  /** The walk on [0..n) ends at round n when something is shifted, else at round n-1. */
  lemma ContiguousFinish(e: map<string, Value>, p: int, n: int, k: int)
    requires 0 <= p < n && 0 <= k <= (if p < n - 1 then n else n - 1)
    ensures Finish(ContiguousWalk(e, p, n, k), p, k) ==
      ContiguousWalk(e, p, n, if p < n - 1 then n else n - 1)
  {
    var last := ContiguousWalk(e, p, n, if p < n - 1 then n else n - 1);
    var j := if p < n - 1 then n else n - 1;
    assert Finish(ContiguousWalk(e, p, n, j), p, j) == last by {
      assert |ContiguousWalk(e, p, n, j).iter| == j;
    }
    while j > k
      invariant k <= j <= (if p < n - 1 then n else n - 1)
      invariant Finish(ContiguousWalk(e, p, n, j), p, j) == last
    {
      j := j - 1;
      ContiguousRound(e, p, n, j, last);
    }
  }

  /** Round k followed by the rest of the walk on [0..n). */
  lemma ContiguousRound(e: map<string, Value>, p: int, n: int, k: int, last: Walk)
    requires 0 <= p < n && 0 <= k < (if p < n - 1 then n else n - 1)
    requires Finish(ContiguousWalk(e, p, n, k + 1), p, k + 1) == last
    ensures Finish(ContiguousWalk(e, p, n, k), p, k) == last
  {
    ContiguousStep(e, p, n, k);
  }

  /** `delete(p)` on the contiguous positions [0..n) leaves the positions [0..n-1) and the
      store `DeleteEffect`. */
  lemma DeleteContiguous(e: map<string, Value>, p: int, n: int)
    requires 0 <= p < n
    ensures DeleteOutcome(Range(0, n), e, p) == Stored(Range(0, n - 1), DeleteEffect(e, p, n))
  {
    if p < n - 1 {
      DeleteContiguousShift(e, p, n);
    } else {
      DeleteContiguousLast(e, p, n);
    }
  }

  /** Deleting a position below the last one shifts the later items and sweeps the key
      of n-1. */
  lemma DeleteContiguousShift(e: map<string, Value>, p: int, n: int)
    requires 0 <= p < n - 1
    ensures DeleteOutcome(Range(0, n), e, p) == Stored(Range(0, n - 1), DeleteEffect(e, p, n))
  {
    WithoutRange(n, p);
    ShiftWalk(e, p, n);
    ShiftPersisted(e, p, n);
  }

  /** The end of the walk of `delete(p)` on [0..n) with p below n-1 persists [0..n-1). */
  lemma ShiftPersisted(e: map<string, Value>, p: int, n: int)
    requires 0 <= p < n - 1
    ensures var s0 := Range(0, p) + Range(p + 1, n);
      Persisted(Walk(s0 + [p], false, Range(0, n), Shift(e["indexes" := Record(Range(0, n))], p, n - 1), Range(0, n - 1))) ==
      Stored(Range(0, n - 1), DeleteEffect(e, p, n))
  {
    SweptTail(Shift(e["indexes" := Record(Range(0, n))], p, n - 1), n);
  }

  /** The whole walk of `delete(p)` on [0..n) with p below n-1. */
  lemma ShiftWalk(e: map<string, Value>, p: int, n: int)
    requires 0 <= p < n - 1
    ensures var s0 := Range(0, p) + Range(p + 1, n);
      Finish(Walk(s0, true, s0, e, []), p, 0) ==
      Walk(s0 + [p], false, Range(0, n), Shift(e["indexes" := Record(Range(0, n))], p, n - 1), Range(0, n - 1))
  {
    var s0 := Range(0, p) + Range(p + 1, n);
    assert ContiguousWalk(e, p, n, 0) == Walk(s0, true, s0, e, []) by {
      assert Range(0, 0) == [];
    }
    assert ContiguousWalk(e, p, n, n) ==
      Walk(s0 + [p], false, Range(0, n), Shift(e["indexes" := Record(Range(0, n))], p, n - 1), Range(0, n - 1))
    by {
      assert Min(n, n - 1) == n - 1;
    }
    ContiguousFinish(e, p, n, 0);
  }

  /** Deleting the last position moves nothing and sweeps nothing. */
  lemma DeleteContiguousLast(e: map<string, Value>, p: int, n: int)
    requires 0 <= p == n - 1
    ensures DeleteOutcome(Range(0, n), e, p) == Stored(Range(0, n - 1), DeleteEffect(e, p, n))
  {
    WithoutRange(n, p);
    assert Range(0, 0) == [];
    ContiguousFinish(e, p, n, 0);
    assert Range(p + 1, n) == [];
    assert Range(0, p) + Range(p + 1, n) == Range(0, n - 1);
    SweptNothing(e, Range(0, n - 1), Range(0, n - 1));
  }

  /** `delete(p)` on [0..n) removes the item at p and moves each later item down. */
  lemma DeleteContiguousItems(e: map<string, Value>, p: int, n: int)
    requires 0 <= p < n
    ensures var r := DeleteOutcome(Range(0, n), e, p);
      r.ixs == Range(0, n - 1) &&
      ItemsOf(r.ixs, r.e) == ItemsOf(Range(0, n), e)[..p] + ItemsOf(Range(0, n), e)[p + 1..]
  {
    DeleteContiguous(e, p, n);
    DeleteEffectItems(e, p, n);
  }

  /** Rounds of `splice` at a position that is not occupied change nothing. */
  lemma {:induction false} SpliceAbsent(st: Stored, s: int, rounds: nat)
    requires s !in st.ixs
    ensures SpliceRounds(st, s, rounds) == st
  {
    if rounds > 0 {
      SpliceAbsent(st, s, rounds - 1);
    }
  }

  /** `splice(s, amount)` on [0..n) with s one of the positions removes the run of
      m items starting at s, one per round until none is left above s: the positions
      become [0..n-m) and the items are the old ones without that run. */
  lemma {:induction false} SpliceContiguous(e: map<string, Value>, n: int, s: int, rounds: nat)
    requires 0 <= s < n
    ensures SpliceShape(e, n, s, rounds)
  {
    if rounds == 0 {
      var items := ItemsOf(Range(0, n), e);
      assert items[..s] + items[s..] == items;
    } else {
      SpliceContiguous(e, n, s, rounds - 1);
      SpliceContiguousStep(e, n, s, rounds);
    }
  }

  /** After `rounds` rounds of `splice(s, ...)` on [0..n): the positions are [0..n-m) and
      the items are the old ones without the m items from s on, where m is `rounds` capped
      at the n-s items from s. */
  predicate SpliceShape(e: map<string, Value>, n: int, s: int, rounds: nat)
    requires 0 <= s < n
  {
    var r := SpliceRounds(Stored(Range(0, n), e), s, rounds);
    var m := Min(rounds, n - s);
    var items := ItemsOf(Range(0, n), e);
    r.ixs == Range(0, n - m) && ItemsOf(r.ixs, r.e) == items[..s] + items[s + m..]
  }

  /** One more round keeps `SpliceShape`. */
  lemma SpliceContiguousStep(e: map<string, Value>, n: int, s: int, rounds: nat)
    requires 0 <= s < n && rounds > 0 && SpliceShape(e, n, s, rounds - 1)
    ensures SpliceShape(e, n, s, rounds)
  {
    var st := Stored(Range(0, n), e);
    SpliceRound(e, n, s, rounds, SpliceRounds(st, s, rounds - 1), SpliceRounds(st, s, rounds));
  }

  /** One round of `splice` on the positions [0..n-m) left by the earlier rounds. */
  lemma SpliceRound(e: map<string, Value>, n: int, s: int, rounds: nat, prev: Stored, next: Stored)
    requires 0 <= s < n && rounds > 0
    requires prev.ixs == Range(0, n - Min(rounds - 1, n - s))
    requires ItemsOf(prev.ixs, prev.e) ==
      ItemsOf(Range(0, n), e)[..s] + ItemsOf(Range(0, n), e)[s + Min(rounds - 1, n - s)..]
    requires next == if s in prev.ixs then DeleteOutcome(prev.ixs, prev.e, s) else prev
    ensures next.ixs == Range(0, n - Min(rounds, n - s))
    ensures ItemsOf(next.ixs, next.e) ==
      ItemsOf(Range(0, n), e)[..s] + ItemsOf(Range(0, n), e)[s + Min(rounds, n - s)..]
  {
    var m := Min(rounds - 1, n - s);
    RangeAscending(0, n - m);
    if s < n - m {
      assert s in prev.ixs;
      DeleteRun(prev, next, s, n - Min(rounds - 1, n - s));
      SpliceRoundDelete(e, n, s, rounds, prev, next);
    } else {
      assert s !in prev.ixs;
      assert Min(rounds, n - s) == m;
    }
  }

  /** `delete(s)` on the positions [0..k) as a step between two stores. */
  lemma DeleteRun(prev: Stored, next: Stored, s: int, k: int)
    requires 0 <= s < k && prev.ixs == Range(0, k) && next == DeleteOutcome(prev.ixs, prev.e, s)
    ensures next.ixs == Range(0, k - 1)
    ensures ItemsOf(next.ixs, next.e) == ItemsOf(prev.ixs, prev.e)[..s] + ItemsOf(prev.ixs, prev.e)[s + 1..]
  {
    DeleteContiguousItems(prev.e, s, k);
  }

  /** A round that deletes s from [0..n-m) removes one more item of the run. */
  lemma SpliceRoundDelete(e: map<string, Value>, n: int, s: int, rounds: nat, prev: Stored, next: Stored)
    requires 0 <= s < n && rounds > 0 && s < n - Min(rounds - 1, n - s)
    requires ItemsOf(prev.ixs, prev.e) ==
      ItemsOf(Range(0, n), e)[..s] + ItemsOf(Range(0, n), e)[s + Min(rounds - 1, n - s)..]
    requires next.ixs == Range(0, n - Min(rounds - 1, n - s) - 1)
    requires ItemsOf(next.ixs, next.e) == ItemsOf(prev.ixs, prev.e)[..s] + ItemsOf(prev.ixs, prev.e)[s + 1..]
    ensures next.ixs == Range(0, n - Min(rounds, n - s))
    ensures ItemsOf(next.ixs, next.e) ==
      ItemsOf(Range(0, n), e)[..s] + ItemsOf(Range(0, n), e)[s + Min(rounds, n - s)..]
  {
    var m := Min(rounds - 1, n - s);
    SpliceStep(ItemsOf(Range(0, n), e), s, m, Min(rounds, n - s));
    assert n - m - 1 == n - Min(rounds, n - s);
  }
}
