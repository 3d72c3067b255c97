/** The value-level meaning of an ArrayManager (src/ArrayManager.js): which items the
    manager shows for a list of positions and a store, and which items `filter`
    selects. The class in module Arrays is proved against these functions. */
module ArraySpec {
  import opened JsValues
  import opened JsText
  import opened IndexSets
  import opened Database

  /** The item the manager shows at a member position i: `sifbase.get(i)` with the
      default `undefined`, so a missing key or a stored `null` reads back as `undefined`. */
  function ItemAt(e: map<string, Value>, i: int): Value
  {
    Read(e, IntToString(i), Undefined)
  }

  /** The items at the listed positions, in the listed order. */
  function ItemsOf(ixs: seq<int>, e: map<string, Value>): seq<Value>
  {
    seq(|ixs|, k requires 0 <= k < |ixs| => ItemAt(e, ixs[k]))
  }

  /** Two position lists with the same items one by one show the same items. */
  lemma ItemsOfPointwise(a: seq<int>, ea: map<string, Value>, b: seq<int>, eb: map<string, Value>)
    requires |a| == |b| && forall k :: 0 <= k < |a| ==> ItemAt(ea, a[k]) == ItemAt(eb, b[k])
    ensures ItemsOf(a, ea) == ItemsOf(b, eb)
  {
  }

  /** Writing a key that belongs to none of the listed positions changes none of their items. */
  lemma ItemsOfUpdate(ixs: seq<int>, e: map<string, Value>, key: string, v: Value)
    requires forall i :: i in ixs ==> IntToString(i) != key
    ensures ItemsOf(ixs, e[key := v]) == ItemsOf(ixs, e)
  {
    forall k | 0 <= k < |ixs| ensures ItemAt(e[key := v], ixs[k]) == ItemAt(e, ixs[k]) {
      assert ixs[k] in ixs;
    }
    ItemsOfPointwise(ixs, e[key := v], ixs, e);
  }

  /** Writing "indexes" and then the key of a position above all listed positions appends
      that position's item and changes no other item: the store side of `push`. */
  lemma AppendItem(ixs: seq<int>, e: map<string, Value>, n: int, rec: Value, v: Value)
    requires forall i :: i in ixs ==> i < n
    ensures ItemsOf(ixs + [n], e["indexes" := rec][IntToString(n) := v]) ==
      ItemsOf(ixs, e) + [Coalesce(v, Undefined)]
  {
    var e1 := e["indexes" := rec];
    assert ItemsOf(ixs + [n], e1[IntToString(n) := v]) ==
      ItemsOf(ixs, e1[IntToString(n) := v]) + [Coalesce(v, Undefined)] by {
      assert (ixs + [n])[..|ixs|] == ixs;
    }
    forall i | i in ixs ensures IntToString(i) != IntToString(n) && IntToString(i) != "indexes" {
      IntToStringInjective(i, n);
      NotIndexesKey(i);
    }
    ItemsOfUpdate(ixs, e1, IntToString(n), v);
    ItemsOfUpdate(ixs, e, "indexes", rec);
  }

  /** The value a stored item reads back as. */
  function ReadBack(vs: seq<Value>): seq<Value>
  {
    seq(|vs|, k requires 0 <= k < |vs| => Coalesce(vs[k], Undefined))
  }

  /** Appending the read-back value of vs[k] to items that end in the read-back values of
      vs[..k] gives items that end in the read-back values of vs[..k+1]. */
  lemma ReadBackStep(items: seq<Value>, vs: seq<Value>, k: nat, prev: seq<Value>, now: seq<Value>)
    requires k < |vs| && prev == items + ReadBack(vs[..k]) && now == prev + [Coalesce(vs[k], Undefined)]
    ensures now == items + ReadBack(vs[..k + 1])
  {
    assert ReadBack(vs[..k + 1]) == ReadBack(vs[..k]) + [Coalesce(vs[k], Undefined)];
  }

  // ---------------------------------------------------------------------------
  // filter(callback, iterations) and the operations built on it

  /** The items, among the first k of `vals` at positions `ixs`, that the callback accepts,
      in order. */
  function Scan(ixs: seq<int>, vals: seq<Value>, cb: (Value, int) -> bool, k: nat): (r: seq<Value>)
    requires |ixs| == |vals| && k <= |ixs|
    ensures |r| <= k
  {
    if k == 0 then []
    else Scan(ixs, vals, cb, k - 1) + if cb(vals[k - 1], ixs[k - 1]) then [vals[k - 1]] else []
  }

  /** The items the callback accepts, over all positions: every item exactly when the
      callback accepts each of them, none exactly when it rejects each of them. */
  function Matching(ixs: seq<int>, vals: seq<Value>, cb: (Value, int) -> bool): (r: seq<Value>)
    requires |ixs| == |vals|
    ensures r == vals <==> forall k :: 0 <= k < |ixs| ==> cb(vals[k], ixs[k])
    ensures r == [] <==> forall k :: 0 <= k < |ixs| ==> !cb(vals[k], ixs[k])
  {
    ScanAll(ixs, vals, cb, |ixs|);
    ScanEmpty(ixs, vals, cb, |ixs|);
    assert vals[..|ixs|] == vals;
    Scan(ixs, vals, cb, |ixs|)
  }

  /** Scanning fewer positions yields a prefix of the longer scan. This is what lets
      `filter` stop early once it has enough items. */
  lemma {:induction false} ScanPrefix(ixs: seq<int>, vals: seq<Value>, cb: (Value, int) -> bool, k: nat, m: nat)
    requires |ixs| == |vals| && k <= m <= |ixs|
    ensures var a := Scan(ixs, vals, cb, k);
      |a| <= |Scan(ixs, vals, cb, m)| && Scan(ixs, vals, cb, m)[..|a|] == a
    decreases m
  {
    if k < m {
      ScanPrefix(ixs, vals, cb, k, m - 1);
      var a := Scan(ixs, vals, cb, k);
      var b := Scan(ixs, vals, cb, m - 1);
      var c := Scan(ixs, vals, cb, m);
      assert c[..|b|] == b;
      assert c[..|a|] == b[..|a|];
    }
  }

  /** A scan that stopped after k positions, either at the end or because it held `limit`
      items, has the first `limit` matches (all of them when there are fewer). */
  lemma MatchingCut(ixs: seq<int>, vals: seq<Value>, cb: (Value, int) -> bool, k: nat, limit: int)
    requires |ixs| == |vals| && k <= |ixs|
    requires k == |ixs| || |Scan(ixs, vals, cb, k)| >= limit
    requires |Scan(ixs, vals, cb, k)| <= (if limit < 0 then 0 else limit)
    ensures var m := Matching(ixs, vals, cb);
      Scan(ixs, vals, cb, k) == m[..if limit < 0 then 0 else if limit < |m| then limit else |m|]
  {
    ScanPrefix(ixs, vals, cb, k, |ixs|);
  }

  /** No item among the first k matches exactly when the callback rejects each of them. */
  lemma {:induction false} ScanEmpty(ixs: seq<int>, vals: seq<Value>, cb: (Value, int) -> bool, k: nat)
    requires |ixs| == |vals| && k <= |ixs|
    ensures |Scan(ixs, vals, cb, k)| == 0 <==> forall j :: 0 <= j < k ==> !cb(vals[j], ixs[j])
    decreases k
  {
    if k > 0 {
      ScanEmpty(ixs, vals, cb, k - 1);
    }
  }

  /** Each of the first k items matches exactly when the callback accepts each of them, and
      then the scan holds them all. */
  lemma {:induction false} ScanAll(ixs: seq<int>, vals: seq<Value>, cb: (Value, int) -> bool, k: nat)
    requires |ixs| == |vals| && k <= |ixs|
    ensures |Scan(ixs, vals, cb, k)| == k <==> forall j :: 0 <= j < k ==> cb(vals[j], ixs[j])
    ensures |Scan(ixs, vals, cb, k)| == k ==> Scan(ixs, vals, cb, k) == vals[..k]
    decreases k
  {
    if k > 0 {
      ScanAll(ixs, vals, cb, k - 1);
      if |Scan(ixs, vals, cb, k)| == k {
        assert vals[..k] == vals[..k - 1] + [vals[k - 1]];
      }
    }
  }

  /** The first matching item is the item at the first position the callback accepts: the
      `find` result. */
  lemma {:induction false} ScanFirst(ixs: seq<int>, vals: seq<Value>, cb: (Value, int) -> bool, k: nat)
    requires |ixs| == |vals| && k <= |ixs| && |Scan(ixs, vals, cb, k)| > 0
    ensures exists j :: 0 <= j < k && cb(vals[j], ixs[j]) && Scan(ixs, vals, cb, k)[0] == vals[j] &&
                        (forall i :: 0 <= i < j ==> !cb(vals[i], ixs[i]))
    decreases k
  {
    var init := Scan(ixs, vals, cb, k - 1);
    if |init| > 0 {
      ScanFirst(ixs, vals, cb, k - 1);
      var j :| 0 <= j < k - 1 && cb(vals[j], ixs[j]) && init[0] == vals[j] &&
        forall i :: 0 <= i < j ==> !cb(vals[i], ixs[i]);
      assert Scan(ixs, vals, cb, k)[0] == vals[j] by {
        assert Scan(ixs, vals, cb, k)[0] == init[0];
      }
      assert 0 <= j < k && cb(vals[j], ixs[j]) && Scan(ixs, vals, cb, k)[0] == vals[j] &&
        forall i :: 0 <= i < j ==> !cb(vals[i], ixs[i]);
    } else {
      ScanEmpty(ixs, vals, cb, k - 1);
      var j := k - 1;
      assert cb(vals[j], ixs[j]) && Scan(ixs, vals, cb, k)[0] == vals[j];
      assert forall i :: 0 <= i < j ==> !cb(vals[i], ixs[i]);
    }
  }

  /** The callback `() => true`. */
  function Always(): (Value, int) -> bool
  {
    (v: Value, i: int) => true
  }

  /** The callback of `slice`: the position lies in [lo, hi). */
  function InWindow(lo: int, hi: int): (Value, int) -> bool
  {
    (v: Value, i: int) => lo <= i && i < hi
  }

  /** On the contiguous positions [0..n), the window [lo, hi) over the first k positions
      selects the items in that range of positions, cut at k. */
  lemma {:induction false} ScanWindow(vals: seq<Value>, lo: int, hi: int, k: nat)
    requires lo <= hi && k <= |vals|
    ensures Scan(Range(0, |vals|), vals, InWindow(lo, hi), k) == vals[Clamp(lo, 0, k)..Clamp(hi, 0, k)]
    decreases k
  {
    if k > 0 {
      ScanWindow(vals, lo, hi, k - 1);
      WindowSlices(vals, lo, hi, k);
    }
  }

  /** The window over the first k elements is the window over the first k-1 plus, when it
      falls inside the window, element k-1. */
  lemma WindowSlices<T>(s: seq<T>, lo: int, hi: int, k: nat)
    requires lo <= hi && 0 < k <= |s|
    ensures s[Clamp(lo, 0, k)..Clamp(hi, 0, k)] ==
      s[Clamp(lo, 0, k - 1)..Clamp(hi, 0, k - 1)] + if lo <= k - 1 < hi then [s[k - 1]] else []
  {
    if lo <= k - 1 < hi {
      var a := Clamp(lo, 0, k);
      assert s[a..k] == s[a..k - 1] + [s[k - 1]];
    }
  }

  /** What `slice(start, end)` promises about its result `items` over positions `ixs`
      holding `vals`: on [0..n), `slice()` and `slice(0)` give every item, `slice(s, e)`
      the items between s and e clamped to the positions (none when s > e), `slice(s)`
      those below s; on ascending positions `slice(0, e)` with e non-zero gives nothing. */
  predicate SliceCases(ixs: seq<int>, vals: seq<Value>, start: Option<int>, end: Option<int>,
                       items: seq<Value>)
  {
    && (ixs == Range(0, |ixs|) && (start.None? || start == Some(0)) && (end.None? || end == Some(0)) ==>
          items == vals)
    && (ixs == Range(0, |ixs|) && |vals| == |ixs| && start.Some? && start.value != 0 &&
        end.Some? && end.value != 0 ==>
          var a, b := Clamp(start.value, 0, |ixs|), Clamp(end.value, 0, |ixs|);
          items == if a <= b then vals[a..b] else [])
    && (ixs == Range(0, |ixs|) && |vals| == |ixs| && start.Some? && start.value != 0 &&
        (end.None? || end == Some(0)) ==>
          items == vals[..Clamp(start.value, 0, |ixs|)])
    && (Ascending(ixs) && (start.None? || start == Some(0)) && end.Some? && end.value != 0 ==>
          items == [])
  }

  /** The window [lo, hi) of `slice(start, end)` over positions whose last entry is `last`
      (a missing or zero `start` becomes `last + 1`; a missing or zero `end` makes the
      window [0, start)) selects the items `SliceCases` promises. */
  lemma SliceItems(ixs: seq<int>, vals: seq<Value>, start: Option<int>, end: Option<int>,
                   last: int, from: int, lo: int, hi: int)
    requires |ixs| == |vals| && last == if |ixs| == 0 then -1 else ixs[|ixs| - 1]
    requires from == if start.None? || start.value == 0 then last + 1 else start.value
    requires lo == (if end.None? || end.value == 0 then 0 else from)
    requires hi == (if end.None? || end.value == 0 then from else end.value)
    ensures SliceCases(ixs, vals, start, end, Matching(ixs, vals, InWindow(lo, hi)))
  {
    if ixs == Range(0, |ixs|) {
      if lo <= hi {
        ScanWindow(vals, lo, hi, |vals|);
        assert vals[..|vals|] == vals;
      } else {
        ScanEmpty(ixs, vals, InWindow(lo, hi), |ixs|);
      }
    }
    if Ascending(ixs) && (start.None? || start == Some(0)) && end.Some? && end.value != 0 {
      if |ixs| > 0 {
        AscendingLast(ixs);
      }
      WindowAboveAll(ixs, vals, lo, hi);
    }
  }

  /** A window that starts above every position selects nothing: `slice(0, e)` on a sorted
      array starts its window at lastIndex+1. */
  lemma WindowAboveAll(ixs: seq<int>, vals: seq<Value>, lo: int, hi: int)
    requires |ixs| == |vals| && forall i :: i in ixs ==> i < lo
    ensures Matching(ixs, vals, InWindow(lo, hi)) == []
  {
    ScanEmpty(ixs, vals, InWindow(lo, hi), |ixs|);
    assert forall k :: 0 <= k < |ixs| ==> ixs[k] in ixs;
  }

  // ---------------------------------------------------------------------------
  // concat(...items)

  /** `[].concat(...items)`: array arguments contribute their elements, other values
      themselves. */
  function Flatten(items: seq<Value>): (r: seq<Value>)
    ensures (forall k :: 0 <= k < |items| ==> !items[k].Arr?) ==> r == items
  {
    if items == [] then []
    else (if items[0].Arr? then items[0].items else [items[0]]) + Flatten(items[1..])
  }

  // ---------------------------------------------------------------------------
  // fromRawMap(map)

  /** `arr[key] = value` for every entry: the keys that are array indexes become elements,
      the positions no key names stay holes (`None`). */
  predicate RawArrayOf(m: map<string, Value>, arr: seq<Option<Value>>)
  {
    && (forall i :: 0 <= i < |arr| ==>
          arr[i] == if NatToString(i) in m then Some(m[NatToString(i)]) else None)
    && (forall key :: key in m && ParseIndex(key).Some? ==> ParseIndex(key).value < |arr|)
    && |arr| <= MaxArrayLength
    && (|arr| > 0 ==> arr[|arr| - 1].Some?)
  }

  /** The raw array of a map is unique: its length is one past the largest index key and
      its elements are determined by the map. */
  lemma RawArrayUnique(m: map<string, Value>, a: seq<Option<Value>>, b: seq<Option<Value>>)
    requires RawArrayOf(m, a) && RawArrayOf(m, b)
    ensures a == b
  {
    if |a| < |b| {
      assert b[|b| - 1].Some?;
      ParseIndexOfString(|b| - 1);
      assert false;
    }
    if |b| < |a| {
      assert a[|a| - 1].Some?;
      ParseIndexOfString(|a| - 1);
      assert false;
    }
  }
}
