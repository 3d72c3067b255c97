/** The integer sequences behind ArrayManager's `indexes` Set: a JavaScript Set of numbers
    is a duplicate-free sequence in insertion order; `new Set(list)` keeps the first
    occurrence of each number; `[...set].sort((a, b) => a - b)` orders it numerically;
    and the persisted copy under the key "indexes" is a plain array of numbers. */
module IndexSets {
  import opened JsValues

  predicate NoDup(s: seq<int>)
  {
    forall i, j :: 0 <= i < j < |s| ==> s[i] != s[j]
  }

  /** Non-decreasing order. */
  predicate Sorted(s: seq<int>)
  {
    forall i, j :: 0 <= i < j < |s| ==> s[i] <= s[j]
  }

  /** Strictly increasing order: sorted and duplicate-free. */
  predicate Ascending(s: seq<int>)
  {
    forall i, j :: 0 <= i < j < |s| ==> s[i] < s[j]
  }

  /** The positions lo, lo+1, ..., hi-1. */
  function Range(lo: int, hi: int): seq<int>
  {
    if lo >= hi then [] else seq(hi - lo, k => lo + k)
  }

  lemma RangeAscending(lo: int, hi: int)
    ensures Ascending(Range(lo, hi)) && NoDup(Range(lo, hi))
    ensures forall x :: x in Range(lo, hi) <==> lo <= x < hi
  {
    var r := Range(lo, hi);
    forall x | lo <= x < hi ensures x in r {
      assert r[x - lo] == x;
    }
  }

  /** `new Set(list)`: the distinct numbers of the list, each where it first occurs. */
  function Dedup(s: seq<int>): (r: seq<int>)
    ensures NoDup(r) && |r| <= |s|
    ensures forall x :: x in r <==> x in s
  {
    if s == [] then []
    else
      var d := Dedup(s[..|s| - 1]);
      assert forall x :: x in s <==> x in s[..|s| - 1] || x == s[|s| - 1] by {
        assert s == s[..|s| - 1] + [s[|s| - 1]];
      }
      if s[|s| - 1] in d then d else d + [s[|s| - 1]]
  }

  /** A list that is already duplicate-free becomes a Set without being reordered. */
  lemma {:induction false} DedupOfNoDup(s: seq<int>)
    requires NoDup(s)
    ensures Dedup(s) == s
  {
    if s != [] {
      var init := s[..|s| - 1];
      DedupOfNoDup(init);
      assert s[|s| - 1] !in init;
      assert s == init + [s[|s| - 1]];
    }
  }

  /** Appending a number that is not yet present keeps a sequence duplicate-free. */
  lemma NoDupAppend(s: seq<int>, x: int)
    requires NoDup(s) && x !in s
    ensures NoDup(s + [x])
  {
    var t := s + [x];
    forall i, j | 0 <= i < j < |t| ensures t[i] != t[j] {
      if j == |s| {
        assert t[i] == s[i] && s[i] in s;
      }
    }
  }

  /** `set.delete(x)`: the sequence without x, the other numbers keeping their order. It
      leaves exactly the other members, still each once. */
  function Without(s: seq<int>, x: int): (r: seq<int>)
    ensures forall y :: y in r <==> y in s && y != x
    ensures NoDup(s) ==> NoDup(r)
  {
    if s == [] then []
    else
      var init := s[..|s| - 1];
      var last := s[|s| - 1];
      var rest := Without(init, x);
      assert s == init + [last];
      assert forall y :: y in s <==> y in init || y == last;
      if last == x then rest
      else
        assert NoDup(s) ==> NoDup(rest + [last]) by {
          if NoDup(s) {
            assert last !in init;
            NoDupAppend(rest, last);
          }
        }
        rest + [last]
  }

  /** Removing a number that is not present changes nothing. */
  lemma {:induction false} WithoutAbsent(s: seq<int>, x: int)
    requires x !in s
    ensures Without(s, x) == s
  {
    if s != [] {
      WithoutAbsent(s[..|s| - 1], x);
      assert s == s[..|s| - 1] + [s[|s| - 1]];
    }
  }

  /** Deleting the member at i of a Set leaves the members before it followed by those after
      it, in their order. */
  lemma {:induction false} WithoutAt(s: seq<int>, i: int)
    requires NoDup(s) && 0 <= i < |s|
    ensures Without(s, s[i]) == s[..i] + s[i + 1..]
  {
    var init, last := s[..|s| - 1], s[|s| - 1];
    assert s == init + [last];
    assert NoDup(init);
    if i == |s| - 1 {
      WithoutAbsent(init, last);
    } else {
      assert s[i] != last;
      WithoutAt(init, i);
      assert s[..i] + s[i + 1..] == init[..i] + init[i + 1..] + [last];
    }
  }

  /** `new Set(list)` keeps the first occurrences in order: the Set built from any prefix of
      the list is a prefix of the Set built from the whole. With the membership clauses of
      `Dedup`, a number first met earlier in the list comes earlier in the Set. */
  lemma {:induction false} DedupPrefix(s: seq<int>, k: int)
    requires 0 <= k <= |s|
    ensures Dedup(s[..k]) <= Dedup(s)
  {
    if k < |s| {
      var init := s[..|s| - 1];
      assert s[..k] == init[..k];
      DedupPrefix(init, k);
    } else {
      assert s[..k] == s;
    }
  }

  /** Removing p from [0..n) leaves the two runs on either side of it. */
  lemma {:induction false} WithoutRange(n: int, p: int)
    requires 0 <= p < n
    ensures Without(Range(0, n), p) == Range(0, p) + Range(p + 1, n)
    decreases n
  {
    if p == n - 1 {
      WithoutRangeTop(n);
    } else {
      WithoutRange(n - 1, p);
      WithoutRangeStep(n, p);
    }
  }

  /** Removing the top position n-1 of [0..n) leaves [0..n-1). */
  lemma WithoutRangeTop(n: int)
    requires 0 < n
    ensures Without(Range(0, n), n - 1) == Range(0, n - 1) + Range(n, n)
  {
    RangeLast(0, n);
    var r := Range(0, n);
    assert Without(r, n - 1) == Without(Range(0, n - 1), n - 1);
    RangeAscending(0, n - 1);
    WithoutAbsent(Range(0, n - 1), n - 1);
  }

  /** Removing p below the top keeps the top position last. */
  lemma WithoutRangeStep(n: int, p: int)
    requires 0 <= p < n - 1
    requires Without(Range(0, n - 1), p) == Range(0, p) + Range(p + 1, n - 1)
    ensures Without(Range(0, n), p) == Range(0, p) + Range(p + 1, n)
  {
    assert Without(Range(0, n), p) == Without(Range(0, n - 1), p) + [n - 1] by {
      RangeLast(0, n);
    }
    assert Range(p + 1, n) == Range(p + 1, n - 1) + [n - 1] by {
      RangeLast(p + 1, n);
    }
    assert Range(0, p) + (Range(p + 1, n - 1) + [n - 1]) == (Range(0, p) + Range(p + 1, n - 1)) + [n - 1];
  }

  /** A non-empty range is the shorter range followed by its last position. */
  lemma RangeLast(lo: int, hi: int)
    requires lo < hi
    ensures Range(lo, hi) == Range(lo, hi - 1) + [hi - 1]
    ensures Range(lo, hi)[..hi - lo - 1] == Range(lo, hi - 1) && Range(lo, hi)[hi - lo - 1] == hi - 1
  {
    assert Range(lo, hi) == Range(lo, hi - 1) + [hi - 1];
  }

  /** Inserts x before the first element not below it. */
  function Insert(s: seq<int>, x: int): seq<int>
  {
    if s == [] then [x]
    else if x <= s[0] then [x] + s
    else [s[0]] + Insert(s[1..], x)
  }

  /** Inserting into a sorted sequence keeps it sorted and adds exactly x. */
  lemma {:induction false} InsertSorted(s: seq<int>, x: int)
    requires Sorted(s)
    ensures Sorted(Insert(s, x)) && multiset(Insert(s, x)) == multiset(s) + multiset{x}
    decreases |s|
  {
    if s == [] {
    } else if x <= s[0] {
      SortedCons(x, s);
    } else {
      assert Sorted(s[1..]);
      InsertSorted(s[1..], x);
      InsertBehind(s, x);
    }
  }

  /** Inserting x behind the first element, given that inserting it into the rest worked. */
  lemma InsertBehind(s: seq<int>, x: int)
    requires Sorted(s) && |s| > 0 && s[0] < x
    requires Sorted(Insert(s[1..], x)) && multiset(Insert(s[1..], x)) == multiset(s[1..]) + multiset{x}
    ensures Sorted(Insert(s, x)) && multiset(Insert(s, x)) == multiset(s) + multiset{x}
  {
    var rest := Insert(s[1..], x);
    assert Insert(s, x) == [s[0]] + rest;
    assert multiset(s) == multiset{s[0]} + multiset(s[1..]) by {
      assert s == [s[0]] + s[1..];
    }
    assert s[0] <= rest[0] by {
      assert rest[0] in multiset(rest);
      if rest[0] != x {
        assert rest[0] in s[1..];
      }
    }
    SortedCons(s[0], rest);
  }

  /** A sorted sequence stays sorted with an element no larger than its first in front. */
  lemma SortedCons(x: int, s: seq<int>)
    requires Sorted(s) && (|s| > 0 ==> x <= s[0])
    ensures Sorted([x] + s)
  {
    forall i, j | 0 <= i < j < |s| + 1 ensures ([x] + s)[i] <= ([x] + s)[j] {
      if i > 0 { assert s[i - 1] <= s[j - 1]; } else { assert s[0] <= s[j - 1]; }
    }
  }

  /** `list.sort((a, b) => a - b)`: a numeric sort of a list of integers, which yields a
      sorted permutation of the list. */
  function Sort(s: seq<int>): (r: seq<int>)
    ensures Sorted(r) && multiset(r) == multiset(s)
  {
    if s == [] then []
    else
      var init := s[..|s| - 1];
      InsertSorted(Sort(init), s[|s| - 1]);
      assert s == init + [s[|s| - 1]];
      Insert(Sort(init), s[|s| - 1])
  }

  /** A sorted rearrangement of a duplicate-free list is strictly ascending. */
  lemma SortedDistinctAscending(r: seq<int>, s: seq<int>)
    requires NoDup(s) && Sorted(r) && multiset(r) == multiset(s)
    ensures Ascending(r) && NoDup(r)
    ensures forall x :: x in r <==> x in s
  {
    forall x ensures x in r <==> x in s {
      assert x in r <==> x in multiset(r);
      assert x in s <==> x in multiset(s);
    }
    forall i, j | 0 <= i < j < |r| ensures r[i] < r[j] {
      if r[i] == r[j] {
        DuplicateCount(r, i, j);
        NoDupCount(s, r[i]);
        assert false;
      }
    }
  }

  lemma DuplicateCount(r: seq<int>, i: int, j: int)
    requires 0 <= i < j < |r| && r[i] == r[j]
    ensures multiset(r)[r[i]] >= 2
  {
    assert r == r[..i] + [r[i]] + r[i + 1..j] + [r[j]] + r[j + 1..];
  }

  lemma {:induction false} NoDupCount(s: seq<int>, x: int)
    requires NoDup(s)
    ensures multiset(s)[x] <= 1
  {
    if s != [] {
      var init := s[..|s| - 1];
      NoDupCount(init, x);
      assert s == init + [s[|s| - 1]];
      if x == s[|s| - 1] {
        assert x !in init;
      }
    }
  }

  /** A strictly ascending sequence is determined by its elements: any two with the same
      elements are equal. This is why the numeric sort of a Set has exactly one outcome. */
  lemma {:induction false} AscendingUnique(a: seq<int>, b: seq<int>)
    requires Ascending(a) && Ascending(b)
    requires forall x :: x in a <==> x in b
    ensures a == b
    decreases |a|
  {
    SameMembersEmpty(a, b);
    if a != [] {
      AscendingHeads(a, b);
      AscendingTails(a, b);
      AscendingUnique(a[1..], b[1..]);
      assert a == [a[0]] + a[1..] && b == [b[0]] + b[1..];
    }
  }

  /** Sequences with the same members are both empty or both not. */
  lemma SameMembersEmpty(a: seq<int>, b: seq<int>)
    requires forall x :: x in a <==> x in b
    ensures a == [] <==> b == []
  {
    if a != [] {
      MembersNonEmpty(a, b);
    }
    if b != [] {
      MembersNonEmpty(b, a);
    }
  }

  lemma MembersNonEmpty(a: seq<int>, b: seq<int>)
    requires |a| > 0 && forall x :: x in a ==> x in b
    ensures |b| > 0
  {
    var y := a[0];
    assert y in a;
    assert y in b;
  }

  /** Two ascending sequences with the same members start with the same element. */
  lemma AscendingHeads(a: seq<int>, b: seq<int>)
    requires Ascending(a) && Ascending(b) && |a| > 0 && |b| > 0
    requires forall x :: x in a <==> x in b
    ensures a[0] == b[0]
  {
    assert a[0] in a && b[0] in b;
    var i :| 0 <= i < |b| && b[i] == a[0];
    var j :| 0 <= j < |a| && a[j] == b[0];
    assert a[0] <= a[j] && b[0] <= b[i];
  }

  /** ... and so their tails have the same members. */
  lemma AscendingTails(a: seq<int>, b: seq<int>)
    requires Ascending(a) && Ascending(b) && |a| > 0 && |b| > 0 && a[0] == b[0]
    requires forall x :: x in a <==> x in b
    ensures Ascending(a[1..]) && Ascending(b[1..])
    ensures forall x :: x in a[1..] <==> x in b[1..]
  {
    forall x ensures x in a[1..] <==> x in b[1..] {
      if x in a[1..] {
        var k :| 0 <= k < |a| - 1 && a[1..][k] == x;
        assert a[k + 1] == x && x in b && x != b[0];
      }
      if x in b[1..] {
        var k :| 0 <= k < |b| - 1 && b[1..][k] == x;
        assert b[k + 1] == x && x in a && x != a[0];
      }
    }
  }

  /** The ascending sequence with the elements {lo, ..., hi-1} is that range. */
  lemma AscendingRange(a: seq<int>, lo: int, hi: int)
    requires Ascending(a) && forall x :: x in a <==> lo <= x < hi
    ensures a == Range(lo, hi)
  {
    RangeAscending(lo, hi);
    AscendingUnique(a, Range(lo, hi));
  }

  /** Appending a number larger than all others keeps a sequence ascending. */
  lemma AscendingAppend(s: seq<int>, x: int)
    requires Ascending(s) && forall y :: y in s ==> y < x
    ensures Ascending(s + [x]) && x !in s
  {
    var t := s + [x];
    forall i, j | 0 <= i < j < |t| ensures t[i] < t[j] {
      if j == |s| {
        assert t[i] == s[i] && s[i] in s;
      }
    }
  }

  /** The largest element of an ascending sequence is its last. */
  lemma AscendingLast(s: seq<int>)
    requires Ascending(s) && |s| > 0
    ensures forall y :: y in s ==> y <= s[|s| - 1]
  {
  }

  /** The array persisted under "indexes". */
  function Record(xs: seq<int>): Value
  {
    Arr(seq(|xs|, k requires 0 <= k < |xs| => Num(xs[k])))
  }

  /** Reads a persisted "indexes" value back as a list of integers, when it is one; a list
      read back persists as the same value. */
  function IndexList(v: Value): (r: Option<seq<int>>)
    ensures r.Some? ==> Record(r.value) == v
  {
    if v.Arr? && forall k :: 0 <= k < |v.items| ==> v.items[k].Num?
    then
      var xs := seq(|v.items|, k requires 0 <= k < |v.items| => v.items[k].n);
      assert Record(xs).items == v.items;
      Some(xs)
    else None
  }

  /** Persisting a list and reading it back gives the list. */
  lemma RecordRoundTrip(xs: seq<int>)
    ensures IndexList(Record(xs)) == Some(xs)
  {
    var r := Record(xs);
    assert forall k :: 0 <= k < |r.items| ==> r.items[k].Num?;
    assert IndexList(r).value == xs;
  }
}
