/**
 * Go's sort.Ints, which the median filter runs on its sample buffers: an
 * in-place ascending sort of an int slice. The reference result is the
 * functional insertion sort SortSeq; the in-place method is proved to leave
 * exactly SortSeq of the old contents in the array.
 */
module IntSort {

  predicate Sorted(s: seq<int>) {
    forall i, j :: 0 <= i < j < |s| ==> s[i] <= s[j]
  }

  /** x inserted into t before the first element not smaller than x. */
  function Insert(x: int, t: seq<int>): (r: seq<int>)
    ensures |r| == |t| + 1
  {
    if t == [] || x <= t[0] then [x] + t else [t[0]] + Insert(x, t[1..])
  }

  /** The ascending rearrangement of s (functional insertion sort). */
  function SortSeq(s: seq<int>): (t: seq<int>)
    ensures |t| == |s|
  {
    if s == [] then [] else Insert(s[0], SortSeq(s[1..]))
  }

  lemma {:induction false} InsertMultiset(x: int, t: seq<int>)
    ensures multiset(Insert(x, t)) == multiset(t) + multiset{x}
  {
    if t != [] && x > t[0] {
      InsertMultiset(x, t[1..]);
      assert t == [t[0]] + t[1..];
    }
  }

  /** Inserting a value not below lo into a sequence not below lo keeps it not below lo. */
  lemma {:induction false} InsertBounded(x: int, t: seq<int>, lo: int)
    requires lo <= x && forall k :: 0 <= k < |t| ==> lo <= t[k]
    ensures forall k :: 0 <= k < |Insert(x, t)| ==> lo <= Insert(x, t)[k]
  {
    if t != [] && x > t[0] {
      InsertBounded(x, t[1..], lo);
      var r := Insert(x, t[1..]);
      assert Insert(x, t) == [t[0]] + r;
      forall k | 0 <= k < |r| + 1 ensures lo <= ([t[0]] + r)[k] {
        if k > 0 {
          assert ([t[0]] + r)[k] == r[k - 1];
        }
      }
    }
  }

  /** A value not above any element of an ascending r can be put in front of it. */
  lemma ConsSorted(h: int, r: seq<int>)
    requires Sorted(r) && forall k :: 0 <= k < |r| ==> h <= r[k]
    ensures Sorted([h] + r)
  {
    var u := [h] + r;
    forall i, j | 0 <= i < j < |u| ensures u[i] <= u[j] {
      assert u[j] == r[j - 1];
      if i > 0 {
        assert u[i] == r[i - 1];
      }
    }
  }

  lemma {:induction false} InsertSorted(x: int, t: seq<int>)
    requires Sorted(t)
    ensures Sorted(Insert(x, t))
    ensures multiset(Insert(x, t)) == multiset(t) + multiset{x}
  {
    InsertMultiset(x, t);
    if t == [] || x <= t[0] {
      assert forall k :: 0 <= k < |t| ==> x <= t[k] by {
        forall k | 0 <= k < |t| ensures x <= t[k] {
          assert t[0] <= t[k];
        }
      }
      ConsSorted(x, t);
    } else {
      InsertSorted(x, t[1..]);
      InsertBounded(x, t[1..], t[0]);
      ConsSorted(t[0], Insert(x, t[1..]));
    }
  }

  /** SortSeq(s) is ascending and holds exactly the elements of s. */
  lemma {:induction false} SortSeqSorted(s: seq<int>)
    ensures Sorted(SortSeq(s))
    ensures multiset(SortSeq(s)) == multiset(s)
    ensures |SortSeq(s)| == |s|
  {
    if s != [] {
      SortSeqSorted(s[1..]);
      InsertSorted(s[0], SortSeq(s[1..]));
      assert s == [s[0]] + s[1..];
    }
    assert |multiset(SortSeq(s))| == |multiset(s)|;
  }

  /** Two ascending sequences with the same elements are equal. */
  lemma {:induction false} SortedUnique(t: seq<int>, u: seq<int>)
    requires Sorted(t) && Sorted(u)
    requires multiset(t) == multiset(u)
    ensures t == u
  {
    assert |t| == |multiset(t)| == |multiset(u)| == |u|;
    if t != [] {
      assert t[0] in multiset(u);
      assert u[0] in multiset(t);
      assert t[0] == u[0];
      assert t == [t[0]] + t[1..];
      assert u == [u[0]] + u[1..];
      assert multiset(t) == multiset{t[0]} + multiset(t[1..]);
      assert multiset(u) == multiset{u[0]} + multiset(u[1..]);
      assert multiset(t[1..]) == multiset(t) - multiset{t[0]};
      assert multiset(u[1..]) == multiset(u) - multiset{u[0]};
      SortedUnique(t[1..], u[1..]);
    }
  }

  /** Every ascending rearrangement of s is SortSeq(s). */
  lemma SortedPermutationIsSortSeq(t: seq<int>, s: seq<int>)
    requires Sorted(t) && multiset(t) == multiset(s)
    ensures t == SortSeq(s)
  {
    SortSeqSorted(s);
    SortedUnique(t, SortSeq(s));
  }

  /** sort.Ints: sorts a in place (insertion sort by adjacent swaps). */
  method SortInts(a: array<int>)
    modifies a
    ensures a[..] == SortSeq(old(a[..]))
  {
    var i := 0;
    while i < a.Length
      invariant 0 <= i <= a.Length
      invariant Sorted(a[..i])
      invariant multiset(a[..]) == multiset(old(a[..]))
    {
      SinkInto(a, i);
      i := i + 1;
    }
    assert a[..a.Length] == a[..];
    SortedPermutationIsSortSeq(a[..], old(a[..]));
  }

  /** One pass of insertion sort: moves a[i] down into the sorted prefix a[..i]. */
  method SinkInto(a: array<int>, i: int)
    requires 0 <= i < a.Length && Sorted(a[..i])
    modifies a
    ensures Sorted(a[..i + 1])
    ensures multiset(a[..]) == multiset(old(a[..]))
  {
    var j := i;
    while j > 0 && a[j - 1] > a[j]
      invariant 0 <= j <= i
      invariant multiset(a[..]) == multiset(old(a[..]))
      invariant forall p, q :: 0 <= p < q <= i && p != j && q != j ==> a[p] <= a[q]
      invariant forall q :: j < q <= i ==> a[j] <= a[q]
    {
      SwapDown(a, j);
      j := j - 1;
    }
  }

  /** Exchanges a[j - 1] and a[j]. */
  method SwapDown(a: array<int>, j: int)
    requires 0 < j < a.Length
    modifies a
    ensures a[..] == old(a[..])[j - 1 := old(a[j])][j := old(a[j - 1])]
    ensures multiset(a[..]) == multiset(old(a[..]))
  {
    a[j - 1], a[j] := a[j], a[j - 1];
  }

  /** Number of elements of s strictly below v. */
  function CountBelow(s: seq<int>, v: int): nat {
    if s == [] then 0 else (if s[0] < v then 1 else 0) + CountBelow(s[1..], v)
  }

  /** Number of elements of s at most v. */
  function CountAtMost(s: seq<int>, v: int): nat {
    if s == [] then 0 else (if s[0] <= v then 1 else 0) + CountAtMost(s[1..], v)
  }

  lemma {:induction false} InsertCounts(x: int, t: seq<int>, v: int)
    ensures CountBelow(Insert(x, t), v) == CountBelow(t, v) + (if x < v then 1 else 0)
    ensures CountAtMost(Insert(x, t), v) == CountAtMost(t, v) + (if x <= v then 1 else 0)
  {
    if t == [] || x <= t[0] {
      assert ([x] + t)[1..] == t;
    } else {
      InsertCounts(x, t[1..], v);
      assert ([t[0]] + Insert(x, t[1..]))[1..] == Insert(x, t[1..]);
    }
  }

  /** Sorting does not change how many elements lie below (or at most) a value. */
  lemma {:induction false} SortSeqCounts(s: seq<int>, v: int)
    ensures CountBelow(SortSeq(s), v) == CountBelow(s, v)
    ensures CountAtMost(SortSeq(s), v) == CountAtMost(s, v)
  {
    if s != [] {
      SortSeqCounts(s[1..], v);
      InsertCounts(s[0], SortSeq(s[1..]), v);
    }
  }

  /** In an ascending t, at most k elements lie strictly below anything not above t[k]. */
  lemma {:induction false} SortedRankBelow(t: seq<int>, k: int, v: int)
    requires Sorted(t) && 0 <= k < |t| && v <= t[k]
    ensures CountBelow(t, v) <= k
  {
    if k == 0 {
      if |t| > 1 {
        SortedRankBelow(t[1..], 0, v);
      }
    } else {
      SortedRankBelow(t[1..], k - 1, v);
    }
  }

  /** In an ascending t, at least k + 1 elements are at most anything not below t[k]. */
  lemma {:induction false} SortedRankAtMost(t: seq<int>, k: int, v: int)
    requires Sorted(t) && 0 <= k < |t| && t[k] <= v
    ensures CountAtMost(t, v) >= k + 1
  {
    if k > 0 {
      SortedRankAtMost(t[1..], k - 1, v);
    }
  }
}
