/**
 The in-place quicksort of crashlog/fsutils.c, which sorts an array of integers and
 carries an array of records along with it, and its only use: turning a ring back into
 chronological order.

 The methods work on the two arrays; the functions say what they do to the sequence of
 (index, record) pairs, and the lemmas prove what the source relies on about it.
 */
module QuickSort {
  import Modulo

  type Pairs<T> = seq<(int, T)>

  function Swapped<E>(s: seq<E>, i: int, j: int): (t: seq<E>)
    requires 0 <= i < |s| && 0 <= j < |s|
    ensures |t| == |s|
  {
    s[i := s[j]][j := s[i]]
  }

  /** The loop of qs_partition, from iteration `i` on; the pivot is at `end`. */
  function PartitionLoop<T>(s: Pairs<T>, i: int, j: int, end: int): (r: (Pairs<T>, int))
    requires 0 <= j <= i <= end < |s|
    ensures |r.0| == |s| && j <= r.1 <= end
    decreases end - i
  {
    if i == end then (s, j)
    else if s[i].0 <= s[end].0 then PartitionLoop(Swapped(s, i, j), i + 1, j + 1, end)
    else PartitionLoop(s, i + 1, j, end)
  }

  function Partition<T>(s: Pairs<T>, start: int, end: int, pivot: int): (r: (Pairs<T>, int))
    requires 0 <= start <= pivot <= end < |s|
    ensures |r.0| == |s| && start <= r.1 <= end
  {
    var (t, j) := PartitionLoop(Swapped(s, pivot, end), start, start, end);
    (Swapped(t, end, j), j)
  }

  function Sort<T>(s: Pairs<T>, start: int, end: int): (t: Pairs<T>)
    requires 0 <= start <= end + 1 <= |s|
    ensures |t| == |s|
    decreases end + 1 - start
  {
    if start < end then
      var (t, pivot) := Partition(s, start, end, start);
      Sort(Sort(t, start, pivot - 1), pivot + 1, end)
    else s
  }

  // ----- the arrays -----

  /** The (index, record) pairs held by the two arrays. */
  function Zip<T>(a: seq<T>, indexes: seq<int>): (r: Pairs<T>)
    requires |indexes| <= |a|
    ensures |r| == |indexes|
    ensures forall i :: 0 <= i < |r| ==> r[i] == (indexes[i], a[i])
  {
    seq(|indexes|, i requires 0 <= i < |indexes| => (indexes[i], a[i]))
  }

  /** qs_swap */
  method QsSwap<T>(a: array<T>, indexes: array<int>, first: int, second: int)
    requires a as object != indexes && indexes.Length <= a.Length
    requires 0 <= first < indexes.Length && 0 <= second < indexes.Length
    modifies a, indexes
    ensures Zip(a[..], indexes[..]) == Swapped(old(Zip(a[..], indexes[..])), first, second)
    ensures a[indexes.Length..] == old(a[indexes.Length..])
  {
    var itmp := indexes[first];
    indexes[first] := indexes[second];
    indexes[second] := itmp;

    var vtmp := a[first];
    a[first] := a[second];
    a[second] := vtmp;
  }

  /** qs_partition */
  method QsPartition<T>(a: array<T>, indexes: array<int>, start: int, end: int, pivot: int) returns (j: int)
    requires a as object != indexes && indexes.Length <= a.Length
    requires 0 <= start <= pivot <= end < indexes.Length
    modifies a, indexes
    ensures (Zip(a[..], indexes[..]), j) == Partition(old(Zip(a[..], indexes[..])), start, end, pivot)
    ensures a[indexes.Length..] == old(a[indexes.Length..])
  {
    j := start;
    QsSwap(a, indexes, pivot, end);
    ghost var s := Zip(a[..], indexes[..]);
    for i := start to end
      invariant start <= j <= i
      invariant PartitionLoop(s, start, start, end) == PartitionLoop(Zip(a[..], indexes[..]), i, j, end)
      invariant a[indexes.Length..] == old(a[indexes.Length..])
    {
      if indexes[i] <= indexes[end] {
        QsSwap(a, indexes, i, j);
        j := j + 1;
      }
    }
    QsSwap(a, indexes, end, j);
  }

  /** __quicksort */
  method QuickSortRec<T>(a: array<T>, indexes: array<int>, start: int, end: int)
    requires a as object != indexes && indexes.Length <= a.Length
    requires 0 <= start <= end + 1 <= indexes.Length
    modifies a, indexes
    ensures Zip(a[..], indexes[..]) == Sort(old(Zip(a[..], indexes[..])), start, end)
    ensures a[indexes.Length..] == old(a[indexes.Length..])
    decreases end + 1 - start
  {
    if start < end {
      var pivot := QsPartition(a, indexes, start, end, start);
      QuickSortRec(a, indexes, start, pivot - 1);
      QuickSortRec(a, indexes, pivot + 1, end);
    }
  }

  // ----- permutation -----

  /** `t` is `s` with the elements at positions lo..hi permuted. */
  ghost predicate Permuted<E>(s: seq<E>, t: seq<E>, lo: int, hi: int)
    requires |s| == |t|
  {
    && multiset(s) == multiset(t)
    && forall k :: 0 <= k < |s| && !(lo <= k < hi) ==> s[k] == t[k]
  }

  lemma {:induction false} SwapPermutes<E>(s: seq<E>, i: int, j: int, lo: int, hi: int)
    requires 0 <= lo <= i < hi <= |s| && lo <= j < hi
    ensures Permuted(s, Swapped(s, i, j), lo, hi)
  {
  }

  lemma {:induction false} MultisetSplit<E>(s: seq<E>, lo: int, hi: int)
    requires 0 <= lo <= hi <= |s|
    ensures multiset(s) == multiset(s[lo..hi]) + (multiset(s[..lo]) + multiset(s[hi..]))
  {
    assert s == s[..lo] + s[lo..hi] + s[hi..];
  }

  lemma {:induction false} MultisetCancel<E>(x: multiset<E>, y: multiset<E>, outside: multiset<E>)
    requires x + outside == y + outside
    ensures x == y
  {
    assert x == (x + outside) - outside;
    assert y == (y + outside) - outside;
  }

  lemma {:induction false} PermutedInside<E>(s: seq<E>, t: seq<E>, lo: int, hi: int)
    requires 0 <= lo <= hi <= |s| && |s| == |t|
    requires Permuted(s, t, lo, hi)
    ensures multiset(s[lo..hi]) == multiset(t[lo..hi])
  {
    MultisetSplit(s, lo, hi);
    MultisetSplit(t, lo, hi);
    assert s[..lo] == t[..lo] && s[hi..] == t[hi..];
    MultisetCancel(multiset(s[lo..hi]), multiset(t[lo..hi]), multiset(s[..lo]) + multiset(s[hi..]));
  }

  lemma {:induction false} PermutedKeeps<E>(s: seq<E>, t: seq<E>, lo: int, hi: int, p: E -> bool)
    requires 0 <= lo <= hi <= |s| && |s| == |t|
    requires Permuted(s, t, lo, hi)
    requires forall k :: lo <= k < hi ==> p(s[k])
    ensures forall k :: lo <= k < hi ==> p(t[k])
  {
    PermutedInside(s, t, lo, hi);
    forall k | lo <= k < hi ensures p(t[k]) {
      assert t[k] in multiset(t[lo..hi]);
      assert t[k] in s[lo..hi];
    }
  }

  lemma {:induction false} PartitionLoopPermutes<T>(s: Pairs<T>, i: int, j: int, end: int, start: int)
    requires 0 <= start <= j <= i <= end < |s|
    ensures Permuted(s, PartitionLoop(s, i, j, end).0, start, end + 1)
    decreases end - i
  {
    if i < end {
      if s[i].0 <= s[end].0 {
        SwapPermutes(s, i, j, start, end + 1);
        PartitionLoopPermutes(Swapped(s, i, j), i + 1, j + 1, end, start);
      } else {
        PartitionLoopPermutes(s, i + 1, j, end, start);
      }
    }
  }

  lemma {:induction false} PartitionPermutes<T>(s: Pairs<T>, start: int, end: int, pivot: int)
    requires 0 <= start <= pivot <= end < |s|
    ensures Permuted(s, Partition(s, start, end, pivot).0, start, end + 1)
  {
    SwapPermutes(s, pivot, end, start, end + 1);
    var s1 := Swapped(s, pivot, end);
    PartitionLoopPermutes(s1, start, start, end, start);
    var (t, j) := PartitionLoop(s1, start, start, end);
    SwapPermutes(t, end, j, start, end + 1);
  }

  // ----- order -----

  /** Below `j` no key exceeds `p`, from `j` to `i` all do. */
  predicate Partitioned<T>(s: Pairs<T>, start: int, j: int, i: int, p: int)
    requires 0 <= start <= j <= i <= |s|
  {
    && (forall k :: start <= k < j ==> s[k].0 <= p)
    && (forall k :: j <= k < i ==> p < s[k].0)
  }

  lemma {:induction false} PartitionLoopSplits<T>(s: Pairs<T>, i: int, j: int, end: int, start: int)
    requires 0 <= start <= j <= i <= end < |s|
    requires Partitioned(s, start, j, i, s[end].0)
    ensures var r := PartitionLoop(s, i, j, end);
            r.0[end] == s[end] && Partitioned(r.0, start, r.1, end, s[end].0)
    decreases end - i
  {
    if i < end {
      if s[i].0 <= s[end].0 {
        var t := Swapped(s, i, j);
        assert forall k :: start <= k < j || j < k < i || k == end ==> t[k] == s[k];
        PartitionLoopSplits(t, i + 1, j + 1, end, start);
      } else {
        PartitionLoopSplits(s, i + 1, j, end, start);
      }
    }
  }

  /** The pivot lands at the returned position, between the pairs whose key does not
      exceed its own and those whose key does. */
  lemma {:induction false} PartitionSplits<T>(s: Pairs<T>, start: int, end: int, pivot: int)
    requires 0 <= start <= pivot <= end < |s|
    ensures var (t, j) := Partition(s, start, end, pivot);
            t[j] == s[pivot] && Partitioned(t, start, j + 1, end + 1, s[pivot].0)
  {
    var s1 := Swapped(s, pivot, end);
    PartitionLoopSplits(s1, start, start, end, start);
    var (s2, j) := PartitionLoop(s1, start, start, end);
    var t := Swapped(s2, end, j);
    assert forall k :: start <= k < j || j < k < end ==> t[k] == s2[k];
  }

  predicate SortedKeys<T>(s: Pairs<T>, lo: int, hi: int)
    requires 0 <= lo <= |s| && hi <= |s|
  {
    forall i, j :: lo <= i < j < hi ==> s[i].0 <= s[j].0
  }

  /** The sort keeps every record with its key, and moves nothing outside its range. */
  lemma {:induction false} SortPermutes<T>(s: Pairs<T>, start: int, end: int)
    requires 0 <= start <= end + 1 <= |s|
    ensures Permuted(s, Sort(s, start, end), start, end + 1)
    decreases end + 1 - start
  {
    if start < end {
      PartitionPermutes(s, start, end, start);
      var (s1, j) := Partition(s, start, end, start);
      SortPermutes(s1, start, j - 1);
      SortPermutes(Sort(s1, start, j - 1), j + 1, end);
    }
  }

  lemma {:induction false} SortKeeps<T>(s: Pairs<T>, start: int, end: int, p: ((int, T)) -> bool)
    requires 0 <= start <= end + 1 <= |s|
    requires forall k :: start <= k <= end ==> p(s[k])
    ensures forall k :: start <= k <= end ==> p(Sort(s, start, end)[k])
    ensures forall k :: 0 <= k < start || end < k < |s| ==> Sort(s, start, end)[k] == s[k]
  {
    SortPermutes(s, start, end);
    PermutedKeeps(s, Sort(s, start, end), start, end + 1, p);
  }

  /** The sort orders the keys: two sorted halves around the pivot. */
  lemma {:induction false} SortOrders<T>(s: Pairs<T>, start: int, end: int)
    requires 0 <= start <= end + 1 <= |s|
    ensures SortedKeys(Sort(s, start, end), start, end + 1)
    decreases end + 1 - start
  {
    if start < end {
      PartitionSplits(s, start, end, start);
      var (s1, j) := Partition(s, start, end, start);
      var p := s[start].0;
      SortOrders(s1, start, j - 1);
      SortKeeps(s1, start, j - 1, (e: (int, T)) => e.0 <= p);
      var s2 := Sort(s1, start, j - 1);
      SortOrders(s2, j + 1, end);
      SortKeeps(s2, j + 1, end, (e: (int, T)) => p < e.0);
    }
  }

  // ----- the ring -----

  /** `s` read from `pivot` on, wrapping around: what the sort makes of a ring. */
  function Unrotated<T>(s: seq<T>, pivot: int): (r: seq<T>)
    ensures |r| == |s|
  {
    if 0 < pivot < |s| then s[pivot..] + s[..pivot] else s
  }

  lemma {:induction false} UnrotatedAt<T>(s: seq<T>, pivot: int, k: int)
    requires 0 < pivot < |s| && 0 <= k < |s|
    ensures Unrotated(s, pivot)[k] == s[(k + pivot) % |s|]
  {
    Modulo.ModOnce(k + pivot, |s|);
  }

  lemma {:induction false} UnrotatedPermutes<T>(s: seq<T>, pivot: int)
    ensures multiset(Unrotated(s, pivot)) == multiset(s)
  {
    if 0 < pivot < |s| {
      assert s == s[..pivot] + s[pivot..];
    }
  }

  predicate StrictKeys<T>(s: Pairs<T>) {
    forall i, j :: 0 <= i < j < |s| ==> s[i].0 < s[j].0
  }

  lemma {:induction false} SortedFirst<T>(s: Pairs<T>, t: Pairs<T>)
    requires s != [] && t != []
    requires StrictKeys(s) && SortedKeys(t, 0, |t|)
    requires s[0] in t && t[0] in s
    ensures s[0] == t[0]
  {
    var k :| 0 <= k < |s| && s[k] == t[0];
    var m :| 0 <= m < |t| && t[m] == s[0];
    assert t[0].0 <= t[m].0;
  }

  /** With distinct keys there is only one way to sort a set of pairs. */
  lemma {:induction false} SortedUnique<T>(s: Pairs<T>, t: Pairs<T>)
    requires StrictKeys(s) && SortedKeys(t, 0, |t|)
    requires multiset(s) == multiset(t)
    ensures s == t
  {
    if s == [] {
      assert t == [] by { assert |multiset(t)| == 0; }
    } else {
      assert t != [] by { assert s[0] in multiset(t); }
      assert s[0] in multiset(t) && t[0] in multiset(s);
      SortedFirst(s, t);
      var s', t' := s[1..], t[1..];
      StrictTail(s);
      SortedTail(t);
      assert |multiset(s)| == |multiset(t)|;
      MultisetTail(s, t);
      SortedUnique(s', t');
      assert s == [s[0]] + s' && t == [s[0]] + t';
    }
  }

  lemma {:induction false} MultisetTail<E>(s: seq<E>, t: seq<E>)
    requires s != [] && |s| == |t| && s[0] == t[0] && multiset(s) == multiset(t)
    ensures multiset(s[1..]) == multiset(t[1..])
  {
    PermutedInside(s, t, 1, |s|);
    assert s[1..|s|] == s[1..] && t[1..|t|] == t[1..];
  }

  lemma {:induction false} StrictTail<T>(s: Pairs<T>)
    requires s != [] && StrictKeys(s)
    ensures StrictKeys(s[1..])
  {
  }

  lemma {:induction false} SortedTail<T>(s: Pairs<T>)
    requires s != [] && SortedKeys(s, 0, |s|)
    ensures SortedKeys(s[1..], 0, |s[1..]|)
  {
  }

  /** The pairs that quicksort builds: keyed by the position each record must reach. */
  ghost predicate Keyed<T>(s: Pairs<T>, a: seq<T>, pivot: int) {
    && |s| == |a|
    && forall k :: 0 <= k < |s| ==>
      s[k] == (if k < pivot then |s| - pivot + k else k - pivot, a[k])
  }

  /** Sorting the pairs that quicksort builds un-rotates the records. */
  lemma {:induction false} SortUnrotates<T>(s: Pairs<T>, a: seq<T>, pivot: int)
    requires Keyed(s, a, pivot)
    ensures forall k :: 0 <= k < |a| ==> Sort(s, 0, |s| - 1)[k].1 == Unrotated(a, pivot)[k]
  {
    var t, r := Sort(s, 0, |s| - 1), Unrotated(s, pivot);
    assert multiset(r) == multiset(t) && SortedKeys(t, 0, |t|) by {
      UnrotatedPermutes(s, pivot);
      SortPermutes(s, 0, |s| - 1);
      SortOrders(s, 0, |s| - 1);
    }
    KeyedUnrotated(s, a, pivot);
    SortedUnique(r, t);
  }

  lemma {:induction false} KeyedUnrotated<T>(s: Pairs<T>, a: seq<T>, pivot: int)
    requires Keyed(s, a, pivot)
    ensures var r := Unrotated(s, pivot);
            && StrictKeys(r)
            && forall k :: 0 <= k < |s| ==> r[k].1 == Unrotated(a, pivot)[k]
  {
    var r := Unrotated(s, pivot);
    forall k | 0 <= k < |s| ensures r[k].1 == Unrotated(a, pivot)[k] {
      var i := if 0 < pivot < |s| then (if k < |s| - pivot then k + pivot else k + pivot - |s|) else k;
      assert r[k] == s[i] && Unrotated(a, pivot)[k] == a[i];
    }
    if 0 < pivot < |s| {
      assert forall k :: 0 <= k < |s| ==> r[k].0 == k;
    }
  }

  /** quicksort: un-rotates the first `dim` records around `pivot`; the others stay. */
  method Quicksort<T>(a: array<T>, dim: int, pivot: int) returns (res: int)
    requires 0 <= dim <= a.Length
    modifies a
    ensures res == 0
    ensures a[..dim] == Unrotated(old(a[..dim]), pivot)
    ensures a[dim..] == old(a[dim..])
  {
    var indexes := new int[dim];
    var diff := dim - pivot;
    for i := 0 to dim
      invariant a[..] == old(a[..])
      invariant forall k :: 0 <= k < i ==> indexes[k] == if k < pivot then diff + k else k - pivot
    {
      if i < pivot {
        indexes[i] := diff + i;
      } else {
        indexes[i] := i - pivot;
      }
    }
    ghost var s := Zip(a[..], indexes[..]);
    assert Keyed(s, old(a[..dim]), pivot);
    SortUnrotates(s, old(a[..dim]), pivot);
    QuickSortRec(a, indexes, 0, dim - 1);
    assert forall k :: 0 <= k < dim ==> a[k] == Zip(a[..], indexes[..])[k].1;
    res := 0;
  }
}
