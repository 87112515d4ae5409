/** The EFI memory map, sorted in place by physical start: a heap is built by sifting up, and built
    again after each removal of the maximum. */
module EfiSort {
  import opened Common

  /** A memory descriptor: where the region starts, and everything else about it. */
  datatype Desc = Desc(physicalStart: nat, rest: nat)

  predicate Leq(a: Desc, b: Desc) { a.physicalStart <= b.physicalStart }

  function Parent(i: nat): nat
    requires i > 0
  {
    (i - 1) / 2
  }

  /** The first n entries form a max-heap. */
  predicate Heap(s: seq<Desc>, n: nat)
    requires n <= |s|
  {
    forall i :: 0 < i < n ==> Leq(s[i], s[Parent(i)])
  }

  /** A heap of the first n entries but for the edge above child, whose own children may look past it. */
  predicate HeapBut(s: seq<Desc>, n: nat, child: nat)
    requires n <= |s|
  {
    && (forall i :: 0 < i < n && i != child ==> Leq(s[i], s[Parent(i)]))
    && (forall i :: 0 < i < n && Parent(i) == child && child > 0 ==> Leq(s[i], s[Parent(child)]))
  }

  predicate Sorted(s: seq<Desc>) { forall i, j :: 0 <= i < j < |s| ==> Leq(s[i], s[j]) }

  function Swapped(s: seq<Desc>, i: nat, j: nat): (r: seq<Desc>)
    requires i < |s| && j < |s|
    ensures |r| == |s| && multiset(r) == multiset(s)
  {
    var r := s[i := s[j]][j := s[i]];
    SwapKeepsMultiset(s, i, j);
    r
  }

  lemma SwapKeepsMultiset(s: seq<Desc>, i: nat, j: nat)
    requires i < |s| && j < |s|
    ensures multiset(s[i := s[j]][j := s[i]]) == multiset(s)
  {
  }

  /** The root of a heap is its maximum. */
  lemma {:induction false} RootIsMax(s: seq<Desc>, n: nat, i: nat)
    requires n <= |s| && Heap(s, n) && i < n
    ensures Leq(s[i], s[0])
  {
    if i > 0 {
      RootIsMax(s, n, Parent(i));
    }
  }

  /** One exchange with the parent moves the open edge up. */
  lemma SiftStep(s: seq<Desc>, n: nat, child: nat)
    requires 0 < child < n <= |s| && HeapBut(s, n, child) && !Leq(s[child], s[Parent(child)])
    ensures HeapBut(Swapped(s, child, Parent(child)), n, Parent(child))
  {
    var p := Parent(child);
    var t := Swapped(s, child, p);
    forall i | 0 < i < n && i != p ensures Leq(t[i], t[Parent(i)]) {
      if i != child && Parent(i) == p {
        assert Leq(s[i], s[p]);
      }
    }
    forall i | 0 < i < n && Parent(i) == p && p > 0 ensures Leq(t[i], t[Parent(p)]) {
      assert Leq(s[p], s[Parent(p)]);
      if i != child {
        assert Leq(s[i], s[p]);
      }
    }
  }

  /** What rearranging the first n entries may change. */
  predicate Rearranged(before: seq<Desc>, after: seq<Desc>, n: nat) {
    && |before| == |after| && n <= |after|
    && after[n..] == before[n..]
    && multiset(after[..n]) == multiset(before[..n])
  }

  lemma Unchanged(s: seq<Desc>, n: nat)
    requires n <= |s|
    ensures Rearranged(s, s, n)
  {
  }

  lemma SwapRearranges(before: seq<Desc>, s: seq<Desc>, n: nat, i: nat, j: nat)
    requires Rearranged(before, s, n) && i < n && j < n
    ensures Rearranged(before, Swapped(s, i, j), n)
  {
    var t := Swapped(s, i, j);
    assert t[..n] == Swapped(s[..n], i, j);
    assert t[n..] == s[n..];
  }

  /** A bound on the first n entries survives their rearrangement. */
  lemma BoundSurvives(before: seq<Desc>, after: seq<Desc>, n: nat, bound: Desc)
    requires Rearranged(before, after, n)
    requires forall i :: 0 <= i < n ==> Leq(before[i], bound)
    ensures forall i :: 0 <= i < n ==> Leq(after[i], bound)
  {
    forall i | 0 <= i < n ensures Leq(after[i], bound) {
      assert after[i] in multiset(after[..n]);
      assert after[i] in before[..n];
    }
  }

  lemma RearrangedWhole(before: seq<Desc>, after: seq<Desc>, n: nat)
    requires Rearranged(before, after, n)
    ensures multiset(after) == multiset(before)
  {
    assert after == after[..n] + after[n..] && before == before[..n] + before[n..];
  }

  class Map {
    const a: array<Desc>

    constructor (descs: array<Desc>)
      ensures a == descs
    {
      a := descs;
    }

    method Swap(i: nat, j: nat)
      requires i < a.Length && j < a.Length
      modifies a
      ensures a[..] == Swapped(old(a[..]), i, j)
    {
      var desc := a[i];
      a[i] := a[j];
      a[j] := desc;
    }

    /** Sifts entry end up into the heap before it. */
    method SiftUp(end: nat)
      requires 0 < end < a.Length && Heap(a[..], end)
      modifies a
      ensures Heap(a[..], end + 1) && Rearranged(old(a[..]), a[..], end + 1)
    {
      hide Swapped, Rearranged;
      Unchanged(a[..], end + 1);
      var child := end;
      while child > 0
        invariant child <= end && HeapBut(a[..], end + 1, child)
        invariant Rearranged(old(a[..]), a[..], end + 1)
      {
        var parent := Parent(child);
        if a[parent].physicalStart >= a[child].physicalStart {
          break;
        }
        SiftStep(a[..], end + 1, child);
        SwapRearranges(old(a[..]), a[..], end + 1, child, parent);
        Swap(child, parent);
        child := parent;
      }
    }

    /** Makes the first count entries a max-heap and leaves the others alone. */
    method Heapify(count: nat)
      requires count <= a.Length
      modifies a
      ensures Heap(a[..], count) && Rearranged(old(a[..]), a[..], count)
    {
      hide Rearranged;
      Unchanged(a[..], count);
      var end := 1;
      while end < count
        invariant 1 <= end && (end <= count || count == 0)
        invariant Heap(a[..], Min(end, count)) && Rearranged(old(a[..]), a[..], count)
      {
        ghost var before := a[..];
        SiftUp(end);
        WidenRearranged(old(a[..]), before, a[..], end + 1, count);
        end := end + 1;
      }
    }

    /** Ascending order, same descriptors. */
    method SortMap()
      requires a.Length > 0
      modifies a
      ensures Sorted(a[..]) && multiset(a[..]) == multiset(old(a[..]))
    {
      var ndescs := a.Length;
      Heapify(ndescs);
      RearrangedWhole(old(a[..]), a[..], ndescs);
      var end := ndescs - 1;
      while end > 0
        invariant 0 <= end < ndescs && SortedFrom(a[..], end + 1)
        invariant multiset(a[..]) == multiset(old(a[..]))
      {
        RemoveMax(end);
        end := end - 1;
      }
    }

    /** The maximum goes to the end of the heap, which is rebuilt without it. */
    method RemoveMax(end: nat)
      requires 0 < end < a.Length && SortedFrom(a[..], end + 1)
      modifies a
      ensures SortedFrom(a[..], end) && multiset(a[..]) == multiset(old(a[..]))
    {
      MaxMoves(a[..], end);
      Swap(end, 0);
      ghost var swapped := a[..];
      Heapify(end);
      RearrangedWhole(swapped, a[..], end);
      StillBounded(swapped, a[..], end);
    }
  }

  /** The first n entries are a heap, the rest is sorted, and nothing in the heap exceeds the rest. */
  predicate SortedFrom(s: seq<Desc>, n: nat) {
    n <= |s| && Heap(s, n) && Bounded(s, n)
  }

  predicate Bounded(s: seq<Desc>, n: nat)
    requires n <= |s|
  {
    && Sorted(s[n..])
    && (forall i, j :: 0 <= i < n <= j < |s| ==> Leq(s[i], s[j]))
  }

  lemma MaxMoves(s: seq<Desc>, end: nat)
    requires 0 < end < |s| && SortedFrom(s, end + 1)
    ensures Bounded(Swapped(s, end, 0), end)
  {
    var t := Swapped(s, end, 0);
    forall i | 0 <= i <= end ensures Leq(s[i], s[0]) {
      RootIsMax(s, end + 1, i);
    }
    forall i, j | 0 <= i < j < |t[end..]| ensures Leq(t[end..][i], t[end..][j]) {
      if i > 0 {
        assert t[end..][i] == s[end + 1..][i - 1] && t[end..][j] == s[end + 1..][j - 1];
      } else {
        assert t[end..][0] == s[0] && t[end..][j] == s[end + j];
      }
    }
  }

  lemma StillBounded(before: seq<Desc>, after: seq<Desc>, n: nat)
    requires Rearranged(before, after, n) && Bounded(before, n)
    ensures Bounded(after, n)
  {
    forall j | n <= j < |after| ensures forall i :: 0 <= i < n ==> Leq(after[i], after[j]) {
      assert after[j] == after[n..][j - n] == before[n..][j - n] == before[j];
      BoundSurvives(before, after, n, before[j]);
    }
  }

  lemma WidenRearranged(first: seq<Desc>, before: seq<Desc>, after: seq<Desc>, n: nat, m: nat)
    requires Rearranged(first, before, m) && Rearranged(before, after, n) && n <= m
    ensures Rearranged(first, after, m)
  {
    assert after[..m] == after[..n] + after[n..][..m - n];
    assert before[..m] == before[..n] + before[n..][..m - n];
    assert after[m..] == after[n..][m - n..] && before[m..] == before[n..][m - n..];
  }
}
