/** The sorting and searching routines of src/lib/stdlib.c: heap sort in place
    and binary search, for a caller-supplied strcmp()-type comparison. */
module Stdlib {
  import opened Options

  /** What a strcmp()-type comparison must satisfy: a total preorder. */
  ghost predicate TotalPreorder<T(!new)>(cmp: (T, T) -> int) {
    && (forall x, y :: cmp(x, y) < 0 <==> cmp(y, x) > 0)
    && (forall x, y, z :: cmp(x, y) <= 0 && cmp(y, z) <= 0 ==> cmp(x, z) <= 0)
  }

  ghost predicate Sorted<T>(cmp: (T, T) -> int, s: seq<T>) {
    forall i, j :: 0 <= i < j < |s| ==> cmp(s[i], s[j]) <= 0
  }

  /** Every node of the 1-based heap s[..cnt] whose parent is at lo or later,
      other than the parent hole, does not exceed its parent. */
  ghost predicate HeapExcept<T>(cmp: (T, T) -> int, s: seq<T>, lo: nat, cnt: nat, hole: nat)
    requires cnt <= |s|
  {
    forall c :: 2 <= c <= cnt && lo <= c / 2 && c / 2 != hole ==> cmp(s[c - 1], s[c / 2 - 1]) <= 0
  }

  ghost predicate HeapFrom<T>(cmp: (T, T) -> int, s: seq<T>, lo: nat, cnt: nat)
    requires cnt <= |s|
  {
    HeapExcept(cmp, s, lo, cnt, 0)
  }

  /** do_swap(), with 1-based indexes. */
  method DoSwap<T>(a: array<T>, i: nat, j: nat)
    requires 1 <= i <= a.Length && 1 <= j <= a.Length
    modifies a
    ensures a[..] == old(a[..])[i - 1 := old(a[j - 1])][j - 1 := old(a[i - 1])]
  {
    a[i - 1], a[j - 1] := a[j - 1], a[i - 1];
  }

  /** What heapify()'s loop keeps: only the children of node j may exceed it, and
      they do not exceed j's parent. */
  ghost predicate Sinking<T>(cmp: (T, T) -> int, s: seq<T>, i: nat, j: nat, cnt: nat)
    requires cnt <= |s|
  {
    && 1 <= i <= j <= cnt
    && HeapExcept(cmp, s, i, cnt, j)
    && (forall c :: 2 <= c <= cnt && c / 2 == j && i <= j / 2 ==> cmp(s[c - 1], s[j / 2 - 1]) <= 0)
  }

  /** max is j or a child of j, and no child of j exceeds it. */
  ghost predicate LargestAt<T>(cmp: (T, T) -> int, s: seq<T>, j: nat, cnt: nat, max: nat)
    requires 1 <= j <= cnt <= |s|
  {
    && (max == j || (j < max <= cnt && max / 2 == j && cmp(s[max - 1], s[j - 1]) > 0))
    && (forall c :: 2 <= c <= cnt && c / 2 == j ==> cmp(s[c - 1], s[max - 1]) <= 0)
  }

  /** Swapping node j with its largest child max moves the defect down. */
  lemma SinkStep<T(!new)>(cmp: (T, T) -> int, s: seq<T>, i: nat, j: nat, cnt: nat, max: nat, s': seq<T>)
    requires TotalPreorder(cmp) && cnt <= |s| && Sinking(cmp, s, i, j, cnt)
    requires LargestAt(cmp, s, j, cnt, max) && max != j
    requires s' == s[j - 1 := s[max - 1]][max - 1 := s[j - 1]]
    ensures Sinking(cmp, s', i, max, cnt)
  {
    forall c | 2 <= c <= cnt && i <= c / 2 && c / 2 != max ensures cmp(s'[c - 1], s'[c / 2 - 1]) <= 0 {
      if c / 2 == j {
        assert c != max ==> s'[c - 1] == s[c - 1];
        assert cmp(s[j - 1], s[max - 1]) <= 0;
      } else if c == j {
        assert cmp(s[max - 1], s[j / 2 - 1]) <= 0;
      } else {
        assert cmp(s[c - 1], s[c / 2 - 1]) <= 0;
      }
    }
    forall c | 2 <= c <= cnt && c / 2 == max && i <= max / 2 ensures cmp(s'[c - 1], s'[max / 2 - 1]) <= 0 {
      assert cmp(s[c - 1], s[c / 2 - 1]) <= 0;
    }
  }

  /** A heap with no defect left. */
  lemma SinkDone<T(!new)>(cmp: (T, T) -> int, s: seq<T>, i: nat, j: nat, cnt: nat)
    requires cnt <= |s| && Sinking(cmp, s, i, j, cnt) && LargestAt(cmp, s, j, cnt, j)
    ensures HeapFrom(cmp, s, i, cnt)
  {
    forall c | 2 <= c <= cnt && i <= c / 2 ensures cmp(s[c - 1], s[c / 2 - 1]) <= 0 {
      assert c / 2 == j ==> cmp(s[c - 1], s[j - 1]) <= 0;
    }
  }

  /** The choice heapify() makes in each round. */
  method Largest<T(!new)>(a: array<T>, i: nat, cnt: nat, cmp: (T, T) -> int) returns (max: nat)
    requires TotalPreorder(cmp) && 1 <= i <= cnt <= a.Length
    ensures LargestAt(cmp, a[..], i, cnt, max)
  {
    var left, right := 2 * i, 2 * i + 1;
    max := i;
    if left <= cnt && cmp(a[left - 1], a[max - 1]) > 0 {
      max := left;
    }
    if right <= cnt && cmp(a[right - 1], a[max - 1]) > 0 {
      max := right;
    }
    forall c | 2 <= c <= cnt && c / 2 == i ensures cmp(a[c - 1], a[max - 1]) <= 0 {
      assert c == left || c == right;
    }
  }

  /** What heapify() may do to the array: permute its first cnt elements. */
  ghost predicate PermutesFirst<T>(s: seq<T>, s': seq<T>, cnt: nat) {
    cnt <= |s| == |s'| && multiset(s'[..cnt]) == multiset(s[..cnt]) && s'[cnt..] == s[cnt..]
  }

  lemma SwapPermutes<T>(s: seq<T>, i: nat, j: nat, cnt: nat)
    requires i < cnt && j < cnt && cnt <= |s|
    ensures PermutesFirst(s, s[i := s[j]][j := s[i]], cnt)
  {
    assert s[i := s[j]][j := s[i]][..cnt] == s[..cnt][i := s[j]][j := s[i]];
  }

  lemma PermutesTrans<T>(s: seq<T>, t: seq<T>, u: seq<T>, cnt: nat)
    requires PermutesFirst(s, t, cnt) && PermutesFirst(t, u, cnt)
    ensures PermutesFirst(s, u, cnt)
  {
  }

  /** The exchange at the end of each round. */
  method SwapDown<T(!new)>(a: array<T>, i0: nat, i: nat, cnt: nat, max: nat, cmp: (T, T) -> int, ghost start: seq<T>)
    requires TotalPreorder(cmp) && cnt <= a.Length && Sinking(cmp, a[..], i0, i, cnt)
    requires LargestAt(cmp, a[..], i, cnt, max) && max != i && PermutesFirst(start, a[..], cnt)
    modifies a
    ensures Sinking(cmp, a[..], i0, max, cnt) && PermutesFirst(start, a[..], cnt)
  {
    ghost var s := a[..];
    ghost var s' := s[i - 1 := s[max - 1]][max - 1 := s[i - 1]];
    SwapPermutes(s, i - 1, max - 1, cnt);
    PermutesTrans(start, s, s', cnt);
    SinkStep(cmp, s, i0, i, cnt, max, s');
    DoSwap(a, i, max);
    assert a[..] == s';
  }

  /** heapify(): floats element i down, which repairs the heap below it. */
  method Heapify<T(!new)>(a: array<T>, i0: nat, cnt: nat, cmp: (T, T) -> int)
    requires TotalPreorder(cmp) && 1 <= i0 <= cnt <= a.Length
    requires HeapFrom(cmp, a[..], i0 + 1, cnt)
    modifies a
    ensures HeapFrom(cmp, a[..], i0, cnt)
    ensures PermutesFirst(old(a[..]), a[..], cnt)
  {
    var i := i0;
    ghost var start := a[..];
    var max := Largest(a, i, cnt, cmp);
    while max != i
      invariant Sinking(cmp, a[..], i0, i, cnt) && LargestAt(cmp, a[..], i, cnt, max)
      invariant PermutesFirst(start, a[..], cnt)
      decreases cnt - i
    {
      SwapDown(a, i0, i, cnt, max, cmp, start);
      i := max;
      max := Largest(a, i, cnt, cmp);
    }
    SinkDone(cmp, a[..], i0, i, cnt);
  }

  // ---------------------------------------------------------------------
  // Sorting
  // ---------------------------------------------------------------------

  /** The root of a heap is its greatest element. */
  lemma {:induction false} RootIsGreatest<T(!new)>(cmp: (T, T) -> int, s: seq<T>, cnt: nat, k: nat)
    requires TotalPreorder(cmp) && cnt <= |s| && HeapFrom(cmp, s, 1, cnt) && 1 <= k <= cnt
    ensures cmp(s[k - 1], s[0]) <= 0
  {
    if k == 1 {
      assert !(cmp(s[0], s[0]) > 0);
    } else {
      RootIsGreatest(cmp, s, cnt, k / 2);
      assert cmp(s[k - 1], s[k / 2 - 1]) <= 0;
    }
  }

  /** Every element of s is at most every element of t. */
  ghost predicate AllBelow<T>(cmp: (T, T) -> int, s: seq<T>, t: seq<T>) {
    forall x, y :: x in s && y in t ==> cmp(x, y) <= 0
  }

  /** The second loop of sort(): a heap of the i smallest, then the rest, sorted. */
  ghost predicate Extracting<T>(cmp: (T, T) -> int, s: seq<T>, i: nat) {
    && i <= |s|
    && HeapFrom(cmp, s, 1, i)
    && Sorted(cmp, s[i..])
    && AllBelow(cmp, s[..i], s[i..])
  }

  /** Exchanging the root with the last element of the heap. */
  lemma ExtractSwap<T(!new)>(cmp: (T, T) -> int, s: seq<T>, i: nat, s': seq<T>)
    requires TotalPreorder(cmp) && 2 <= i && Extracting(cmp, s, i)
    requires s' == s[0 := s[i - 1]][i - 1 := s[0]]
    ensures HeapFrom(cmp, s', 2, i - 1)
    ensures Sorted(cmp, s'[i - 1..]) && AllBelow(cmp, s'[..i - 1], s'[i - 1..])
  {
    assert s'[i - 1..] == [s[0]] + s[i..];
    forall x | x in s'[..i - 1] ensures x in s[..i] && cmp(x, s[0]) <= 0 {
      var p :| 0 <= p < i - 1 && s'[p] == x;
      var k := if p == 0 then i else p + 1;
      assert x == s[k - 1] && s[..i][k - 1] == x;
      RootIsGreatest(cmp, s, i, k);
    }
    assert s[0] in s[..i];
    forall c | 2 <= c <= i - 1 && 2 <= c / 2 ensures cmp(s'[c - 1], s'[c / 2 - 1]) <= 0 {
      assert cmp(s[c - 1], s[c / 2 - 1]) <= 0;
    }
  }

  lemma BelowPermuted<T>(cmp: (T, T) -> int, s: seq<T>, s': seq<T>, i: nat)
    requires PermutesFirst(s, s', i) && AllBelow(cmp, s[..i], s[i..])
    ensures AllBelow(cmp, s'[..i], s'[i..])
  {
    assert forall x :: x in s'[..i] ==> x in multiset(s'[..i]);
    assert forall x :: x in multiset(s[..i]) ==> x in s[..i];
  }

  lemma PermutesLonger<T>(s: seq<T>, s': seq<T>, i: nat, j: nat)
    requires PermutesFirst(s, s', i) && i <= j <= |s|
    ensures PermutesFirst(s, s', j)
  {
    assert s[..j] == s[..i] + s[i..][..j - i] && s'[..j] == s'[..i] + s'[i..][..j - i];
    assert s[j..] == s[i..][j - i..] && s'[j..] == s'[i..][j - i..];
  }

  /** One round of the second loop of sort(). */
  method ExtractRoot<T(!new)>(a: array<T>, i: nat, cmp: (T, T) -> int, ghost start: seq<T>)
    requires TotalPreorder(cmp) && 2 <= i && Extracting(cmp, a[..], i) && PermutesFirst(start, a[..], a.Length)
    modifies a
    ensures Extracting(cmp, a[..], i - 1) && PermutesFirst(start, a[..], a.Length)
  {
    ghost var s := a[..];
    ghost var s' := s[0 := s[i - 1]][i - 1 := s[0]];
    ExtractSwap(cmp, s, i, s');
    SwapPermutes(s, 0, i - 1, a.Length);
    PermutesTrans(start, s, s', a.Length);
    DoSwap(a, 1, i);
    assert a[..] == s';
    Heapify(a, 1, i - 1, cmp);
    BelowPermuted(cmp, s', a[..], i - 1);
    PermutesLonger(s', a[..], i - 1, a.Length);
    PermutesTrans(start, s', a[..], a.Length);
  }

  /** The first loop of sort(). */
  method BuildHeap<T(!new)>(a: array<T>, cmp: (T, T) -> int)
    requires TotalPreorder(cmp)
    modifies a
    ensures HeapFrom(cmp, a[..], 1, a.Length) && PermutesFirst(old(a[..]), a[..], a.Length)
  {
    ghost var start := a[..];
    var i := a.Length / 2;
    while i > 0
      invariant 0 <= i <= a.Length / 2
      invariant HeapFrom(cmp, a[..], i + 1, a.Length) && PermutesFirst(start, a[..], a.Length)
    {
      ghost var s := a[..];
      Heapify(a, i, a.Length, cmp);
      PermutesTrans(start, s, a[..], a.Length);
      i := i - 1;
    }
  }

  /** sort(): a sorted permutation, for every total preorder. */
  method Sort<T(!new)>(a: array<T>, cmp: (T, T) -> int)
    requires TotalPreorder(cmp)
    modifies a
    ensures Sorted(cmp, a[..]) && multiset(a[..]) == multiset(old(a[..]))
  {
    ghost var start := a[..];
    BuildHeap(a, cmp);
    assert a[..][a.Length..] == [];
    var i := a.Length;
    while i > 1
      invariant 0 <= i <= a.Length && Extracting(cmp, a[..], i) && PermutesFirst(start, a[..], a.Length)
    {
      ExtractRoot(a, i, cmp, start);
      i := i - 1;
    }
    assert start[..a.Length] == start && a[..][..a.Length] == a[..];
    SortedOfRest(cmp, a[..], i);
  }

  lemma SortedOfRest<T>(cmp: (T, T) -> int, s: seq<T>, i: nat)
    requires i <= 1 && Extracting(cmp, s, i)
    ensures Sorted(cmp, s)
  {
    assert s == s[..i] + s[i..];
    assert forall k :: i <= k < |s| ==> s[k] == s[i..][k - i] && s[k] in s[i..];
  }

  /** binary_search(): a match exactly when there is one. */
  method BinarySearch<T(!new)>(key: T, a: array<T>, cmp: (T, T) -> int) returns (r: Option<nat>)
    requires TotalPreorder(cmp) && Sorted(cmp, a[..])
    ensures r.Some? ==> r.value < a.Length && cmp(key, a[r.value]) == 0
    ensures r.None? <==> forall k :: 0 <= k < a.Length ==> cmp(key, a[k]) != 0
  {
    var first, last := 0, a.Length;
    while first < last
      invariant 0 <= first <= last <= a.Length
      invariant forall k :: 0 <= k < first ==> cmp(key, a[k]) > 0
      invariant forall k :: last <= k < a.Length ==> cmp(key, a[k]) < 0
    {
      var range := last - first;
      var middle := first + range / 2;
      var c := cmp(key, a[middle]);
      if c < 0 {
        assert forall k :: middle < k < a.Length ==> cmp(a[..][middle], a[..][k]) <= 0;
        last := middle;
      } else if c > 0 {
        assert forall k :: 0 <= k < middle ==> cmp(a[..][k], a[..][middle]) <= 0;
        first := middle + 1;
      } else {
        return Some(middle);
      }
    }
    r := None;
  }
}
