/** The meaning of the natural merge sort of src/lib/kernel/list.c, on sequences.

    Everything here is a function of the sequence of elements of a list and of
    the caller's comparison; Lists.dfy proves that the pointer code computes
    these functions. */
module ListOrder {

  /** struct list_elem together with the structure it is embedded in, of which
      a comparison may look at everything but the two links. */
  class Elem<T> {
    var prev: Elem?<T>
    var next: Elem?<T>
    const value: T

    constructor (v: T)
      ensures value == v && prev == null && next == null
    {
      prev, next, value := null, null, v;
    }
  }

  /** A comparison as the callers of list.c must supply it. */
  ghost predicate StrictWeakOrder<T(!new)>(less: (T, T) -> bool) {
    && (forall x :: !less(x, x))
    && (forall x, y, z :: less(x, y) && less(y, z) ==> less(x, z))
    && (forall x, y, z :: !less(x, y) && !less(y, z) ==> !less(x, z))
  }

  /** Neighbours are in nondecreasing order: what is_sorted() tests. */
  ghost predicate Sorted<T>(less: (T, T) -> bool, s: seq<Elem<T>>) {
    forall i, j :: 0 <= i < |s| && 0 <= j < |s| && j == i + 1 ==> !less(s[j].value, s[i].value)
  }

  /** No later element is less than an earlier one. */
  ghost predicate Ordered<T>(less: (T, T) -> bool, s: seq<Elem<T>>) {
    forall i, j :: 0 <= i < j < |s| ==> !less(s[j].value, s[i].value)
  }

  predicate Same<T>(less: (T, T) -> bool, x: T, y: T) {
    !less(x, y) && !less(y, x)
  }

  /** The elements of s that compare equal to x, in their order. */
  function Class<T>(less: (T, T) -> bool, x: T, s: seq<Elem<T>>): (r: seq<Elem<T>>) {
    if s == [] then [] else (if Same(less, x, s[0].value) then [s[0]] else []) + Class(less, x, s[1..])
  }

  /** Sorting may reorder only elements that do not compare equal. */
  ghost predicate Stable<T(!new)>(less: (T, T) -> bool, s: seq<Elem<T>>, r: seq<Elem<T>>) {
    forall x :: Class(less, x, r) == Class(less, x, s)
  }

  /** Length of the longest sorted prefix of a nonempty sequence. */
  function RunEnd<T>(less: (T, T) -> bool, s: seq<Elem<T>>): (k: nat)
    requires s != []
    ensures 1 <= k <= |s|
  {
    if |s| == 1 || less(s[1].value, s[0].value) then 1 else 1 + RunEnd(less, s[1..])
  }

  /** Number of maximal sorted runs. */
  function Runs<T>(less: (T, T) -> bool, s: seq<Elem<T>>): (n: nat) {
    if s == [] then 0 else 1 + Runs(less, s[RunEnd(less, s)..])
  }

  /** Merge that prefers its first argument on ties. */
  function Merge<T>(less: (T, T) -> bool, xs: seq<Elem<T>>, ys: seq<Elem<T>>): (r: seq<Elem<T>>)
    ensures |r| == |xs| + |ys|
  {
    if xs == [] then ys
    else if ys == [] then xs
    else if !less(ys[0].value, xs[0].value) then [xs[0]] + Merge(less, xs[1..], ys)
    else [ys[0]] + Merge(less, xs, ys[1..])
  }

  /** One pass of list_sort(): merge adjacent pairs of runs. */
  function Pass<T>(less: (T, T) -> bool, s: seq<Elem<T>>): (r: seq<Elem<T>>)
    ensures |r| == |s|
  {
    if s == [] then []
    else
      var a := RunEnd(less, s);
      if a == |s| then s
      else
        var b := a + RunEnd(less, s[a..]);
        Merge(less, s[..a], s[a..b]) + Pass(less, s[b..])
  }

  /** The value of output_run_cnt after that pass. */
  function PassRuns<T>(less: (T, T) -> bool, s: seq<Elem<T>>): (n: nat) {
    if s == [] then 0
    else
      var a := RunEnd(less, s);
      if a == |s| then 1
      else 1 + PassRuns(less, s[a + RunEnd(less, s[a..])..])
  }

  // ---------------------------------------------------------------------
  // Runs
  // ---------------------------------------------------------------------

  lemma {:induction false} RunEndIsMaximal<T>(less: (T, T) -> bool, s: seq<Elem<T>>)
    requires s != []
    ensures Sorted(less, s[..RunEnd(less, s)])
    ensures RunEnd(less, s) < |s| ==> less(s[RunEnd(less, s)].value, s[RunEnd(less, s) - 1].value)
  {
    if !(|s| == 1 || less(s[1].value, s[0].value)) {
      RunEndIsMaximal(less, s[1..]);
      var t, u := s[..RunEnd(less, s)], s[1..][..RunEnd(less, s[1..])];
      assert t == [s[0]] + u;
      assert u[0] == s[1];
    }
  }

  lemma {:induction false} RunEndAtLeast<T>(less: (T, T) -> bool, s: seq<Elem<T>>, n: nat)
    requires 1 <= n <= |s| && Sorted(less, s[..n])
    ensures RunEnd(less, s) >= n
  {
    if n > 1 {
      assert s[..n][1] == s[1] && s[..n][0] == s[0];
      assert s[1..][..n - 1] == s[..n][1..];
      RunEndAtLeast(less, s[1..], n - 1);
    }
  }

  /** The first two runs, which a pass merges. */
  lemma {:induction false} RunsUnfold<T>(less: (T, T) -> bool, s: seq<Elem<T>>, a: nat, b: nat)
    requires s != [] && a == RunEnd(less, s) && a < |s|
    requires b == a + RunEnd(less, s[a..])
    ensures Runs(less, s) == 2 + Runs(less, s[b..])
  {
    assert s[a..][b - a..] == s[b..];
    assert Runs(less, s[a..]) == 1 + Runs(less, s[b..]);
  }

  lemma {:induction false} PassUnfold<T>(less: (T, T) -> bool, s: seq<Elem<T>>, a: nat, b: nat)
    requires s != [] && a == RunEnd(less, s) && a < |s|
    requires b == a + RunEnd(less, s[a..])
    ensures Pass(less, s) == Merge(less, s[..a], s[a..b]) + Pass(less, s[b..])
  {
    var m, t := Merge(less, s[..a], s[a..b]), Pass(less, s[b..]);
    assert Pass(less, s) == m + t;
  }

  lemma {:induction false} PassRunsUnfold<T>(less: (T, T) -> bool, s: seq<Elem<T>>, a: nat, b: nat)
    requires s != [] && a == RunEnd(less, s) && a < |s|
    requires b == a + RunEnd(less, s[a..])
    ensures PassRuns(less, s) == 1 + PassRuns(less, s[b..])
  {
  }

  /** The last run, when it has no partner. */
  lemma {:induction false} RunsUnfoldLast<T>(less: (T, T) -> bool, s: seq<Elem<T>>)
    requires s != [] && RunEnd(less, s) == |s|
    ensures Runs(less, s) == PassRuns(less, s) == 1 && Pass(less, s) == s
  {
    assert s[|s|..] == [];
  }

  lemma {:induction false} PassHalvesCount<T>(less: (T, T) -> bool, s: seq<Elem<T>>)
    ensures PassRuns(less, s) == (Runs(less, s) + 1) / 2
  {
    if s != [] {
      var a := RunEnd(less, s);
      if a < |s| {
        var b := a + RunEnd(less, s[a..]);
        RunsUnfold(less, s, a, b);
        PassRunsUnfold(less, s, a, b);
        PassHalvesCount(less, s[b..]);
      } else {
        RunsUnfoldLast(less, s);
      }
    }
  }

  lemma {:induction false} RunsOfSuffix<T>(less: (T, T) -> bool, s: seq<Elem<T>>, k: nat)
    requires s != [] && k <= RunEnd(less, s)
    ensures Runs(less, s[k..]) <= Runs(less, s)
    decreases |s|
  {
    if k == 0 {
      assert s[0..] == s;
    } else if RunEnd(less, s) > 1 {
      assert s[1..][RunEnd(less, s[1..])..] == s[RunEnd(less, s)..];
      assert s[1..][k - 1..] == s[k..];
      RunsOfSuffix(less, s[1..], k - 1);
    }
  }

  /** Putting a sorted block in front adds at most one run. */
  lemma {:induction false} RunsOfConcat<T>(less: (T, T) -> bool, x: seq<Elem<T>>, y: seq<Elem<T>>)
    requires x != [] && Sorted(less, x)
    ensures Runs(less, x + y) <= 1 + Runs(less, y)
  {
    var s := x + y;
    assert s[..|x|] == x;
    RunEndAtLeast(less, s, |x|);
    var k := RunEnd(less, s);
    var m := k - |x|;
    assert s[k..] == y[m..];
    if y != [] {
      RunEndIsMaximal(less, s);
      assert y[..m] == s[..k][|x|..];
      if m > 0 {
        RunEndAtLeast(less, y, m);
      }
      RunsOfSuffix(less, y, m);
    }
  }

  // ---------------------------------------------------------------------
  // Merge
  // ---------------------------------------------------------------------

  lemma {:induction false} SortedIsOrdered<T(!new)>(less: (T, T) -> bool, s: seq<Elem<T>>)
    requires StrictWeakOrder(less) && Sorted(less, s)
    ensures Ordered(less, s)
  {
    forall i, j | 0 <= i < j < |s| ensures !less(s[j].value, s[i].value) {
      SortedPair(less, s, i, j);
    }
  }

  lemma {:induction false} SortedPair<T(!new)>(less: (T, T) -> bool, s: seq<Elem<T>>, i: nat, j: nat)
    requires StrictWeakOrder(less) && Sorted(less, s) && i < j < |s|
    ensures !less(s[j].value, s[i].value)
    decreases j
  {
    assert !less(s[j].value, s[j - 1].value);
    if i < j - 1 {
      SortedPair(less, s, i, j - 1);
    }
  }

  lemma {:induction false} MergeSorted<T(!new)>(less: (T, T) -> bool, xs: seq<Elem<T>>, ys: seq<Elem<T>>)
    requires StrictWeakOrder(less) && Sorted(less, xs) && Sorted(less, ys)
    ensures Sorted(less, Merge(less, xs, ys))
    decreases |xs| + |ys|
  {
    if xs != [] && ys != [] {
      var takeX := !less(ys[0].value, xs[0].value);
      var xs', ys' := if takeX then xs[1..] else xs, if takeX then ys else ys[1..];
      var h := if takeX then xs[0] else ys[0];
      var m := Merge(less, xs', ys');
      MergeSorted(less, xs', ys');
      MergeFirst(less, xs', ys');
      assert m[0] == (if takeX then ys[0] else xs[0]) || (takeX && |xs| > 1 && m[0] == xs[1])
             || (!takeX && |ys| > 1 && m[0] == ys[1]);
      assert !less(m[0].value, h.value);
      assert Merge(less, xs, ys) == [h] + m;
    }
  }

  lemma {:induction false} MergeFirst<T>(less: (T, T) -> bool, xs: seq<Elem<T>>, ys: seq<Elem<T>>)
    requires |xs| + |ys| > 0
    ensures (xs != [] && Merge(less, xs, ys)[0] == xs[0]) || (ys != [] && Merge(less, xs, ys)[0] == ys[0])
  {
  }

  lemma {:induction false} MergePermutes<T>(less: (T, T) -> bool, xs: seq<Elem<T>>, ys: seq<Elem<T>>)
    ensures multiset(Merge(less, xs, ys)) == multiset(xs) + multiset(ys)
    decreases |xs| + |ys|
  {
    if xs != [] && ys != [] {
      assert xs == [xs[0]] + xs[1..] && ys == [ys[0]] + ys[1..];
      if !less(ys[0].value, xs[0].value) {
        MergePermutes(less, xs[1..], ys);
      } else {
        MergePermutes(less, xs, ys[1..]);
      }
    }
  }

  lemma {:induction false} ClassCons<T>(less: (T, T) -> bool, x: T, h: Elem<T>, s: seq<Elem<T>>)
    ensures Class(less, x, [h] + s) == (if Same(less, x, h.value) then [h] else []) + Class(less, x, s)
  {
    assert ([h] + s)[1..] == s;
  }

  lemma {:induction false} ClassConcat<T>(less: (T, T) -> bool, x: T, s: seq<Elem<T>>, t: seq<Elem<T>>)
    ensures Class(less, x, s + t) == Class(less, x, s) + Class(less, x, t)
  {
    if s == [] {
      assert s + t == t;
    } else {
      ClassConcat(less, x, s[1..], t);
      ClassTakeFirst(less, x, s[0], s[1..], Class(less, x, t), s[1..] + t);
      assert s == [s[0]] + s[1..] && s + t == [s[0]] + (s[1..] + t);
    }
  }

  /** A class that meets no element of s is empty on s. */
  lemma {:induction false} ClassEmpty<T>(less: (T, T) -> bool, x: T, s: seq<Elem<T>>)
    requires forall i :: 0 <= i < |s| ==> !Same(less, x, s[i].value)
    ensures Class(less, x, s) == []
  {
    if s != [] {
      ClassEmpty(less, x, s[1..]);
    }
  }

  /** Everything in a sorted sequence is above what its first element is above. */
  lemma {:induction false} TailAbove<T(!new)>(less: (T, T) -> bool, x: T, xs: seq<Elem<T>>, y: Elem<T>)
    requires StrictWeakOrder(less) && Sorted(less, xs) && xs != []
    requires less(y.value, xs[0].value) && Same(less, x, y.value)
    ensures forall i :: 0 <= i < |xs| ==> !Same(less, x, xs[i].value)
  {
    forall i | 0 <= i < |xs| ensures !Same(less, x, xs[i].value) {
      if i > 0 {
        SortedPair(less, xs, 0, i);
      }
      assert less(y.value, xs[i].value);
    }
  }

  /** Taking the head of the first of two sequences. */
  lemma {:induction false} ClassTakeFirst<T>(less: (T, T) -> bool, x: T, h: Elem<T>, s: seq<Elem<T>>,
                                             cy: seq<Elem<T>>, m: seq<Elem<T>>)
    requires Class(less, x, m) == Class(less, x, s) + cy
    ensures Class(less, x, [h] + m) == Class(less, x, [h] + s) + cy
  {
    ClassCons(less, x, h, m);
    ClassCons(less, x, h, s);
  }

  /** Taking the head of the second is harmless when it is not in x's class, or
      nothing before it is. */
  lemma {:induction false} ClassTakeSecond<T>(less: (T, T) -> bool, x: T, h: Elem<T>, cx: seq<Elem<T>>,
                                              s: seq<Elem<T>>, m: seq<Elem<T>>)
    requires Class(less, x, m) == cx + Class(less, x, s)
    requires Same(less, x, h.value) ==> cx == []
    ensures Class(less, x, [h] + m) == cx + Class(less, x, [h] + s)
  {
    ClassCons(less, x, h, m);
    ClassCons(less, x, h, s);
  }

  lemma {:induction false} MergeStable<T(!new)>(less: (T, T) -> bool, x: T, xs: seq<Elem<T>>, ys: seq<Elem<T>>)
    requires StrictWeakOrder(less) && Sorted(less, xs)
    ensures Class(less, x, Merge(less, xs, ys)) == Class(less, x, xs) + Class(less, x, ys)
    decreases |xs| + |ys|
  {
    if xs == [] || ys == [] {
    } else if !less(ys[0].value, xs[0].value) {
      MergeStable(less, x, xs[1..], ys);
      ClassTakeFirst(less, x, xs[0], xs[1..], Class(less, x, ys), Merge(less, xs[1..], ys));
      assert [xs[0]] + xs[1..] == xs;
    } else {
      MergeStable(less, x, xs, ys[1..]);
      if Same(less, x, ys[0].value) {
        TailAbove(less, x, xs, ys[0]);
        ClassEmpty(less, x, xs);
      }
      ClassTakeSecond(less, x, ys[0], Class(less, x, xs), ys[1..], Merge(less, xs, ys[1..]));
      assert [ys[0]] + ys[1..] == ys;
    }
  }

  // ---------------------------------------------------------------------
  // A pass, and the whole sort
  // ---------------------------------------------------------------------

  lemma {:induction false} PassPermutes<T>(less: (T, T) -> bool, s: seq<Elem<T>>)
    ensures multiset(Pass(less, s)) == multiset(s)
  {
    if s != [] {
      var a := RunEnd(less, s);
      if a < |s| {
        var b := a + RunEnd(less, s[a..]);
        assert s == s[..a] + s[a..b] + s[b..];
        PassUnfold(less, s, a, b);
        PassPermutes(less, s[b..]);
        MergePermutes(less, s[..a], s[a..b]);
      } else {
        RunsUnfoldLast(less, s);
      }
    }
  }

  lemma {:induction false} PassStable<T(!new)>(less: (T, T) -> bool, x: T, s: seq<Elem<T>>)
    requires StrictWeakOrder(less)
    ensures Class(less, x, Pass(less, s)) == Class(less, x, s)
  {
    if s != [] {
      var a := RunEnd(less, s);
      if a < |s| {
        var b := a + RunEnd(less, s[a..]);
        PassStable(less, x, s[b..]);
        TwoRuns(less, s, a, b);
        MergeStable(less, x, s[..a], s[a..b]);
        PassUnfold(less, s, a, b);
        ClassOfThree(less, x, s, a, b, Merge(less, s[..a], s[a..b]), Pass(less, s[b..]));
      } else {
        RunsUnfoldLast(less, s);
      }
    }
  }

  lemma {:induction false} ClassOfThree<T>(less: (T, T) -> bool, x: T, s: seq<Elem<T>>, a: nat, b: nat,
                                           m: seq<Elem<T>>, p: seq<Elem<T>>)
    requires a <= b <= |s|
    requires Class(less, x, m) == Class(less, x, s[..a]) + Class(less, x, s[a..b])
    requires Class(less, x, p) == Class(less, x, s[b..])
    ensures Class(less, x, m + p) == Class(less, x, s)
  {
    ClassConcat(less, x, m, p);
    ClassConcat(less, x, s[..b], s[b..]);
    ClassConcat(less, x, s[..a], s[a..b]);
    assert s[..a] + s[a..b] == s[..b] && s[..b] + s[b..] == s;
  }

  /** Each pass leaves at most as many runs as it reports. */
  lemma {:induction false} PassRunsBound<T(!new)>(less: (T, T) -> bool, s: seq<Elem<T>>)
    requires StrictWeakOrder(less)
    ensures Runs(less, Pass(less, s)) <= PassRuns(less, s)
  {
    if s != [] {
      var a := RunEnd(less, s);
      if a < |s| {
        var b := a + RunEnd(less, s[a..]);
        TwoRuns(less, s, a, b);
        PassUnfold(less, s, a, b);
        PassRunsUnfold(less, s, a, b);
        PassRunsBound(less, s[b..]);
        MergeSorted(less, s[..a], s[a..b]);
        RunsOfConcat(less, Merge(less, s[..a], s[a..b]), Pass(less, s[b..]));
      } else {
        RunsUnfoldLast(less, s);
      }
    }
  }

  lemma {:induction false} TwoRuns<T>(less: (T, T) -> bool, s: seq<Elem<T>>, a: nat, b: nat)
    requires s != [] && a == RunEnd(less, s) && a < |s|
    requires b == a + RunEnd(less, s[a..])
    ensures Sorted(less, s[..a]) && Sorted(less, s[a..b])
  {
    RunEndIsMaximal(less, s);
    RunEndIsMaximal(less, s[a..]);
    assert s[a..][..b - a] == s[a..b];
  }

  /** The pass that reports a single output run leaves a sorted sequence. */
  lemma {:induction false} LastPassSorts<T(!new)>(less: (T, T) -> bool, s: seq<Elem<T>>)
    requires StrictWeakOrder(less) && PassRuns(less, s) <= 1
    ensures Sorted(less, Pass(less, s))
  {
    if s != [] {
      var a := RunEnd(less, s);
      if a == |s| {
        RunEndIsMaximal(less, s);
        assert s[..a] == s;
      } else {
        var b := a + RunEnd(less, s[a..]);
        TwoRuns(less, s, a, b);
        assert s[b..] == [];
        MergeSorted(less, s[..a], s[a..b]);
        assert Pass(less, s) == Merge(less, s[..a], s[a..b]);
      }
    }
  }

  /** What list_sort() computes: passes until one run is left.  It ends because
      each pass that reports more than one output run lowers the number of runs. */
  ghost function SortBy<T(!new)>(less: (T, T) -> bool, s: seq<Elem<T>>): (r: seq<Elem<T>>)
    requires StrictWeakOrder(less)
    decreases Runs(less, s)
  {
    if PassRuns(less, s) <= 1 then Pass(less, s)
    else
      PassRunsBound(less, s);
      PassHalvesCount(less, s);
      SortBy(less, Pass(less, s))
  }

  /** list_sort() is a stable sort for every strict weak order. */
  lemma {:induction false} SortByCorrect<T(!new)>(less: (T, T) -> bool, s: seq<Elem<T>>)
    requires StrictWeakOrder(less)
    ensures Ordered(less, SortBy(less, s))
    ensures multiset(SortBy(less, s)) == multiset(s)
    ensures Stable(less, s, SortBy(less, s))
    decreases Runs(less, s)
  {
    PassPermutes(less, s);
    PassRunsBound(less, s);
    PassHalvesCount(less, s);
    forall x {
      PassStable(less, x, s);
    }
    if PassRuns(less, s) <= 1 {
      LastPassSorts(less, s);
      SortedIsOrdered(less, Pass(less, s));
    } else {
      SortByCorrect(less, Pass(less, s));
    }
  }

  // ---------------------------------------------------------------------
  // list_unique()
  // ---------------------------------------------------------------------

  /** What list_unique() keeps of x followed by s: the first of each set of
      adjacent equal elements. */
  function Kept<T>(less: (T, T) -> bool, x: Elem<T>, s: seq<Elem<T>>): (r: seq<Elem<T>>)
    ensures r != [] && r[0] == x
    decreases |s|
  {
    if s == [] then [x]
    else if Same(less, x.value, s[0].value) then Kept(less, x, s[1..])
    else [x] + Kept(less, s[0], s[1..])
  }

  /** What it moves to the list of duplicates. */
  function Dropped<T>(less: (T, T) -> bool, x: Elem<T>, s: seq<Elem<T>>): (r: seq<Elem<T>>)
    decreases |s|
  {
    if s == [] then []
    else if Same(less, x.value, s[0].value) then [s[0]] + Dropped(less, x, s[1..])
    else Dropped(less, s[0], s[1..])
  }

  lemma MultisetMove<T>(x: T, z: T, u: seq<T>, k: seq<T>, d: seq<T>)
    requires multiset(k) + multiset(d) == multiset([x] + u)
    ensures multiset(k) + multiset([z] + d) == multiset([x] + ([z] + u)) == multiset([z] + ([x] + u))
  {
  }

  /** Nothing is lost or made up. */
  lemma {:induction false} UniqueConserves<T>(less: (T, T) -> bool, x: Elem<T>, s: seq<Elem<T>>)
    ensures multiset(Kept(less, x, s)) + multiset(Dropped(less, x, s)) == multiset([x] + s)
    decreases |s|
  {
    if s != [] {
      var z, u := s[0], s[1..];
      assert s == [z] + u;
      if Same(less, x.value, z.value) {
        UniqueConserves(less, x, u);
        MultisetMove(x, z, u, Kept(less, x, u), Dropped(less, x, u));
      } else {
        UniqueConserves(less, z, u);
        MultisetMove(z, x, u, Dropped(less, z, u), Kept(less, z, u));
      }
    }
  }

  ghost predicate Represented<T>(less: (T, T) -> bool, e: Elem<T>, r: seq<Elem<T>>) {
    exists i :: 0 <= i < |r| && Same(less, r[i].value, e.value)
  }

  /** What is kept still has an element equal to each one there was. */
  lemma {:induction false} UniqueRepresents<T(!new)>(less: (T, T) -> bool, x: Elem<T>, s: seq<Elem<T>>, e: Elem<T>)
    requires StrictWeakOrder(less) && e in [x] + s
    ensures Represented(less, e, Kept(less, x, s))
    decreases |s|
  {
    var r := Kept(less, x, s);
    if e == x || (s != [] && e == s[0] && Same(less, x.value, s[0].value)) {
      assert Same(less, r[0].value, e.value);
    } else if Same(less, x.value, s[0].value) {
      assert e in s[1..];
      UniqueRepresents(less, x, s[1..], e);
    } else {
      var q := Kept(less, s[0], s[1..]);
      assert s == [s[0]] + s[1..];
      UniqueRepresents(less, s[0], s[1..], e);
      var i :| 0 <= i < |q| && Same(less, q[i].value, e.value);
      assert r[i + 1] == q[i];
    }
  }

  ghost predicate Increasing<T>(less: (T, T) -> bool, r: seq<Elem<T>>) {
    forall i, j :: 0 <= i < j < |r| ==> less(r[i].value, r[j].value)
  }

  /** On a sorted list, what is kept is strictly increasing. */
  lemma {:induction false} UniqueOfSorted<T(!new)>(less: (T, T) -> bool, x: Elem<T>, s: seq<Elem<T>>)
    requires StrictWeakOrder(less) && Ordered(less, [x] + s)
    ensures Increasing(less, Kept(less, x, s))
    decreases |s|
  {
    if s == [] {
    } else if Same(less, x.value, s[0].value) {
      OrderedTail(less, x, s);
      UniqueOfSorted(less, x, s[1..]);
    } else {
      OrderedTail(less, x, s);
      UniqueOfSorted(less, s[0], s[1..]);
      assert less(x.value, s[0].value) by { assert ([x] + s)[1] == s[0] && ([x] + s)[0] == x; }
      IncreasingCons(less, x, Kept(less, s[0], s[1..]));
    }
  }

  lemma {:induction false} IncreasingCons<T(!new)>(less: (T, T) -> bool, x: Elem<T>, q: seq<Elem<T>>)
    requires StrictWeakOrder(less) && Increasing(less, q) && q != [] && less(x.value, q[0].value)
    ensures Increasing(less, [x] + q)
  {
    assert forall j :: 0 <= j < |q| ==> less(x.value, q[j].value);
  }

  lemma {:induction false} OrderedTail<T>(less: (T, T) -> bool, x: Elem<T>, s: seq<Elem<T>>)
    requires Ordered(less, [x] + s) && s != []
    ensures Ordered(less, [x] + s[1..]) && Ordered(less, [s[0]] + s[1..])
  {
    var t := [x] + s;
    assert [s[0]] + s[1..] == t[1..];
    forall i, j | 0 <= i < j < |t| - 1 ensures !less(([x] + s[1..])[j].value, ([x] + s[1..])[i].value) {
      assert ([x] + s[1..])[j] == t[j + 1] && ([x] + s[1..])[i] == t[if i == 0 then 0 else i + 1];
    }
  }
}
