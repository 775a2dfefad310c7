/** src/lib/kernel/list.c on the heap: doubly linked lists with two header
    elements, whose prev and next links every operation rewires in place. */
module Lists {
  import opened FiniteSets
  import opened ListOrder

  /** struct list: its two header elements. */
  datatype List<T> = List(head: Elem<T>, tail: Elem<T>)

  ghost predicate Permutation<T>(s: seq<T>, t: seq<T>) {
    multiset(s) == multiset(t)
  }

  lemma SameElements<T>(s: seq<T>, t: seq<T>)
    requires Permutation(s, t)
    ensures Elements(s) == Elements(t)
  {
    forall x ensures x in t <==> x in s {
      assert x in t <==> x in multiset(t);
      assert x in s <==> x in multiset(s);
    }
  }

  /** ns is a whole list, headers included: the links agree both ways and the
      two outer links are null. */
  ghost predicate Chain<T>(ns: seq<Elem<T>>)
    reads ns
  {
    && |ns| >= 2
    && Distinct(ns)
    && ns[0].prev == null
    && ns[|ns| - 1].next == null
    && (forall i {:trigger ns[i].next} :: 0 <= i < |ns| - 1 ==> ns[i].next == ns[i + 1])
    && (forall i {:trigger ns[i].prev} :: 0 < i < |ns| ==> ns[i].prev == ns[i - 1])
  }

  /** es are the elements of list l, in order. */
  ghost predicate IsList<T>(l: List<T>, es: seq<Elem<T>>)
    reads l.head, l.tail, es
  {
    Chain([l.head] + es + [l.tail])
  }

  predicate IsInterior<T>(e: Elem<T>)
    reads e
  {
    e.prev != null && e.next != null
  }

  predicate IsTail<T>(e: Elem<T>)
    reads e
  {
    e.prev != null && e.next == null
  }

  /** list_init() */
  method ListInit<T>(l: List<T>)
    requires l.head != l.tail
    modifies l.head, l.tail
    ensures IsList(l, [])
  {
    l.head.prev := null;
    l.head.next := l.tail;
    l.tail.prev := l.head;
    l.tail.next := null;
  }

  /** keep is another list (or nothing), which an operation on ns leaves alone. */
  ghost predicate Apart<T>(keep: seq<Elem<T>>, ns: seq<Elem<T>>)
    reads keep
  {
    keep == [] || (Chain(keep) && forall x :: x in keep ==> x !in ns)
  }

  /** list_insert() */
  method ListInsert<T>(before: Elem<T>, elem: Elem<T>, ghost ns: seq<Elem<T>>, ghost i: nat, ghost keep: seq<Elem<T>>)
    requires Chain(ns) && 0 < i < |ns| && ns[i] == before && elem !in ns
    requires Apart(keep, ns) && elem !in keep
    modifies elem, before`prev, before.prev`next
    ensures Chain(ns[..i] + [elem] + ns[i..])
    ensures Apart(keep, ns)
  {
    assert before.prev == ns[i - 1] && ns[i - 1] in ns;
    assert IsInterior(before) || IsTail(before) by { assert i < |ns| - 1 ==> ns[i].next == ns[i + 1]; }
    elem.prev := before.prev;
    elem.next := before;
    before.prev.next := elem;
    before.prev := elem;
  }

  /** list_remove() */
  method ListRemove<T>(elem: Elem<T>, ghost ns: seq<Elem<T>>, ghost i: nat, ghost keep: seq<Elem<T>>)
    returns (r: Elem<T>)
    requires Chain(ns) && 0 < i < |ns| - 1 && ns[i] == elem && Apart(keep, ns)
    modifies elem.prev`next, elem.next`prev
    ensures Chain(ns[..i] + ns[i + 1..]) && Apart(keep, ns)
    ensures r == ns[i + 1]
  {
    assert elem.prev == ns[i - 1] && elem.next == ns[i + 1] && ns[i - 1] in ns && ns[i + 1] in ns;
    elem.prev.next := elem.next;
    elem.next.prev := elem.prev;
    r := elem.next;
  }

  /** xs are linked to each other; the outer links of xs may lead anywhere. */
  ghost predicate Segment<T>(xs: seq<Elem<T>>)
    reads xs
  {
    && |xs| >= 1
    && Distinct(xs)
    && (forall i {:trigger xs[i].next} :: 0 <= i < |xs| - 1 ==> xs[i].next == xs[i + 1])
    && (forall i {:trigger xs[i].prev} :: 0 < i < |xs| ==> xs[i].prev == xs[i - 1])
  }

  /** The first half of list_splice(): take first..last (inclusive) out. */
  method Detach<T>(first: Elem<T>, last: Elem<T>, ghost ns: seq<Elem<T>>, ghost p: nat, ghost q: nat)
    requires Chain(ns) && 0 < p < q < |ns| && ns[p] == first && ns[q - 1] == last
    modifies first.prev`next, last.next`prev
    ensures Chain(ns[..p] + ns[q..]) && Segment(ns[p..q])
    ensures forall x :: x in ns[p..q] ==> x !in ns[..p] + ns[q..]
  {
    assert first.prev == ns[p - 1] && last.next == ns[q];
    first.prev.next := last.next;
    last.next.prev := first.prev;
  }

  lemma DistinctInsert<T>(xs: seq<T>, ds: seq<T>, i: nat)
    requires Distinct(xs) && Distinct(ds) && i <= |ds|
    requires forall x :: x in xs ==> x !in ds
    ensures Distinct(ds[..i] + xs + ds[i..])
  {
    var r := ds[..i] + xs + ds[i..];
    assert forall k :: 0 <= k < |xs| ==> xs[k] in xs;
    assert forall k :: 0 <= k < |ds| ==> ds[k] in ds;
    forall a, b | 0 <= a < b < |r| ensures r[a] != r[b] {
      assert r[a] == if a < i then ds[a] else if a < i + |xs| then xs[a - i] else ds[a - |xs|];
      assert r[b] == if b < i then ds[b] else if b < i + |xs| then xs[b - i] else ds[b - |xs|];
    }
  }

  /** The second half: link the segment xs in before the element at i. */
  method Attach<T>(before: Elem<T>, first: Elem<T>, last: Elem<T>, ghost xs: seq<Elem<T>>, ghost ds: seq<Elem<T>>,
                   ghost i: nat,
                   ghost keep: seq<Elem<T>>)
    requires Segment(xs) && xs[0] == first && xs[|xs| - 1] == last
    requires Chain(ds) && 0 < i < |ds| && ds[i] == before
    requires forall x :: x in xs ==> x !in ds
    requires keep == [] || (Chain(keep) && forall x :: x in keep ==> x !in xs && x !in ds)
    modifies first`prev, last`next, before`prev, before.prev`next
    ensures Chain(ds[..i] + xs + ds[i..])
    ensures keep == [] || Chain(keep)
  {
    assert before.prev == ds[i - 1];
    assert IsInterior(before) || IsTail(before) by { assert i < |ds| - 1 ==> ds[i].next == ds[i + 1]; }
    assert first in xs && last in xs && ds[i - 1] in ds;
    DistinctInsert(xs, ds, i);
    first.prev := before.prev;
    last.next := before;
    before.prev.next := first;
    before.prev := last;
  }

  /** list_splice(): takes first..last (exclusive) out of the list ns, then puts
      them in before the element at i of ds, which is what is left of ns, or
      another list. */
  method ListSplice<T>(before: Elem<T>, first: Elem<T>, last: Elem<T>,
                       ghost ns: seq<Elem<T>>, ghost p: nat, ghost q: nat, ghost ds: seq<Elem<T>>, ghost i: nat)
    requires Chain(ns) && 0 < p <= q < |ns| && ns[p] == first && ns[q] == last
    requires 0 < i < |ds| && ds[i] == before
    requires ds == ns[..p] + ns[q..] || (Chain(ds) && forall x :: x in ns ==> x !in ds)
    modifies first, first.prev, last, last.prev, before, before.prev
    ensures Chain(ds[..i] + ns[p..q] + ds[i..])
    ensures ds != ns[..p] + ns[q..] ==> Chain(ns[..p] + ns[q..])
  {
    ghost var rest, xs := ns[..p] + ns[q..], ns[p..q];
    if first == last {
      assert p == q && ns == rest && ds == ds[..i] + xs + ds[i..];
      return;
    }
    var end := last.prev;
    assert end == ns[q - 1];
    assert first.prev == ns[p - 1] && end.next == ns[q];
    assert ns[p - 1] in ns && ns[q] in ns && forall x :: x in xs || x in rest ==> x in ns;
    Detach(first, end, ns, p, q);
    assert before.prev == ds[i - 1];
    Attach(before, first, end, xs, ds, i, if ds == rest then [] else rest);
  }

  // ---------------------------------------------------------------------
  // Sorting
  // ---------------------------------------------------------------------

  /** find_end_of_run() on the range s of the list pre + s + post. */
  method FindEndOfRun<T>(a: Elem<T>, b: Elem<T>, less: (T, T) -> bool,
                         ghost pre: seq<Elem<T>>, ghost s: seq<Elem<T>>, ghost post: seq<Elem<T>>)
    returns (r: Elem<T>)
    requires Chain(pre + s + post) && pre != [] && s != [] && post != [] && a == s[0] && b == post[0]
    ensures r == (s + post)[RunEnd(less, s)] && (r == b <==> RunEnd(less, s) == |s|)
  {
    ghost var ns, i := pre + s + post, |pre|;
    assert s[0..] == s && ns[i] == a && a.next == ns[i + 1] && ns[i + |s|] == b;
    r := a.next;
    ghost var k := 1;
    while r != b && !less(r.value, r.prev.value)
      invariant 0 < k <= |s| && r == ns[i + k] && r.prev == ns[i + k - 1]
      invariant RunEnd(less, s) == k - 1 + RunEnd(less, s[k - 1..])
      decreases |s| - k
    {
      assert k < |s|;
      assert s[k] == ns[i + k] && s[k - 1] == ns[i + k - 1] && s[k - 1..][1..] == s[k..];
      assert r.next == ns[i + k + 1];
      r := r.next;
      k := k + 1;
    }
    assert k < |s| ==> s[k] == ns[i + k] && s[k - 1] == ns[i + k - 1];
  }

  /** ms is ns with the elements at i..k rearranged. */
  ghost predicate Rearranged<T>(ns: seq<T>, ms: seq<T>, i: nat, k: nat) {
    && i <= k <= |ns| == |ms|
    && ms[..i] == ns[..i]
    && ms[k..] == ns[k..]
    && Permutation(ns, ms)
  }

  /** What inplace_merge() will have made of i..k when i..p is merged already
      and p..q and q..k remain. */
  ghost function Merged<T>(less: (T, T) -> bool, ms: seq<Elem<T>>, i: nat, p: nat, q: nat, k: nat): (r: seq<Elem<T>>)
    requires i <= p <= q <= k <= |ms|
  {
    ms[i..p] + Merge(less, ms[p..q], ms[q..k])
  }

  lemma MergedAdvance<T>(less: (T, T) -> bool, ms: seq<Elem<T>>, i: nat, p: nat, q: nat, k: nat)
    requires i <= p < q < k <= |ms| && !less(ms[q].value, ms[p].value)
    ensures Merged(less, ms, i, p + 1, q, k) == Merged(less, ms, i, p, q, k)
  {
    assert ms[p..q][1..] == ms[p + 1..q];
    assert ms[i..p] + [ms[p]] == ms[i..p + 1];
  }

  lemma MergedStart<T>(less: (T, T) -> bool, ms: seq<Elem<T>>, i: nat, j: nat, k: nat)
    requires i <= j <= k <= |ms|
    ensures Merged(less, ms, i, i, j, k) == Merge(less, ms[i..j], ms[j..k])
  {
    assert ms[i..i] == [];
  }

  lemma MergedDone<T>(less: (T, T) -> bool, ms: seq<Elem<T>>, i: nat, p: nat, q: nat, k: nat)
    requires i <= p <= q <= k <= |ms| && (p == q || q == k)
    ensures Merged(less, ms, i, p, q, k) == ms[i..k]
  {
    assert Merge(less, ms[p..q], ms[q..k]) == ms[p..k];
    assert ms[i..p] + ms[p..k] == ms[i..k];
  }

  /** The list ms after the element at q has been spliced in before p. */
  ghost function Spliced<T>(ms: seq<T>, p: nat, q: nat): (r: seq<T>)
    requires p <= q < |ms|
    ensures |r| == |ms|
  {
    ms[..p] + [ms[q]] + ms[p..q] + ms[q + 1..]
  }

  /** Splicing is taking the element at q out and putting it back in at p. */
  lemma SplicedIsInsert<T>(ms: seq<T>, p: nat, q: nat, rest: seq<T>)
    requires p <= q < |ms| && rest == ms[..q] + ms[q + 1..]
    ensures rest[..p] + ms[q..q + 1] + rest[p..] == Spliced(ms, p, q)
  {
    assert rest[..p] == ms[..p];
    assert rest[p..] == ms[p..q] + ms[q + 1..];
  }

  lemma SplicedPermutes<T>(ms: seq<T>, p: nat, q: nat)
    requires p <= q < |ms|
    ensures Permutation(ms, Spliced(ms, p, q))
  {
    assert ms == ms[..p] + ms[p..q] + [ms[q]] + ms[q + 1..];
  }

  lemma SplicedRearranges<T>(ms: seq<T>, i: nat, p: nat, q: nat, k: nat)
    requires i <= p <= q < k <= |ms|
    ensures Rearranged(ms, Spliced(ms, p, q), i, k)
    ensures p < q ==> Spliced(ms, p, q)[p + 1] == ms[p]
    ensures forall j :: q < j < |ms| ==> Spliced(ms, p, q)[j] == ms[j]
  {
    SplicedPermutes(ms, p, q);
  }

  lemma SplicedSlices<T>(ms: seq<T>, i: nat, p: nat, q: nat, k: nat)
    requires i <= p < q < k <= |ms|
    ensures var ms' := Spliced(ms, p, q);
      && ms'[i..p + 1] == ms[i..p] + [ms[q]] && ms'[p + 1..q + 1] == ms[p..q]
      && ms'[q + 1..k] == ms[q + 1..k] == ms[q..k][1..]
  {
  }

  lemma MergedSplice<T>(less: (T, T) -> bool, ms: seq<Elem<T>>, i: nat, p: nat, q: nat, k: nat)
    requires i <= p < q < k <= |ms| && less(ms[q].value, ms[p].value)
    ensures Merged(less, Spliced(ms, p, q), i, p + 1, q + 1, k) == Merged(less, ms, i, p, q, k)
  {
    SplicedSlices(ms, i, p, q, k);
  }

  /** The second branch of inplace_merge()'s loop: moves b before a and returns
      the element that followed b. */
  method SpliceBefore<T>(a: Elem<T>, b: Elem<T>, ghost ms: seq<Elem<T>>, ghost p: nat, ghost q: nat)
    returns (next: Elem<T>)
    requires Chain(ms) && 0 < p < q < |ms| - 1 && ms[p] == a && ms[q] == b
    modifies a, a.prev, b, b.prev, b.next
    ensures Chain(Spliced(ms, p, q)) && next == ms[q + 1]
  {
    assert b.next == ms[q + 1] && b.next.prev == ms[q];
    next := b.next;
    ghost var rest := ms[..q] + ms[q + 1..];
    SplicedIsInsert(ms, p, q, rest);
    assert rest[p] == ms[p];
    ListSplice(a, next.prev, next, ms, q, q + 1, rest, p);
  }

  /** One iteration of inplace_merge()'s loop. */
  method MergeStep<T>(a: Elem<T>, b: Elem<T>, less: (T, T) -> bool, ghost ms: seq<Elem<T>>, ghost i: nat,
                      ghost p: nat, ghost q: nat, ghost k: nat)
    returns (a': Elem<T>, b': Elem<T>, ghost ms': seq<Elem<T>>, ghost q': nat)
    requires Chain(ms) && 0 < i <= p < q < k < |ms| && ms[p] == a && ms[q] == b
    modifies Elements(ms)
    ensures Chain(ms') && Rearranged(ms, ms', i, k)
    ensures p < q' <= k && ms'[p + 1] == a' && ms'[q'] == b' && ms'[k] == ms[k]
    ensures Merged(less, ms', i, p + 1, q', k) == Merged(less, ms, i, p, q, k)
  {
    if !less(b.value, a.value) {
      MergedAdvance(less, ms, i, p, q, k);
      a', b', ms', q' := a.next, b, ms, q;
      assert a' == ms[p + 1];
    } else {
      MergedSplice(less, ms, i, p, q, k);
      SplicedRearranges(ms, i, p, q, k);
      assert a.prev == ms[p - 1] && b.prev == ms[q - 1] && b.next == ms[q + 1];
      assert a in ms && a.prev in ms && b in ms && b.prev in ms && b.next in ms;
      b' := SpliceBefore(a, b, ms, p, q);
      a', ms', q' := a, Spliced(ms, p, q), q + 1;
    }
  }

  lemma Pieces<T>(pre: seq<T>, xs: seq<T>, ys: seq<T>, post: seq<T>, ns: seq<T>, i: nat, j: nat, k: nat)
    requires ns == pre + xs + ys + post && i == |pre| && j == i + |xs| && k == j + |ys|
    ensures ns[..i] == pre && ns[i..j] == xs && ns[j..k] == ys && ns[k..] == post
  {
  }

  lemma Rejoin<T>(ms: seq<T>, i: nat, k: nat, pre: seq<T>, m: seq<T>, post: seq<T>)
    requires i <= k <= |ms| && ms[..i] == pre && ms[i..k] == m && ms[k..] == post
    ensures ms == pre + m + post
  {
  }

  lemma MergedOutcome<T>(less: (T, T) -> bool, ns: seq<Elem<T>>, ms: seq<Elem<T>>, i: nat, j: nat, p: nat, q: nat,
                         k: nat)
    requires i <= j <= k && Rearranged(ns, ms, i, k) && i <= p <= q <= k && (p == q || q == k)
    requires Merged(less, ms, i, p, q, k) == Merged(less, ns, i, i, j, k)
    ensures ms == ns[..i] + Merge(less, ns[i..j], ns[j..k]) + ns[k..]
  {
    MergedStart(less, ns, i, j, k);
    MergedDone(less, ms, i, p, q, k);
    Rejoin(ms, i, k, ns[..i], Merge(less, ns[i..j], ns[j..k]), ns[k..]);
  }

  /** inplace_merge() of the elements of ns at i..j with those at j..k. */
  method InplaceMerge<T>(a0: Elem<T>, a1b0: Elem<T>, b1: Elem<T>, less: (T, T) -> bool,
                         ghost ns: seq<Elem<T>>, ghost i: nat, ghost j: nat, ghost k: nat)
    returns (ghost ms: seq<Elem<T>>)
    requires Chain(ns) && 0 < i <= j <= k < |ns| && ns[i] == a0 && ns[j] == a1b0 && ns[k] == b1
    requires Sorted(less, ns[i..j]) && Sorted(less, ns[j..k])
    modifies Elements(ns)
    ensures Chain(ms) && Permutation(ns, ms)
    ensures ms == ns[..i] + Merge(less, ns[i..j], ns[j..k]) + ns[k..]
  {
    ms := ns;
    ghost var p, q := i, j;
    var a, b := a0, a1b0;
    while a != b && b != b1
      invariant Chain(ms) && Rearranged(ns, ms, i, k)
      invariant i <= p <= q <= k && Merged(less, ms, i, p, q, k) == Merged(less, ns, i, i, j, k)
      invariant a == ms[p] && b == ms[q] && b1 == ms[k]
      decreases k - p
    {
      SameElements(ns, ms);
      a, b, ms, q := MergeStep(a, b, less, ms, i, p, q, k);
      p := p + 1;
    }
    MergedOutcome(less, ns, ms, i, j, p, q, k);
  }

  lemma Reassociate<T>(h: seq<T>, done: seq<T>, m: seq<T>, z: seq<T>, post: seq<T>)
    ensures (h + done) + m + (z + post) == h + (done + m) + z + post
  {
  }

  /** Merges two adjacent runs x and y of the list [head] + done + x + y + z + [tail]. */
  method MergeRuns<T>(l: List<T>, a0: Elem<T>, a1b0: Elem<T>, b1: Elem<T>, less: (T, T) -> bool,
                      ghost done: seq<Elem<T>>, ghost rest: seq<Elem<T>>,
                      ghost x: seq<Elem<T>>, ghost y: seq<Elem<T>>, ghost z: seq<Elem<T>>)
    requires Chain([l.head] + done + rest + [l.tail]) && rest == x + y + z
    requires x != [] && y != [] && a0 == x[0] && a1b0 == y[0] && b1 == (z + [l.tail])[0]
    requires Sorted(less, x) && Sorted(less, y)
    modifies Elements([l.head] + done + rest + [l.tail])
    ensures Chain([l.head] + (done + Merge(less, x, y)) + z + [l.tail])
    ensures Permutation([l.head] + done + rest + [l.tail], [l.head] + (done + Merge(less, x, y)) + z + [l.tail])
  {
    ghost var pre, post := [l.head] + done, z + [l.tail];
    ghost var ns, i, j, k := pre + x + y + post, |pre|, |pre| + |x|, |pre| + |x| + |y|;
    assert [l.head] + done + rest + [l.tail] == ns;
    Pieces(pre, x, y, post, ns, i, j, k);
    Reassociate([l.head], done, Merge(less, x, y), z, [l.tail]);
    ghost var ms := InplaceMerge(a0, a1b0, b1, less, ns, i, j, k);
    assert ms == pre + Merge(less, x, y) + post;
  }

  lemma Regroup<T>(a: seq<T>, m: seq<T>, r: seq<T>, mr: seq<T>)
    requires mr == m + r
    ensures (a + m) + r == a + mr
  {
  }

  lemma Cut<T>(s: seq<T>, a: nat, b: nat)
    requires a <= b <= |s|
    ensures s[..a] + s[a..b] + s[b..] == s
    ensures a < b ==> s[a..b][0] == s[a]
    ensures a > 0 ==> s[..a][0] == s[0]
  {
  }

  lemma CutIn<T>(pre: seq<T>, s: seq<T>, a: nat, post: seq<T>)
    requires a <= |s|
    ensures pre + s + post == (pre + s[..a]) + s[a..] + post
    ensures post != [] ==> (s + post)[a] == (s[a..] + post)[0]
  {
    assert s == s[..a] + s[a..];
  }

  lemma SecondCut<T>(s: seq<T>, a: nat, b: nat, post: seq<T>)
    requires a <= b <= |s| && post != []
    ensures (s[a..] + post)[b - a] == (s[b..] + post)[0]
  {
  }

  lemma MergeRunsSpec<T>(less: (T, T) -> bool, done: seq<Elem<T>>, rest: seq<Elem<T>>, a: nat, b: nat)
    requires rest != [] && a == RunEnd(less, rest) && a < |rest| && b == a + RunEnd(less, rest[a..])
    ensures (done + Merge(less, rest[..a], rest[a..b])) + Pass(less, rest[b..]) == done + Pass(less, rest)
    ensures 1 + PassRuns(less, rest[b..]) == PassRuns(less, rest)
    ensures Sorted(less, rest[..a]) && Sorted(less, rest[a..b])
    ensures rest[..a] + rest[a..b] + rest[b..] == rest && a < b && |rest[b..]| < |rest|
    ensures |rest[..a]| > 0 && rest[..a][0] == rest[0] && |rest[a..b]| > 0 && rest[a..b][0] == rest[a]
  {
    PassUnfold(less, rest, a, b);
    PassRunsUnfold(less, rest, a, b);
    TwoRuns(less, rest, a, b);
    Cut(rest, a, b);
    Regroup(done, Merge(less, rest[..a], rest[a..b]), Pass(less, rest[b..]), Pass(less, rest));
  }

  /** Finds the end of the second run of rest and merges the first two. */
  method MergeFirstTwo<T>(l: List<T>, a0: Elem<T>, a1b0: Elem<T>, less: (T, T) -> bool, ghost done: seq<Elem<T>>,
                          ghost rest: seq<Elem<T>>)
    returns (b1: Elem<T>, ghost done': seq<Elem<T>>, ghost rest': seq<Elem<T>>)
    requires Chain([l.head] + done + rest + [l.tail]) && rest != []
    requires RunEnd(less, rest) < |rest| && a0 == rest[0] && a1b0 == rest[RunEnd(less, rest)]
    modifies Elements([l.head] + done + rest + [l.tail])
    ensures Chain([l.head] + done' + rest' + [l.tail])
    ensures Permutation([l.head] + done + rest + [l.tail], [l.head] + done' + rest' + [l.tail])
    ensures done' + Pass(less, rest') == done + Pass(less, rest)
    ensures 1 + PassRuns(less, rest') == PassRuns(less, rest)
    ensures |rest'| < |rest| && b1 == (rest' + [l.tail])[0]
  {
    ghost var a := RunEnd(less, rest);
    ghost var b := a + RunEnd(less, rest[a..]);
    b1 := FindSecondEnd(l, a1b0, less, done, rest, a);
    MergeRunsSpec(less, done, rest, a, b);
    MergeRuns(l, a0, a1b0, b1, less, done, rest, rest[..a], rest[a..b], rest[b..]);
    done', rest' := done + Merge(less, rest[..a], rest[a..b]), rest[b..];
  }

  /** The end of the run that starts a elements into rest. */
  method FindSecondEnd<T>(l: List<T>, a1b0: Elem<T>, less: (T, T) -> bool,
                          ghost done: seq<Elem<T>>, ghost rest: seq<Elem<T>>, ghost a: nat)
    returns (b1: Elem<T>)
    requires Chain([l.head] + done + rest + [l.tail]) && a < |rest| && a1b0 == rest[a]
    ensures a + RunEnd(less, rest[a..]) <= |rest|
    ensures b1 == (rest[a + RunEnd(less, rest[a..])..] + [l.tail])[0]
  {
    ghost var pre, post := [l.head] + done, [l.tail];
    CutIn(pre, rest, a, post);
    b1 := FindEndOfRun(a1b0, l.tail, less, pre + rest[..a], rest[a..], post);
    SecondCut(rest, a, a + RunEnd(less, rest[a..]), post);
  }

  /** One iteration of the inner loop of list_sort(): the list is
      [head] + done + rest + [tail], where done is this pass's output so far. */
  method PassStep<T>(l: List<T>, a0: Elem<T>, less: (T, T) -> bool, ghost done: seq<Elem<T>>, ghost rest: seq<Elem<T>>)
    returns (b1: Elem<T>, ghost done': seq<Elem<T>>, ghost rest': seq<Elem<T>>)
    requires Chain([l.head] + done + rest + [l.tail]) && rest != [] && a0 == rest[0]
    modifies Elements([l.head] + done + rest + [l.tail])
    ensures Chain([l.head] + done' + rest' + [l.tail])
    ensures Permutation([l.head] + done + rest + [l.tail], [l.head] + done' + rest' + [l.tail])
    ensures done' + Pass(less, rest') == done + Pass(less, rest)
    ensures 1 + PassRuns(less, rest') == PassRuns(less, rest)
    ensures |rest'| < |rest| && b1 == (rest' + [l.tail])[0]
  {
    ghost var pre, post := [l.head] + done, [l.tail];
    var a1b0 := FindEndOfRun(a0, l.tail, less, pre, rest, post);
    if a1b0 == l.tail {
      RunsUnfoldLast(less, rest);
      b1, done', rest' := a1b0, done + rest, [];
      assert [l.head] + done' + rest' + [l.tail] == pre + rest + post;
      assert done' + [] == done + rest;
    } else {
      b1, done', rest' := MergeFirstTwo(l, a0, a1b0, less, done, rest);
    }
  }

  /** One pass of list_sort(): returns output_run_cnt. */
  method SortPass<T>(l: List<T>, less: (T, T) -> bool, ghost es: seq<Elem<T>>)
    returns (outputRunCnt: nat, ghost rs: seq<Elem<T>>)
    requires IsList(l, es)
    modifies Elements([l.head] + es + [l.tail])
    ensures IsList(l, rs) && Permutation([l.head] + es + [l.tail], [l.head] + rs + [l.tail])
    ensures rs == Pass(less, es)
    ensures outputRunCnt == PassRuns(less, es)
  {
    outputRunCnt := 0;
    ghost var all := [l.head] + es + [l.tail];
    assert all == [l.head] + [] + es + [l.tail] && [] + Pass(less, es) == Pass(less, es);
    assert l.head.next == all[1];
    var a0 := l.head.next;
    rs := [];
    ghost var rest := es;
    while a0 != l.tail
      invariant Chain([l.head] + rs + rest + [l.tail])
      invariant Permutation(all, [l.head] + rs + rest + [l.tail])
      invariant a0 == (rest + [l.tail])[0]
      invariant rs + Pass(less, rest) == Pass(less, es)
      invariant outputRunCnt + PassRuns(less, rest) == PassRuns(less, es)
      decreases |rest|
    {
      outputRunCnt := outputRunCnt + 1;
      SameElements(all, [l.head] + rs + rest + [l.tail]);
      a0, rs, rest := PassStep(l, a0, less, rs, rest);
    }
    if rest != [] {
      LastIsNotInside([l.head] + rs, rest, l.tail);
    }
    assert rs + [] == rs && [l.head] + rs + rest + [l.tail] == [l.head] + rs + [l.tail];
  }

  lemma LastIsNotInside<T>(pre: seq<T>, s: seq<T>, last: T)
    requires Distinct(pre + s + [last]) && s != []
    ensures s[0] != last
  {
    var ns := pre + s + [last];
    assert ns[|pre|] == s[0] && ns[|pre| + |s|] == last;
  }

  /** list_sort(): the elements of l end up in SortBy order, that is (by
      SortByCorrect) sorted, with ties in their old order. */
  method ListSort<T(!new)>(l: List<T>, less: (T, T) -> bool, ghost es: seq<Elem<T>>)
    returns (ghost rs: seq<Elem<T>>)
    requires IsList(l, es) && StrictWeakOrder(less)
    modifies Elements([l.head] + es + [l.tail])
    ensures IsList(l, rs) && rs == SortBy(less, es)
    ensures Ordered(less, rs) && Permutation(es, rs) && Stable(less, es, rs)
  {
    var outputRunCnt;
    ghost var all := [l.head] + es + [l.tail];
    rs := es;
    outputRunCnt, rs := SortPass(l, less, rs);
    ghost var before := es;
    while outputRunCnt > 1
      invariant IsList(l, rs) && Permutation(all, [l.head] + rs + [l.tail])
      invariant rs == Pass(less, before) && outputRunCnt == PassRuns(less, before)
      invariant SortBy(less, before) == SortBy(less, es)
      decreases Runs(less, before)
    {
      SameElements(all, [l.head] + rs + [l.tail]);
      PassRunsBound(less, before);
      PassHalvesCount(less, before);
      before := rs;
      outputRunCnt, rs := SortPass(l, less, rs);
    }
    SortByCorrect(less, es);
  }

  // ---------------------------------------------------------------------
  // Reversal
  // ---------------------------------------------------------------------

  ghost function Reversed<T>(s: seq<T>): (r: seq<T>)
    ensures |r| == |s|
    ensures forall i :: 0 <= i < |s| ==> r[i] == s[|s| - 1 - i]
  {
    seq(|s|, i requires 0 <= i < |s| => s[|s| - 1 - i])
  }

  /** The loop of list_reverse(): swaps the links of every interior element. */
  method SwapLinks<T>(l: List<T>, ghost ns: seq<Elem<T>>, ghost n: nat)
    requires Chain(ns) && |ns| == n + 2 && ns[0] == l.head && ns[n + 1] == l.tail
    modifies Elements(ns)
    ensures l.head.prev == null && l.tail.next == null && l.head.next == ns[1] && l.tail.prev == ns[n]
    ensures forall i {:trigger ns[i].next} :: 0 < i <= n ==> ns[i].next == ns[i - 1]
    ensures forall i {:trigger ns[i].prev} :: 0 < i <= n ==> ns[i].prev == ns[i + 1]
  {
    assert l.head.next == ns[1];
    var e := l.head.next;
    ghost var k := 1;
    while e != l.tail
      invariant 1 <= k <= n + 1 && e == ns[k]
      invariant l.head.prev == null && l.tail.next == null && l.head.next == ns[1] && l.tail.prev == ns[n]
      invariant forall i {:trigger ns[i].next} :: 0 < i < k ==> ns[i].next == ns[i - 1]
      invariant forall i {:trigger ns[i].prev} :: 0 < i < k ==> ns[i].prev == ns[i + 1]
      invariant forall i {:trigger ns[i].next} :: k <= i <= n ==> ns[i].next == ns[i + 1]
      invariant forall i {:trigger ns[i].prev} :: k <= i <= n ==> ns[i].prev == ns[i - 1]
      decreases n + 1 - k
    {
      e.prev, e.next := e.next, e.prev;
      e := e.prev;
      k := k + 1;
    }
  }

  /** list_reverse() */
  method ListReverse<T>(l: List<T>, ghost es: seq<Elem<T>>)
    requires IsList(l, es)
    modifies Elements([l.head] + es + [l.tail])
    ensures IsList(l, Reversed(es))
  {
    ghost var ns, n := [l.head] + es + [l.tail], |es|;
    ghost var rev := [l.head] + Reversed(es) + [l.tail];
    assert forall i :: 0 < i <= n ==> rev[i] == ns[n + 1 - i];
    assert l.head.next == ns[1];
    if l.head.next == l.tail {
      assert n == 0 && rev == ns;
      return;
    }
    SwapLinks(l, ns, n);
    assert ns[1].next == ns[0] && ns[n].prev == ns[n + 1];
    l.head.next, l.tail.prev := l.tail.prev, l.head.next;
    var first, last := l.head.next, l.tail.prev;
    var t := first.prev;
    first.prev := last.next;
    last.next := t;
  }

  // ---------------------------------------------------------------------
  // Ordered insertion and removal of duplicates
  // ---------------------------------------------------------------------

  /** Number of leading elements of s that x does not come before. */
  function InsertionPoint<T>(less: (T, T) -> bool, x: T, s: seq<Elem<T>>): (k: nat)
    ensures k <= |s|
    ensures forall i :: 0 <= i < k ==> !less(x, s[i].value)
    ensures k < |s| ==> less(x, s[k].value)
  {
    if s == [] || less(x, s[0].value) then 0 else 1 + InsertionPoint(less, x, s[1..])
  }

  lemma Inserted<T>(h: T, s: seq<T>, t: T, x: T, ns: seq<T>, k: nat)
    requires ns == [h] + s + [t] && k <= |s|
    ensures ns[..k + 1] + [x] + ns[k + 1..] == [h] + (s[..k] + [x] + s[k..]) + [t]
    ensures forall y :: y in [h] + (s[..k] + [x] + s[k..]) + [t] ==> y == x || y in ns
  {
  }

  /** list_insert_ordered(): behind everything that does not come after elem. */
  method ListInsertOrdered<T>(l: List<T>, elem: Elem<T>, less: (T, T) -> bool, ghost es: seq<Elem<T>>)
    returns (ghost k: nat)
    requires IsList(l, es) && elem !in es && elem != l.head && elem != l.tail
    modifies Elements([l.head] + es + [l.tail]), elem
    ensures k == InsertionPoint(less, elem.value, es)
    ensures IsList(l, es[..k] + [elem] + es[k..])
  {
    ghost var ns := [l.head] + es + [l.tail];
    assert l.head.next == ns[1];
    var e := l.head.next;
    k := 0;
    assert es[0..] == es;
    while e != l.tail && !less(elem.value, e.value)
      invariant 0 <= k <= |es| && e == ns[k + 1]
      invariant InsertionPoint(less, elem.value, es) == k + InsertionPoint(less, elem.value, es[k..])
      decreases |es| - k
    {
      assert k < |es| && es[k..][0] == e && es[k..][1..] == es[k + 1..];
      assert e.next == ns[k + 2];
      e := e.next;
      k := k + 1;
    }
    assert k < |es| ==> es[k..][0] == e;
    Inserted(l.head, es, l.tail, elem, ns, k);
    assert e.prev == ns[k] && ns[k] in ns && e in ns;
    ListInsert(e, elem, ns, k + 1, []);
  }

  /** A sorted list stays sorted. */
  lemma {:induction false} InsertOrderedSorted<T(!new)>(less: (T, T) -> bool, e: Elem<T>, s: seq<Elem<T>>)
    requires StrictWeakOrder(less) && Sorted(less, s)
    ensures var k := InsertionPoint(less, e.value, s); Sorted(less, s[..k] + [e] + s[k..])
  {
    var k := InsertionPoint(less, e.value, s);
    var r := s[..k] + [e] + s[k..];
    forall i, j | 0 <= i < |r| && 0 <= j < |r| && j == i + 1 ensures !less(r[j].value, r[i].value) {
      if i == k {
        assert less(e.value, s[k].value);
      }
    }
  }

  /** The second list of list_unique(), which may be null. */
  datatype Duplicates<T> = Null | To(list: List<T>)

  /** The elements of that list, headers included. */
  ghost function DupChain<T>(d: Duplicates<T>, ds: seq<Elem<T>>): (r: seq<Elem<T>>) {
    if d.Null? then [] else [d.list.head] + ds + [d.list.tail]
  }

  lemma WithoutAt<T>(ns: seq<T>, i: nat)
    requires Distinct(ns) && i < |ns|
    ensures forall x :: x in ns[..i] + ns[i + 1..] ==> x in ns && x != ns[i]
  {
    var ms := ns[..i] + ns[i + 1..];
    forall x | x in ms ensures x in ns && x != ns[i] {
      var k :| 0 <= k < |ms| && ms[k] == x;
      assert x == ns[if k < i then k else k + 1];
    }
  }

  lemma Appended<T>(h: T, s: seq<T>, t: T, x: T, ns: seq<T>)
    requires ns == [h] + s + [t]
    ensures ns[..|s| + 1] + [x] + ns[|s| + 1..] == [h] + (s + [x]) + [t]
    ensures forall y :: y in [h] + (s + [x]) + [t] ==> y == x || y in ns
  {
  }

  /** Takes the element at i out of the list ns, and appends it to the list of
      duplicates if there is one. */
  method DropDuplicate<T>(next: Elem<T>, d: Duplicates<T>, ghost ns: seq<Elem<T>>, ghost i: nat, ghost ds: seq<Elem<T>>)
    requires Chain(ns) && 0 < i < |ns| - 1 && ns[i] == next
    requires Apart(DupChain(d, ds), ns)
    modifies Elements(ns), Elements(DupChain(d, ds))
    ensures Chain(ns[..i] + ns[i + 1..]) && Apart(DupChain(d, ds + [next]), ns[..i] + ns[i + 1..])
    ensures Elements(DupChain(d, ds + [next])) <= Elements(ns) + Elements(DupChain(d, ds))
  {
    assert next.prev == ns[i - 1] && next.next == ns[i + 1];
    assert ns[i - 1] in ns && ns[i + 1] in ns && next in ns;
    ghost var ms, xs := ns[..i] + ns[i + 1..], DupChain(d, ds);
    WithoutAt(ns, i);
    var _ := ListRemove(next, ns, i, xs);
    if d.To? {
      assert xs[|ds| + 1] == d.list.tail && d.list.tail.prev == xs[|ds|];
      assert xs[|ds| + 1] in xs && xs[|ds|] in xs;
      Appended(d.list.head, ds, d.list.tail, next, xs);
      ListInsert(d.list.tail, next, xs, |ds| + 1, ms);
    }
  }

  /** list_unique() */
  method ListUnique<T>(l: List<T>, d: Duplicates<T>, less: (T, T) -> bool, ghost es: seq<Elem<T>>,
                       ghost ds: seq<Elem<T>>)
    requires IsList(l, es) && Apart(DupChain(d, ds), [l.head] + es + [l.tail])
    modifies Elements([l.head] + es + [l.tail]), Elements(DupChain(d, ds))
    ensures IsList(l, if es == [] then [] else Kept(less, es[0], es[1..]))
    ensures d.To? ==> IsList(d.list, if es == [] then ds else ds + Dropped(less, es[0], es[1..]))
  {
    ghost var all := [l.head] + es + [l.tail];
    assert l.head.next == all[1] && all[|es| + 1] == l.tail;
    if l.head.next == l.tail {
      assert es == [];
      return;
    }
    var elem: Elem<T> := l.head.next;
    ghost var kept: seq<Elem<T>>, rest, dropped: seq<Elem<T>> := [], es[1..], [];
    assert all == UniqueList(l, kept, elem, rest) && ds + dropped == ds;
    assert elem.next == all[2];
    var next: Elem<T> := elem.next;
    while next != l.tail
      invariant Chain(UniqueList(l, kept, elem, rest))
      invariant Apart(DupChain(d, ds + dropped), UniqueList(l, kept, elem, rest))
      invariant Elements(UniqueList(l, kept, elem, rest)) <= Elements(all)
      invariant Elements(DupChain(d, ds + dropped)) <= Elements(all) + Elements(DupChain(d, ds))
      invariant next == (rest + [l.tail])[0]
      invariant kept + Kept(less, elem, rest) == Kept(less, es[0], es[1..])
      invariant dropped + Dropped(less, elem, rest) == Dropped(less, es[0], es[1..])
      decreases |rest|
    {
      if !less(elem.value, next.value) && !less(next.value, elem.value) {
        UniqueListDrop(l, kept, elem, rest);
        DropSpec(less, dropped, ds, elem, rest);
        DropDuplicate(next, d, UniqueList(l, kept, elem, rest), |kept| + 2, ds + dropped);
        dropped, rest := dropped + [next], rest[1..];
      } else {
        UniqueListKeep(l, kept, elem, rest);
        KeepSpec(less, kept, elem, rest);
        kept, elem, rest := kept + [elem], next, rest[1..];
      }
      UniqueListNext(l, kept, elem, rest);
      next := elem.next;
    }
    if rest != [] {
      LastIsNotInside([l.head] + kept + [elem], rest, l.tail);
    }
    UniqueSpec([l.head] + kept + [elem], [], [l.tail]);
    UniqueSpec([l.head], kept, [elem]);
    UniqueSpec(dropped, [], []);
    assert dropped == Dropped(less, es[0], es[1..]) && kept + [elem] == Kept(less, es[0], es[1..]);
  }

  /** The list while list_unique() works on it. */
  ghost function UniqueList<T>(l: List<T>, kept: seq<Elem<T>>, elem: Elem<T>, rest: seq<Elem<T>>): (ns: seq<Elem<T>>) {
    [l.head] + kept + [elem] + rest + [l.tail]
  }

  lemma DropSpec<T>(less: (T, T) -> bool, dropped: seq<Elem<T>>, ds: seq<Elem<T>>, elem: Elem<T>, rest: seq<Elem<T>>)
    requires rest != [] && !less(elem.value, rest[0].value) && !less(rest[0].value, elem.value)
    ensures Kept(less, elem, rest[1..]) == Kept(less, elem, rest)
    ensures (dropped + [rest[0]]) + Dropped(less, elem, rest[1..]) == dropped + Dropped(less, elem, rest)
    ensures (ds + dropped) + [rest[0]] == ds + (dropped + [rest[0]])
  {
  }

  lemma KeepSpec<T>(less: (T, T) -> bool, kept: seq<Elem<T>>, elem: Elem<T>, rest: seq<Elem<T>>)
    requires rest != [] && (less(elem.value, rest[0].value) || less(rest[0].value, elem.value))
    ensures (kept + [elem]) + Kept(less, rest[0], rest[1..]) == kept + Kept(less, elem, rest)
    ensures Dropped(less, rest[0], rest[1..]) == Dropped(less, elem, rest)
  {
  }

  lemma UniqueSpec<T>(a: seq<T>, b: seq<T>, c: seq<T>)
    ensures (a + b) + c == a + (b + c)
    ensures b == [] ==> b + c == c && a + b == a
  {
  }

  lemma UniqueListDrop<T>(l: List<T>, kept: seq<Elem<T>>, elem: Elem<T>, rest: seq<Elem<T>>)
    requires rest != []
    ensures var ns, i := UniqueList(l, kept, elem, rest), |kept| + 2;
      && i < |ns| - 1 && ns[i] == rest[0]
      && ns[..i] + ns[i + 1..] == UniqueList(l, kept, elem, rest[1..])
      && Elements(UniqueList(l, kept, elem, rest[1..])) <= Elements(ns)
  {
  }

  lemma UniqueListKeep<T>(l: List<T>, kept: seq<Elem<T>>, elem: Elem<T>, rest: seq<Elem<T>>)
    requires rest != []
    ensures UniqueList(l, kept + [elem], rest[0], rest[1..]) == UniqueList(l, kept, elem, rest)
  {
  }

  lemma UniqueListNext<T>(l: List<T>, kept: seq<Elem<T>>, elem: Elem<T>, rest: seq<Elem<T>>)
    requires Chain(UniqueList(l, kept, elem, rest))
    ensures elem.next == (rest + [l.tail])[0]
  {
    var ns, i := UniqueList(l, kept, elem, rest), |kept| + 1;
    assert ns[i] == elem && ns[i + 1] == (rest + [l.tail])[0];
  }
}
