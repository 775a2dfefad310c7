/** Lists without duplicates, as the sets of their elements: the ready list, the wait
    lists and the free lists of blocks. */
module DistinctLists {
  /** xs lists the elements of s, each once. */
  ghost predicate ListOf(xs: seq<nat>, s: set<nat>) {
    if xs == [] then s == {} else xs[0] in s && ListOf(xs[1..], s - {xs[0]})
  }

  lemma {:induction false} ListPush(xs: seq<nat>, s: set<nat>, t: nat)
    requires ListOf(xs, s) && t !in s
    ensures ListOf(xs + [t], s + {t})
  {
    if xs == [] {
      assert (s + {t}) - {t} == {};
      assert (xs + [t])[1..] == [];
    } else {
      assert (xs + [t])[1..] == xs[1..] + [t];
      assert (s + {t}) - {xs[0]} == (s - {xs[0]}) + {t};
      ListPush(xs[1..], s - {xs[0]}, t);
    }
  }

  /** Such a list has no duplicates and no one else. */
  lemma {:induction false} ListExact(xs: seq<nat>, s: set<nat>, i: nat)
    requires ListOf(xs, s) && i < |xs|
    ensures xs[i] in s && |s| == |xs| && forall j :: 0 <= j < |xs| && j != i ==> xs[j] != xs[i]
  {
    ListSize(xs, s);
    if i == 0 {
      forall j | 1 <= j < |xs| ensures xs[j] != xs[0] {
        ListExact(xs[1..], s - {xs[0]}, j - 1);
      }
    } else {
      ListExact(xs[1..], s - {xs[0]}, i - 1);
      assert xs[i] == xs[1..][i - 1];
      assert forall j :: 1 <= j < |xs| && j != i ==> xs[j] == xs[1..][j - 1];
    }
  }

  lemma {:induction false} ListSize(xs: seq<nat>, s: set<nat>)
    requires ListOf(xs, s)
    ensures |s| == |xs|
  {
    if xs != [] {
      ListSize(xs[1..], s - {xs[0]});
    }
  }

  lemma {:induction false} ListFind(xs: seq<nat>, s: set<nat>, t: nat) returns (i: nat)
    requires ListOf(xs, s) && t in s
    ensures i < |xs| && xs[i] == t
  {
    if xs[0] == t {
      i := 0;
    } else {
      i := ListFind(xs[1..], s - {xs[0]}, t);
      i := i + 1;
    }
  }

  lemma ListPushFront(xs: seq<nat>, s: set<nat>, x: nat)
    requires ListOf(xs, s) && x !in s
    ensures ListOf([x] + xs, s + {x})
  {
    assert ([x] + xs)[1..] == xs && (s + {x}) - {x} == s;
  }

  /** list_remove(): xs without x. */
  function Removed(xs: seq<nat>, x: nat): (r: seq<nat>) {
    if xs == [] then [] else if xs[0] == x then xs[1..] else [xs[0]] + Removed(xs[1..], x)
  }

  lemma {:induction false} ListRemove(xs: seq<nat>, s: set<nat>, x: nat)
    requires ListOf(xs, s) && x in s
    ensures ListOf(Removed(xs, x), s - {x})
  {
    if xs[0] != x {
      ListRemove(xs[1..], s - {xs[0]}, x);
      var r := [xs[0]] + Removed(xs[1..], x);
      assert r[1..] == Removed(xs[1..], x) && (s - {x}) - {xs[0]} == (s - {xs[0]}) - {x};
    }
  }
}
