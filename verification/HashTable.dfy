/** src/lib/kernel/hash.c: a chained hash table that resizes itself, as a finite
    set up to the caller's notion of equality, and its iterator. */
module HashTable {
  import opened Bits
  import opened Options
  import opened Words
  import O = ListOrder

  /** What the callers of hash.c must supply: a strict weak order, and a 32-bit
      hash value that equal elements share. */
  ghost predicate Comparable<T(!new)>(hash: T -> nat, less: (T, T) -> bool) {
    && O.StrictWeakOrder(less)
    && (forall x, y :: O.Same(less, x, y) ==> hash(x) == hash(y))
    && (forall x :: hash(x) < WORD)
  }

  /** All elements of a sequence of buckets. */
  ghost function Contents<T>(bs: seq<seq<T>>): (m: multiset<T>) {
    if bs == [] then multiset{} else multiset(bs[0]) + Contents(bs[1..])
  }

  /** No two elements are equal in the caller's sense. */
  ghost predicate Unique<T(!new)>(less: (T, T) -> bool, m: multiset<T>) {
    && (forall x :: m[x] <= 1)
    && (forall x, y :: x in m && y in m && O.Same(less, x, y) ==> x == y)
  }

  /** Every element is in the bucket that its hash value selects. */
  ghost predicate Placed<T>(hash: T -> nat, bs: seq<seq<T>>) {
    forall i, x :: 0 <= i < |bs| && x in bs[i] ==> hash(x) % |bs| == i
  }

  // ---------------------------------------------------------------------
  // Contents
  // ---------------------------------------------------------------------

  lemma {:induction false} ContentsUpdate<T(!new)>(bs: seq<seq<T>>, i: nat, b: seq<T>)
    requires i < |bs|
    ensures Contents(bs[i := b]) + multiset(bs[i]) == Contents(bs) + multiset(b)
  {
    if i == 0 {
      assert bs[0 := b][1..] == bs[1..];
    } else {
      assert bs[i := b][1..] == bs[1..][i - 1 := b] && bs[1..][i - 1] == bs[i] && bs[i := b][0] == bs[0];
      ContentsUpdate(bs[1..], i - 1, b);
      Prepend(multiset(bs[0]), Contents(bs[i := b][1..]), multiset(bs[i]), Contents(bs[1..]), multiset(b));
    }
  }

  lemma Prepend<T(!new)>(u: multiset<T>, c': multiset<T>, o: multiset<T>, c: multiset<T>, n: multiset<T>)
    requires c' + o == c + n
    ensures (u + c') + o == (u + c) + n
  {
    forall y ensures ((u + c') + o)[y] == ((u + c) + n)[y] {
      assert (c' + o)[y] == (c + n)[y];
    }
  }

  lemma {:induction false} ContentsHas<T>(bs: seq<seq<T>>, i: nat, x: T)
    requires i < |bs| && x in bs[i]
    ensures x in Contents(bs)
  {
    if i > 0 {
      ContentsHas(bs[1..], i - 1, x);
    } else {
      assert x in multiset(bs[0]);
    }
  }

  lemma {:induction false} ContentsFind<T>(bs: seq<seq<T>>, x: T) returns (i: nat)
    requires x in Contents(bs)
    ensures i < |bs| && x in bs[i]
  {
    if x in multiset(bs[0]) {
      i := 0;
    } else {
      i := ContentsFind(bs[1..], x);
      i := i + 1;
    }
  }

  lemma {:induction false} ContentsEmpty<T>(bs: seq<seq<T>>)
    requires forall i :: 0 <= i < |bs| ==> bs[i] == []
    ensures Contents(bs) == multiset{}
  {
    if bs != [] {
      ContentsEmpty(bs[1..]);
    }
  }

  lemma {:induction false} ContentsSplit<T>(bs: seq<seq<T>>, i: nat)
    requires i < |bs|
    ensures Contents(bs[i..]) == multiset(bs[i]) + Contents(bs[i + 1..])
  {
    assert bs[i..][1..] == bs[i + 1..];
  }

  /** list_push_front() on the bucket that x belongs in. */
  ghost function Pushed<T>(hash: T -> nat, bs: seq<seq<T>>, x: T): (r: seq<seq<T>>)
    requires bs != []
    ensures |r| == |bs|
  {
    var i := hash(x) % |bs|; bs[i := [x] + bs[i]]
  }

  lemma PushFront<T(!new)>(hash: T -> nat, bs: seq<seq<T>>, x: T)
    requires bs != [] && Placed(hash, bs)
    ensures Placed(hash, Pushed(hash, bs, x))
    ensures Contents(Pushed(hash, bs, x)) == Contents(bs) + multiset{x}
  {
    var i := hash(x) % |bs|;
    ContentsUpdate(bs, i, [x] + bs[i]);
    Cancel(Contents(Pushed(hash, bs, x)), Contents(bs), bs[i], [x] + bs[i], x);
  }

  lemma Cancel<T(!new)>(m': multiset<T>, m: multiset<T>, b: seq<T>, b': seq<T>, x: T)
    requires m' + multiset(b) == m + multiset(b') && multiset(b') == multiset{x} + multiset(b)
    ensures m' == m + multiset{x}
  {
    forall y ensures m'[y] == (m + multiset{x})[y] {
      assert (m' + multiset(b))[y] == (m + multiset(b'))[y];
    }
  }

  /** list_remove() of the p'th element of bucket i. */
  ghost function Without<T>(bs: seq<seq<T>>, i: nat, p: nat): (r: seq<seq<T>>)
    requires i < |bs| && p < |bs[i]|
    ensures |r| == |bs|
  {
    bs[i := bs[i][..p] + bs[i][p + 1..]]
  }

  lemma TakeOut<T(!new)>(hash: T -> nat, bs: seq<seq<T>>, i: nat, p: nat)
    requires i < |bs| && p < |bs[i]| && Placed(hash, bs)
    ensures Placed(hash, Without(bs, i, p))
    ensures Contents(bs) == Contents(Without(bs, i, p)) + multiset{bs[i][p]}
  {
    var b := bs[i];
    var b' := b[..p] + b[p + 1..];
    ContentsUpdate(bs, i, b');
    assert b == b[..p] + [b[p]] + b[p + 1..];
    Cancel(Contents(bs), Contents(Without(bs, i, p)), b', b, b[p]);
    assert forall x :: x in b' ==> x in b;
  }

  /** Adding an element that equals none of those there. */
  lemma UniqueAdd<T(!new)>(hash: T -> nat, less: (T, T) -> bool, m: multiset<T>, x: T)
    requires Comparable(hash, less) && Unique(less, m) && forall y :: y in m ==> !O.Same(less, y, x)
    ensures Unique(less, m + multiset{x})
  {
    assert O.Same(less, x, x);
    assert x !in m;
  }

  // ---------------------------------------------------------------------
  // The number of buckets
  // ---------------------------------------------------------------------

  /** turn_off_least_1bit() */
  function TurnOffLeast1Bit(x: nat): (r: nat)
    requires x > 0
  {
    And(x, x - 1)
  }

  /** Clearing the lowest bit of a word with several bits set leaves the top one. */
  lemma {:induction false} TopBitStays(x: nat, k: nat)
    requires Pow2(k) < x < 2 * Pow2(k)
    ensures Pow2(k) <= And(x, x - 1) < x
  {
    TurnOffLeast(x);
    AndHalf(x, x - 1);
    if x % 2 == 1 {
      assert (x - 1) / 2 == x / 2;
      AndSelf(x / 2);
    } else {
      assert (x - 1) / 2 == x / 2 - 1;
      TopBitStays(x / 2, k - 1);
    }
  }

  lemma {:induction false} TopBit(x: nat) returns (k: nat)
    requires x > 0
    ensures Pow2(k) <= x < 2 * Pow2(k)
  {
    if x == 1 {
      k := 0;
    } else {
      k := TopBit(x / 2);
      k := k + 1;
    }
  }

  /** The bucket count rehash() aims at: the largest power of two that is at most
      half the number of elements, but at least 4. */
  method IdealBucketCnt(elemCnt: nat) returns (n: nat)
    ensures IsPow2(n) && n >= 4
    ensures n <= (if elemCnt / 2 < 4 then 4 else elemCnt / 2) < 2 * n
  {
    n := elemCnt / 2;
    if n < 4 {
      n := 4;
    }
    ghost var k := TopBit(n);
    while TurnOffLeast1Bit(n) != 0
      invariant Pow2(k) <= n <= (if elemCnt / 2 < 4 then 4 else elemCnt / 2) < 2 * Pow2(k)
      decreases n
    {
      TurnOffLeast(n);
      TopBitStays(n, k);
      n := TurnOffLeast1Bit(n);
    }
    TurnOffLeast(n);
    ghost var j: nat :| Pow2(j) == n;
    SamePow2(j, k);
    AtLeastFour(k, if elemCnt / 2 < 4 then 4 else elemCnt / 2);
  }

  lemma SamePow2(j: nat, k: nat)
    requires Pow2(k) <= Pow2(j) < 2 * Pow2(k)
    ensures j == k
  {
    Pow2Monotone(j + 1, if j < k then k else j + 1);
    Pow2Monotone(k + 1, if k < j then j else k + 1);
  }

  lemma AtLeastFour(k: nat, x: nat)
    requires Pow2(k) <= x < 2 * Pow2(k) && x >= 4
    ensures Pow2(k) >= 4
  {
    Pow2Monotone(k, if k < 2 then 1 else k);
  }

  // ---------------------------------------------------------------------
  // The table
  // ---------------------------------------------------------------------

  class Hash<T(!new, ==)> {
    var elemCnt: nat
    var bucketCnt: nat
    var buckets: seq<seq<T>>
    const hash: T -> nat
    const less: (T, T) -> bool

    ghost predicate Valid()
      reads this
    {
      && Comparable(hash, less)
      && |buckets| == bucketCnt && bucketCnt >= 4 && IsPow2(bucketCnt)
      && Placed(hash, buckets)
      && Unique(less, Contents(buckets))
      && elemCnt == |Contents(buckets)|
    }

    /** hash_init(), when its malloc() succeeds. */
    constructor (hash: T -> nat, less: (T, T) -> bool)
      requires Comparable(hash, less)
      ensures Valid() && Contents(buckets) == multiset{} && this.hash == hash && this.less == less
    {
      this.hash, this.less := hash, less;
      elemCnt, bucketCnt := 0, 4;
      buckets := [[], [], [], []];
      new;
      assert Pow2(2) == 4;
      ContentsEmpty(buckets);
    }

    /** find_bucket(): masking with bucket_cnt - 1 is reduction modulo bucket_cnt. */
    method FindBucket(e: T) returns (i: nat)
      requires Valid()
      ensures i < |buckets| && i == hash(e) % |buckets|
    {
      i := And(hash(e), bucketCnt - 1);
      MaskIsModulo(hash(e), bucketCnt);
    }

    /** find_elem(), returning the position as well. */
    method FindElem(i: nat, e: T) returns (r: Option<T>, p: nat)
      requires i < |buckets|
      ensures r.Some? ==> p < |buckets[i]| && r.value == buckets[i][p] && O.Same(less, r.value, e)
      ensures r.None? ==> forall x :: x in buckets[i] ==> !O.Same(less, x, e)
    {
      p := 0;
      while p < |buckets[i]|
        invariant 0 <= p <= |buckets[i]|
        invariant forall q :: 0 <= q < p ==> !O.Same(less, buckets[i][q], e)
      {
        var hi := buckets[i][p];
        if !less(hi, e) && !less(e, hi) {
          return Some(hi), p;
        }
        p := p + 1;
      }
      r := None;
    }

    /** An element equal to e is in the bucket of e if it is anywhere. */
    lemma InItsBucket(e: T, x: T)
      requires Valid() && x in Contents(buckets) && O.Same(less, x, e)
      ensures x in buckets[hash(e) % |buckets|]
    {
      var i := ContentsFind(buckets, x);
      assert hash(x) % |buckets| == i;
    }

    /** hash_find() */
    method Find(e: T) returns (r: Option<T>)
      requires Valid()
      ensures r.Some? ==> r.value in Contents(buckets) && O.Same(less, r.value, e)
      ensures r.None? <==> forall x :: x in Contents(buckets) ==> !O.Same(less, x, e)
    {
      var i := FindBucket(e);
      var p;
      r, p := FindElem(i, e);
      if r.Some? {
        ContentsHas(buckets, i, r.value);
      } else {
        forall x | x in Contents(buckets) ensures !O.Same(less, x, e) {
          if O.Same(less, x, e) { InItsBucket(e, x); }
        }
      }
    }

    /** rehash(): whether or not its malloc() succeeds, the contents stay; if it
        does, or nothing needs doing, the bucket count is the ideal one. */
    method Rehash(mallocOk: bool)
      requires Valid()
      modifies this
      ensures Valid() && Contents(buckets) == old(Contents(buckets)) && elemCnt == old(elemCnt)
      ensures !mallocOk ==> buckets == old(buckets)
      ensures mallocOk ==> bucketCnt <= (if elemCnt / 2 < 4 then 4 else elemCnt / 2) < 2 * bucketCnt
    {
      var oldBuckets := buckets;
      var newBucketCnt := IdealBucketCnt(elemCnt);
      if newBucketCnt == bucketCnt || !mallocOk {
        return;
      }
      buckets := seq(newBucketCnt, _ => []);
      bucketCnt := newBucketCnt;
      ContentsEmpty(buckets);
      MoveBuckets(oldBuckets);
    }

    /** The outer loop of rehash(): moves the elements of every old bucket. */
    method MoveBuckets(oldBuckets: seq<seq<T>>)
      requires |buckets| == bucketCnt && bucketCnt >= 4 && IsPow2(bucketCnt) && Placed(hash, buckets)
      requires Contents(buckets) == multiset{}
      modifies this`buckets
      ensures |buckets| == bucketCnt && Placed(hash, buckets)
      ensures Contents(buckets) == Contents(oldBuckets)
    {
      var i := 0;
      assert oldBuckets[0..] == oldBuckets;
      while i < |oldBuckets|
        invariant 0 <= i <= |oldBuckets|
        invariant |buckets| == bucketCnt && Placed(hash, buckets)
        invariant Contents(buckets) + Contents(oldBuckets[i..]) == Contents(oldBuckets)
      {
        ContentsSplit(oldBuckets, i);
        MoveBucket(oldBuckets[i]);
        i := i + 1;
      }
      assert oldBuckets[i..] == [];
    }

    /** Puts one element in its new bucket. */
    method MoveElem(elem: T)
      requires |buckets| == bucketCnt && bucketCnt >= 4 && IsPow2(bucketCnt) && Placed(hash, buckets)
      modifies this`buckets
      ensures |buckets| == bucketCnt && Placed(hash, buckets)
      ensures Contents(buckets) == old(Contents(buckets)) + multiset{elem}
    {
      PushFront(hash, buckets, elem);
      MaskIsModulo(hash(elem), bucketCnt);
      var k := And(hash(elem), bucketCnt - 1);
      buckets := buckets[k := [elem] + buckets[k]];
    }

    /** The inner loop of rehash(): moves every element of an old bucket. */
    method MoveBucket(b: seq<T>)
      requires |buckets| == bucketCnt && bucketCnt >= 4 && IsPow2(bucketCnt) && Placed(hash, buckets)
      modifies this`buckets
      ensures |buckets| == bucketCnt && Placed(hash, buckets)
      ensures Contents(buckets) == old(Contents(buckets)) + multiset(b)
    {
      var j := 0;
      ghost var before := Contents(buckets);
      assert b[..0] == [];
      while j < |b|
        invariant 0 <= j <= |b|
        invariant |buckets| == bucketCnt && Placed(hash, buckets)
        invariant Contents(buckets) == before + multiset(b[..j])
      {
        MoveElem(b[j]);
        assert b[..j + 1] == b[..j] + [b[j]];
        j := j + 1;
      }
      assert b[..j] == b;
    }

    /** hash_insert() */
    method Insert(x: T, mallocOk: bool) returns (r: Option<T>)
      requires Valid()
      modifies this
      ensures Valid()
      ensures r.None? <==> forall y :: y in old(Contents(buckets)) ==> !O.Same(less, y, x)
      ensures r.None? ==> Contents(buckets) == old(Contents(buckets)) + multiset{x}
      ensures r.Some? ==>
        Contents(buckets) == old(Contents(buckets)) && r.value in Contents(buckets) && O.Same(less, r.value, x)
    {
      r := Find(x);
      if r.None? {
        InsertElem(x);
      }
      Rehash(mallocOk);
    }

    /** insert_elem() into the bucket of x, when nothing equals it. */
    method InsertElem(x: T)
      requires Valid() && forall y :: y in Contents(buckets) ==> !O.Same(less, y, x)
      modifies this
      ensures Valid() && Contents(buckets) == old(Contents(buckets)) + multiset{x}
    {
      UniqueAdd(hash, less, Contents(buckets), x);
      PushFront(hash, buckets, x);
      var k := FindBucket(x);
      elemCnt := elemCnt + 1;
      buckets := buckets[k := [x] + buckets[k]];
    }

    /** find_elem() and then remove_elem(). */
    method RemoveEqual(x: T) returns (r: Option<T>)
      requires Valid()
      modifies this
      ensures Valid()
      ensures r.None? ==> buckets == old(buckets) && forall y :: y in Contents(buckets) ==> !O.Same(less, y, x)
      ensures r.Some? ==> r.value in old(Contents(buckets)) && O.Same(less, r.value, x)
      ensures r.Some? ==> Contents(buckets) == old(Contents(buckets)) - multiset{r.value}
      ensures forall y :: y in Contents(buckets) ==> !O.Same(less, y, x)
    {
      ghost var all := Contents(buckets);
      var i := FindBucket(x);
      var p;
      r, p := FindElem(i, x);
      if r.None? {
        forall y | y in Contents(buckets) ensures !O.Same(less, y, x) {
          if O.Same(less, y, x) { InItsBucket(x, y); }
        }
        return;
      }
      TakeOut(hash, buckets, i, p);
      elemCnt := elemCnt - 1;
      buckets := buckets[i := buckets[i][..p] + buckets[i][p + 1..]];
      UniqueRemove(hash, less, all, Contents(buckets), r.value, x);
    }

    /** hash_replace() */
    method Replace(x: T, mallocOk: bool) returns (r: Option<T>)
      requires Valid()
      modifies this
      ensures Valid()
      ensures r.None? <==> forall y :: y in old(Contents(buckets)) ==> !O.Same(less, y, x)
      ensures r.Some? ==> r.value in old(Contents(buckets)) && O.Same(less, r.value, x)
      ensures Contents(buckets)
              == old(Contents(buckets)) - (if r.Some? then multiset{r.value} else multiset{}) + multiset{x}
    {
      r := RemoveEqual(x);
      InsertElem(x);
      Rehash(mallocOk);
    }

    /** hash_delete() */
    method Delete(x: T, mallocOk: bool) returns (r: Option<T>)
      requires Valid()
      modifies this
      ensures Valid()
      ensures r.None? <==> forall y :: y in old(Contents(buckets)) ==> !O.Same(less, y, x)
      ensures r.Some? ==> r.value in old(Contents(buckets)) && O.Same(less, r.value, x)
      ensures Contents(buckets) == old(Contents(buckets)) - (if r.Some? then multiset{r.value} else multiset{})
    {
      r := RemoveEqual(x);
      if r.Some? {
        Rehash(mallocOk);
      }
    }
  }

  lemma MaskIsModulo(h: nat, n: nat)
    requires n > 0 && IsPow2(n)
    ensures And(h, n - 1) == h % n
  {
    var k: nat :| Pow2(k) == n;
    AndLowMask(h, k);
  }

  /** Once the element equal to x is gone, nothing equals x. */
  lemma UniqueRemove<T(!new)>(hash: T -> nat, less: (T, T) -> bool, all: multiset<T>, m: multiset<T>, y: T, x: T)
    requires Comparable(hash, less) && Unique(less, all) && all == m + multiset{y} && O.Same(less, y, x)
    ensures Unique(less, m) && m == all - multiset{y}
    ensures forall z :: z in m ==> !O.Same(less, z, x)
  {
    assert forall z :: m[z] <= all[z];
    forall z | z in m ensures !O.Same(less, z, x) {
      assert z in all && all[y] == m[y] + 1 && z != y;
      assert O.Same(less, z, x) ==> O.Same(less, z, y);
    }
  }

  // ---------------------------------------------------------------------
  // Iteration
  // ---------------------------------------------------------------------

  /** The elements of the buckets, one bucket after the other. */
  ghost function Flatten<T>(bs: seq<seq<T>>): (s: seq<T>) {
    if bs == [] then [] else bs[0] + Flatten(bs[1..])
  }

  lemma {:induction false} FlattenContents<T>(bs: seq<seq<T>>)
    ensures multiset(Flatten(bs)) == Contents(bs)
  {
    if bs != [] {
      FlattenContents(bs[1..]);
    }
  }

  /** In a valid table no element occurs twice in it. */
  lemma {:induction false} FlattenDistinct<T(!new)>(less: (T, T) -> bool, bs: seq<seq<T>>)
    requires Unique(less, Contents(bs))
    ensures forall i, j :: 0 <= i < j < |Flatten(bs)| ==> Flatten(bs)[i] != Flatten(bs)[j]
  {
    FlattenContents(bs);
    var s := Flatten(bs);
    forall i, j | 0 <= i < j < |s| ensures s[i] != s[j] {
      assert s == s[..i] + [s[i]] + s[i + 1..j] + [s[j]] + s[j + 1..];
      assert s[i] == s[j] ==> multiset(s)[s[i]] >= 2;
    }
  }

  /** The elements from position e of bucket b on. */
  ghost function From<T>(bs: seq<seq<T>>, b: nat, e: nat): (s: seq<T>)
    requires b < |bs| && e <= |bs[b]|
  {
    bs[b][e..] + Flatten(bs[b + 1..])
  }

  lemma FromStart<T>(bs: seq<seq<T>>)
    requires bs != []
    ensures From(bs, 0, 0) == Flatten(bs)
  {
    assert bs[0][0..] == bs[0];
  }

  lemma FromElement<T>(bs: seq<seq<T>>, b: nat, e: nat)
    requires b < |bs| && e < |bs[b]|
    ensures From(bs, b, e) == [bs[b][e]] + From(bs, b, e + 1)
  {
    assert bs[b][e..] == [bs[b][e]] + bs[b][e + 1..];
  }

  lemma FromEnd<T>(bs: seq<seq<T>>, b: nat)
    requires b < |bs|
    ensures From(bs, b, |bs[b]|) == if b + 1 < |bs| then From(bs, b + 1, 0) else []
  {
    if b + 1 < |bs| {
      assert bs[b + 1..][0] == bs[b + 1] && bs[b + 1..][1..] == bs[b + 2..] && bs[b + 1][0..] == bs[b + 1];
    }
  }

  class HashIterator<T(!new, ==)> {
    const table: Hash<T>
    var bucket: nat
    var elem: int  // position in the bucket: -1 for its list head, |bucket| for its end
    var atEnd: bool  // elem is a null pointer

    ghost predicate Valid()
      reads this, table
    {
      atEnd || (bucket < |table.buckets| && -1 <= elem < |table.buckets[bucket]|)
    }

    /** The elements that hash_next() has not returned yet. */
    ghost function Rest(): (s: seq<T>)
      reads this, table
      requires Valid()
    {
      if atEnd then [] else From(table.buckets, bucket, elem + 1)
    }

    /** hash_first() */
    constructor (h: Hash<T>)
      requires h.buckets != []
      ensures Valid() && table == h && !atEnd && Rest() == Flatten(h.buckets)
    {
      table := h;
      bucket, elem, atEnd := 0, -1, false;
      new;
      FromStart(h.buckets);
    }

    /** The loop of hash_next(): moves past the ends of buckets. */
    method SkipEnds()
      requires !atEnd && bucket < |table.buckets| && 0 <= elem <= |table.buckets[bucket]|
      modifies this
      ensures atEnd ==> old(From(table.buckets, bucket, elem)) == []
      ensures !atEnd ==> bucket < |table.buckets| && 0 <= elem < |table.buckets[bucket]|
      ensures !atEnd ==> From(table.buckets, bucket, elem) == old(From(table.buckets, bucket, elem))
    {
      ghost var bs, all := table.buckets, From(table.buckets, bucket, elem);
      while elem == |table.buckets[bucket]|
        invariant table.buckets == bs && bucket < |bs| && 0 <= elem <= |bs[bucket]| && !atEnd
        invariant From(bs, bucket, elem) == all
        decreases |bs| - bucket
      {
        FromEnd(bs, bucket);
        bucket := bucket + 1;
        if bucket >= |table.buckets| {
          atEnd := true;
          return;
        }
        elem := 0;
      }
    }

    /** hash_next(): returns the first element not returned yet, or a null pointer
        when there is none. */
    method Next() returns (r: Option<T>)
      requires Valid() && !atEnd
      modifies this
      ensures Valid()
      ensures r.None? <==> old(Rest()) == []
      ensures r.None? <==> atEnd
      ensures r.Some? ==> old(Rest()) == [r.value] + Rest()
    {
      elem := elem + 1;
      SkipEnds();
      if atEnd {
        return None;
      }
      r := Some(table.buckets[bucket][elem]);
      FromElement(table.buckets, bucket, elem);
    }
  }

  lemma Step<T>(visited: seq<T>, x: T, rest: seq<T>)
    ensures visited + ([x] + rest) == (visited + [x]) + rest
  {
  }

  /** The iteration idiom of hash.h visits each element of the table exactly once. */
  method Iterate<T(!new, ==)>(h: Hash<T>) returns (visited: seq<T>)
    requires h.Valid()
    ensures multiset(visited) == Contents(h.buckets)
    ensures forall i, j :: 0 <= i < j < |visited| ==> visited[i] != visited[j]
  {
    visited := VisitAll(h);
    FlattenContents(h.buckets);
    FlattenDistinct(h.less, h.buckets);
  }

  method VisitAll<T(!new, ==)>(h: Hash<T>) returns (visited: seq<T>)
    requires h.buckets != []
    ensures visited == Flatten(h.buckets)
  {
    var it := new HashIterator<T>(h);
    visited := [];
    ghost var all := Flatten(h.buckets);
    while !it.atEnd
      invariant it.Valid() && it.table == h && visited + it.Rest() == all
      decreases !it.atEnd, |it.Rest()|
    {
      var r := it.Next();
      if r.Some? {
        Step(visited, r.value, it.Rest());
        visited := visited + [r.value];
      }
    }
  }
}
