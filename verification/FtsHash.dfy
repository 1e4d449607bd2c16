/** The full-text index's hash table: all elements form one doubly linked list, in which each bucket is a run of neighbours. */
module FtsHash {
  import opened Bytes

  type Key = seq<byte>

  /** Pointers to user data, of which 0 is none. */
  const NULL: nat := 0

  class Elem {
    var next: Elem?
    var prev: Elem?
    var data: nat
    const key: Key

    constructor (key: Key)
      ensures this.key == key
    {
      this.key := key;
      next, prev, data := null, null, NULL;
    }
  }

  /** count elements, from chain on. */
  datatype Bucket = Bucket(count: nat, chain: Elem?)

  // ----- runs of a list -----

  function Nth(L: seq<Elem>, i: int): Elem? { if 0 <= i < |L| then L[i] else null }

  ghost predicate Distinct(L: seq<Elem>) {
    forall i, j :: 0 <= i < j < |L| ==> L[i] != L[j] && L[i].key != L[j].key
  }

  predicate PowerOfTwo(n: nat) {
    n == 1 || (n > 0 && n % 2 == 0 && PowerOfTwo(n / 2))
  }

  /** hash & (size - 1), for a size that is a power of two. */
  function Bin(hash: Key -> nat, key: Key, size: nat): (h: nat)
    requires size > 0
    ensures h < size
  {
    hash(key) % size
  }

  /** The run of bucket h starts at at[h]. */
  ghost predicate InRun(ht: seq<Bucket>, at: seq<nat>, h: nat, i: nat) {
    h < |ht| == |at| && at[h] <= i < at[h] + ht[h].count
  }

  ghost predicate BucketOk(hash: Key -> nat, L: seq<Elem>, ht: seq<Bucket>, at: seq<nat>, h: nat)
    requires h < |ht| == |at|
  {
    && at[h] + ht[h].count <= |L|
    && ht[h].chain == (if ht[h].count > 0 then Nth(L, at[h]) else null)
    && forall i: nat :: i < |L| && InRun(ht, at, h, i) ==> Bin(hash, L[i].key, |ht|) == h
  }

  /** Each element lies in the run of its bucket, and the runs hold nothing else. */
  ghost predicate Buckets(hash: Key -> nat, L: seq<Elem>, ht: seq<Bucket>, at: seq<nat>) {
    && |ht| == |at| && (ht == [] ==> L == [])
    && (forall h: nat :: h < |ht| ==> BucketOk(hash, L, ht, at, h))
    && (forall i: nat :: i < |L| ==> InRun(ht, at, Bin(hash, L[i].key, |ht|), i))
  }

  /** Where insertElement puts an element of bucket h: before its run, or at the front of the list. */
  function Spot(ht: seq<Bucket>, at: seq<nat>, h: nat): nat
    requires h < |ht| == |at|
  {
    if ht[h].count > 0 then at[h] else 0
  }

  function Inserted(L: seq<Elem>, k: nat, e: Elem): (r: seq<Elem>)
    requires k <= |L|
    ensures |r| == |L| + 1
    ensures forall i :: 0 <= i < |r| ==> r[i] == if i < k then L[i] else if i == k then e else L[i - 1]
  {
    L[..k] + [e] + L[k..]
  }

  function MovedUp(at: seq<nat>, k: nat, h: nat): (r: seq<nat>)
    ensures |r| == |at|
    ensures forall g :: 0 <= g < |at| ==> r[g] == if g == h then k else if at[g] >= k then at[g] + 1 else at[g]
  {
    seq(|at|, g requires 0 <= g < |at| => if g == h then k else if at[g] >= k then at[g] + 1 else at[g])
  }

  /** The other runs do not reach across the spot. */
  lemma SpotBetween(hash: Key -> nat, L: seq<Elem>, ht: seq<Bucket>, at: seq<nat>, h: nat, g: nat)
    requires Buckets(hash, L, ht, at) && h < |ht| && g < |ht| && g != h
    ensures Spot(ht, at, h) <= |L| && (at[g] < Spot(ht, at, h) ==> at[g] + ht[g].count <= Spot(ht, at, h))
  {
    assert BucketOk(hash, L, ht, at, h) && BucketOk(hash, L, ht, at, g);
    var k := Spot(ht, at, h);
    if ht[h].count > 0 && InRun(ht, at, g, k) { assert InRun(ht, at, h, k); }
  }

  lemma InsertedBucket(hash: Key -> nat, L: seq<Elem>, ht: seq<Bucket>, at: seq<nat>, e: Elem, h: nat, g: nat)
    requires Buckets(hash, L, ht, at) && h < |ht| && h == Bin(hash, e.key, |ht|) && g < |ht|
    ensures Spot(ht, at, h) <= |L|
    ensures BucketOk(hash, Inserted(L, Spot(ht, at, h), e), ht[h := Bucket(ht[h].count + 1, e)], MovedUp(at, Spot(ht, at, h), h), g)
  {
    hide Bin;
    var k := Spot(ht, at, h);
    assert BucketOk(hash, L, ht, at, h) && BucketOk(hash, L, ht, at, g);
    if g != h { SpotBetween(hash, L, ht, at, h, g); }
    var L', ht', at' := Inserted(L, k, e), ht[h := Bucket(ht[h].count + 1, e)], MovedUp(at, k, h);
    forall i: nat | i < |L'| && InRun(ht', at', g, i) ensures Bin(hash, L'[i].key, |ht|) == g {
      if i < k { assert InRun(ht, at, g, i); } else if i > k { assert InRun(ht, at, g, i - 1); }
    }
  }

  lemma InsertedBuckets(hash: Key -> nat, L: seq<Elem>, ht: seq<Bucket>, at: seq<nat>, e: Elem, h: nat)
    requires Buckets(hash, L, ht, at) && h < |ht| && h == Bin(hash, e.key, |ht|)
    ensures Spot(ht, at, h) <= |L|
    ensures Buckets(hash, Inserted(L, Spot(ht, at, h), e), ht[h := Bucket(ht[h].count + 1, e)], MovedUp(at, Spot(ht, at, h), h))
  {
    hide Bin, BucketOk;
    InsertedBucket(hash, L, ht, at, e, h, h);
    var k := Spot(ht, at, h);
    var L', ht', at' := Inserted(L, k, e), ht[h := Bucket(ht[h].count + 1, e)], MovedUp(at, k, h);
    forall g: nat | g < |ht| ensures BucketOk(hash, L', ht', at', g) {
      InsertedBucket(hash, L, ht, at, e, h, g);
    }
    forall i: nat | i < |L'| ensures InRun(ht', at', Bin(hash, L'[i].key, |ht|), i) {
      if i != k {
        var g, j: nat := Bin(hash, L'[i].key, |ht|), if i < k then i else i - 1;
        assert InRun(ht, at, g, j);
        if g != h { SpotBetween(hash, L, ht, at, h, g); } else { assert BucketOk(hash, L, ht, at, h); }
      }
    }
  }

  function Removed(L: seq<Elem>, k: nat): (r: seq<Elem>)
    requires k < |L|
    ensures |r| == |L| - 1
    ensures forall i :: 0 <= i < |r| ==> r[i] == if i < k then L[i] else L[i + 1]
  {
    L[..k] + L[k + 1..]
  }

  function MovedDown(at: seq<nat>, k: nat): (r: seq<nat>)
    ensures |r| == |at|
    ensures forall g :: 0 <= g < |at| ==> r[g] == if at[g] > k then at[g] - 1 else at[g]
  {
    seq(|at|, g requires 0 <= g < |at| => if at[g] > k then at[g] - 1 else at[g])
  }

  /** The bucket of the k-th element without it. */
  function Fewer(L: seq<Elem>, b: Bucket, k: nat): Bucket
    requires b.count > 0 && k < |L|
  {
    Bucket(b.count - 1, if b.count == 1 then null else if b.chain == L[k] then Nth(L, k + 1) else b.chain)
  }

  lemma RemovedBucket(hash: Key -> nat, L: seq<Elem>, ht: seq<Bucket>, at: seq<nat>, k: nat, h: nat, g: nat)
    requires Buckets(hash, L, ht, at) && Distinct(L) && k < |L| && |ht| > 0 && h == Bin(hash, L[k].key, |ht|) && g < |ht|
    ensures ht[h].count > 0
    ensures BucketOk(hash, Removed(L, k), ht[h := Fewer(L, ht[h], k)], MovedDown(at, k), g)
  {
    hide Bin;
    assert InRun(ht, at, h, k);
    assert BucketOk(hash, L, ht, at, h) && BucketOk(hash, L, ht, at, g);
    if g != h && InRun(ht, at, g, k) { assert false; }
    var L', ht', at' := Removed(L, k), ht[h := Fewer(L, ht[h], k)], MovedDown(at, k);
    forall i: nat | i < |L'| && InRun(ht', at', g, i) ensures Bin(hash, L'[i].key, |ht|) == g {
      if i < k { assert InRun(ht, at, g, i); } else { assert InRun(ht, at, g, i + 1); }
    }
  }

  lemma RemovedBuckets(hash: Key -> nat, L: seq<Elem>, ht: seq<Bucket>, at: seq<nat>, k: nat, h: nat)
    requires Buckets(hash, L, ht, at) && Distinct(L) && k < |L| && |ht| > 0 && h == Bin(hash, L[k].key, |ht|)
    ensures ht[h].count > 0
    ensures Buckets(hash, Removed(L, k), ht[h := Fewer(L, ht[h], k)], MovedDown(at, k))
  {
    hide Bin, BucketOk;
    RemovedBucket(hash, L, ht, at, k, h, h);
    var L', ht', at' := Removed(L, k), ht[h := Fewer(L, ht[h], k)], MovedDown(at, k);
    forall g: nat | g < |ht| ensures BucketOk(hash, L', ht', at', g) {
      RemovedBucket(hash, L, ht, at, k, h, g);
    }
    forall i: nat | i < |L'| ensures InRun(ht', at', Bin(hash, L'[i].key, |ht|), i) {
      var j: nat := if i < k then i else i + 1;
      var g := Bin(hash, L'[i].key, |ht|);
      assert InRun(ht, at, g, j) && InRun(ht, at, h, k);
      if g != h { OneRun(hash, L, ht, at, g, h, k); }
    }
  }

  lemma OneRun(hash: Key -> nat, L: seq<Elem>, ht: seq<Bucket>, at: seq<nat>, g: nat, h: nat, k: nat)
    requires Buckets(hash, L, ht, at) && g < |ht| && h < |ht| && g != h && k < |L| && InRun(ht, at, h, k)
    ensures !InRun(ht, at, g, k)
  {
    assert BucketOk(hash, L, ht, at, g) && BucketOk(hash, L, ht, at, h);
  }

  // ----- the list in memory -----

  ghost predicate LinkOk(L: seq<Elem>, i: nat)
    requires i < |L|
    reads L`next, L`prev
  {
    L[i].next == Nth(L, i + 1) && L[i].prev == Nth(L, i - 1)
  }

  ghost predicate Linked(L: seq<Elem>, first: Elem?)
    reads L`next, L`prev
  {
    first == Nth(L, 0) && forall i: nat :: i < |L| ==> LinkOk(L, i)
  }

  /** The links once e has been put in before the k-th element. */
  ghost predicate LinkedIn(L: seq<Elem>, k: nat, e: Elem, i: nat)
    requires k <= |L| && i < |L|
    reads L, e
  {
    L[i].next == (if i + 1 == k then e else Nth(L, i + 1)) && L[i].prev == (if i == k then e else Nth(L, i - 1))
  }

  lemma NowLinked(L: seq<Elem>, k: nat, e: Elem, first: Elem?)
    requires k <= |L| && (forall i: nat :: i < |L| ==> LinkedIn(L, k, e, i))
    requires e.next == Nth(L, k) && e.prev == Nth(L, k - 1) && first == (if k == 0 then e else L[0])
    ensures Linked(Inserted(L, k, e), first)
  {
    var L' := Inserted(L, k, e);
    forall i: nat | i < |L'| ensures LinkOk(L', i) {
      assert i < k ==> LinkedIn(L, k, e, i);
      assert i > k ==> LinkedIn(L, k, e, i - 1);
    }
  }

  lemma InsertedDistinct(L: seq<Elem>, k: nat, e: Elem)
    requires Distinct(L) && k <= |L| && forall i :: 0 <= i < |L| ==> L[i] != e && L[i].key != e.key
    ensures Distinct(Inserted(L, k, e))
  {
  }

  /** The links once the k-th element has been taken out of the list. */
  ghost predicate LinkedOut(L: seq<Elem>, k: nat, i: nat)
    requires k < |L| && i < |L|
    reads L
  {
    L[i].next == Nth(L, if i + 1 == k then k + 1 else i + 1) && L[i].prev == Nth(L, if i == k + 1 then k - 1 else i - 1)
  }

  lemma NowUnlinked(L: seq<Elem>, k: nat, first: Elem?)
    requires k < |L| && (forall i: nat :: i < |L| && i != k ==> LinkedOut(L, k, i)) && first == Nth(L, if k == 0 then 1 else 0)
    ensures Linked(Removed(L, k), first)
  {
    var L' := Removed(L, k);
    forall i: nat | i < |L'| ensures LinkOk(L', i) {
      assert i < k ==> LinkedOut(L, k, i);
      assert i >= k ==> LinkedOut(L, k, i + 1);
    }
  }

  /** The elements hold the contents. */
  ghost predicate Holding(L: seq<Elem>, contents: map<Key, nat>)
    reads L`data
  {
    && (forall e :: e in L ==> e.key in contents && contents[e.key] == e.data != NULL)
    && (forall k :: k in contents ==> exists e :: e in L && e.key == k)
  }

  lemma RemovedDistinct(L: seq<Elem>, k: nat)
    requires Distinct(L) && k < |L|
    ensures Distinct(Removed(L, k))
  {
  }

  lemma NothingHeld(L: seq<Elem>, contents: map<Key, nat>)
    requires Holding(L, contents) && |L| == 0
    ensures contents == map[] && L == []
  {
  }

  lemma RemovedIn(L: seq<Elem>, k: nat)
    requires Distinct(L) && k < |L|
    ensures forall e :: e in Removed(L, k) ==> e in L && e.key != L[k].key
    ensures forall e :: e in L && e != L[k] ==> e in Removed(L, k)
  {
    var L' := Removed(L, k);
    forall e | e in L' ensures e in L && e.key != L[k].key {
      var i: nat :| i < |L'| && L'[i] == e;
    }
    forall e | e in L && e != L[k] ensures e in L' {
      var i: nat :| i < |L| && L[i] == e;
      assert L'[if i < k then i else i - 1] == e;
    }
  }

  lemma RemovedHolding(L: seq<Elem>, contents: map<Key, nat>, k: nat)
    requires Distinct(L) && Holding(L, contents) && k < |L|
    ensures Holding(Removed(L, k), contents - {L[k].key})
  {
    hide Removed, Distinct;
    RemovedIn(L, k);
    forall x | x in contents && x != L[k].key ensures exists e :: e in Removed(L, k) && e.key == x {
      var e :| e in L && e.key == x;
      assert e != L[k];
    }
  }

  lemma Eight()
    ensures PowerOfTwo(8)
  {
    assert PowerOfTwo(4) && PowerOfTwo(2);
  }

  lemma KeysAre(L: seq<Elem>, m: map<Key, nat>, key: Key)
    requires Holding(L, m) && key !in m
    ensures forall i :: 0 <= i < |L| ==> L[i].key != key
  {
  }

  lemma SameHolding(L: seq<Elem>, M: seq<Elem>, m: map<Key, nat>)
    requires Holding(L, m) && SameMembers(M, L)
    ensures Holding(M, m)
  {
  }

  lemma StillNew(L: seq<Elem>, M: seq<Elem>, e: Elem)
    requires SameMembers(M, L) && forall i :: 0 <= i < |L| ==> L[i] != e && L[i].key != e.key
    ensures forall i :: 0 <= i < |M| ==> M[i] in L && M[i] != e && M[i].key != e.key
  {
    forall i | 0 <= i < |M| ensures M[i] in L && M[i] != e && M[i].key != e.key {
      assert M[i] in M;
    }
  }

  lemma OneMore(L: seq<Elem>, M: seq<Elem>, M': seq<Elem>, e: Elem)
    requires SameMembers(M, L) && exists k: nat :: k <= |M| && M' == Inserted(M, k, e)
    ensures SameMembers(M', L + [e])
  {
    var k: nat :| k <= |M| && M' == Inserted(M, k, e);
    assert M' == M[..k] + [e] + M[k..] && M == M[..k] + M[k..];
  }

  lemma MembersOf(M: seq<Elem>, L: seq<Elem>, e: Elem)
    requires SameMembers(M, L + [e])
    ensures forall x :: x in M ==> x in L || x == e
  {
  }

  lemma AppendedHolding(L: seq<Elem>, e: Elem, m: map<Key, nat>)
    requires Holding(L, m) && e.key !in m && e.data != NULL
    ensures Holding(L + [e], m[e.key := e.data])
  {
    assert e in L + [e];
  }

  /** The number of buckets once one element more is in the table: 8 at first, and twice as many where there would be more elements. */
  function Room(count: nat, htsize: nat): nat {
    if htsize == 0 then 8 else if count + 1 > htsize then htsize * 2 else htsize
  }

  class Fts1Hash {
    /** strHash or binHash. */
    const xHash: Key -> nat

    var count: nat
    var first: Elem?
    var htsize: nat
    var ht: seq<Bucket>
    /** The elements in list order, where each bucket's run starts, and what the table maps keys to. */
    ghost var L: seq<Elem>
    ghost var at: seq<nat>
    ghost var contents: map<Key, nat>

    ghost predicate Shape()
      reads this, L`next, L`prev
    {
      Distinct(L) && Linked(L, first) && |ht| == |at| == htsize && Buckets(xHash, L, ht, at)
    }

    ghost predicate Valid()
      reads this, L
    {
      Shape() && Holding(L, contents) && count == |L| <= htsize && (htsize == 0 || PowerOfTwo(htsize)) && (count == 0 <==> htsize == 0)
    }

    constructor (xHash: Key -> nat)
      ensures Valid() && contents == map[] && this.xHash == xHash
    {
      this.xHash := xHash;
      count, first, htsize, ht := 0, null, 0, [];
      L, at, contents := [], [], map[];
    }

    /** Links pNew into the bucket of its key. */
    method InsertElement(h: nat, pNew: Elem)
      requires Shape() && h < htsize && h == Bin(xHash, pNew.key, htsize)
      requires forall i :: 0 <= i < |L| ==> L[i] != pNew && L[i].key != pNew.key
      modifies this`first, this`ht, this`L, this`at, L`next, L`prev, pNew`next, pNew`prev
      ensures Shape() && htsize == |ht| == |old(ht)|
      ensures Spot(old(ht), old(at), h) <= |old(L)| && L == Inserted(old(L), Spot(old(ht), old(at), h), pNew)
    {
      hide Buckets, Bin, Linked;
      ghost var k, was := Spot(ht, at, h), L;
      InsertedBuckets(xHash, L, ht, at, pNew, h);
      HeadIs(h);
      LinkBefore(ht[h].chain, pNew, k);
      InsertedDistinct(was, k, pNew);
      L, at := Inserted(L, k, pNew), MovedUp(at, k, h);
      ht := ht[h := Bucket(ht[h].count + 1, pNew)];
    }

    /** Puts pNew before pHead, or at the front of the list if that is null. */
    method LinkBefore(pHead: Elem?, pNew: Elem, ghost k: nat)
      requires Distinct(L) && Linked(L, first) && k <= |L| && pNew !in L && pHead == (if k < |L| && pHead != null then L[k] else null)
      requires pHead == null ==> k == 0
      modifies this`first, L`next, L`prev, pNew`next, pNew`prev
      ensures Linked(Inserted(L, k, pNew), first)
    {
      assert k < |L| ==> LinkOk(L, k);
      assert k > 0 ==> LinkOk(L, k - 1);
      if pHead != null {
        pNew.next := pHead;
        pNew.prev := pHead.prev;
        if pHead.prev != null { pHead.prev.next := pNew; } else { first := pNew; }
        pHead.prev := pNew;
      } else {
        pNew.next := first;
        if first != null { first.prev := pNew; }
        pNew.prev := null;
        first := pNew;
      }
      forall i: nat | i < |L| ensures LinkedIn(L, k, pNew, i) {
        assert old(LinkOk(L, i));
      }
      NowLinked(L, k, pNew, first);
    }

    lemma HeadIs(h: nat)
      requires Shape() && h < htsize
      ensures |at| == htsize && ht[h].chain == (if ht[h].count > 0 then Nth(L, at[h]) else null)
      ensures ht[h].count > 0 ==> at[h] < |L|
    {
      assert BucketOk(xHash, L, ht, at, h);
    }

    /** Takes the k-th element out of the list. */
    method Unlink(elem: Elem, ghost k: nat)
      requires Distinct(L) && Linked(L, first) && k < |L| && elem == L[k]
      modifies this`first, L`next, L`prev
      ensures Linked(Removed(L, k), first)
    {
      assert LinkOk(L, k);
      if elem.prev != null {
        elem.prev.next := elem.next;
      } else {
        first := elem.next;
      }
      if elem.next != null {
        elem.next.prev := elem.prev;
      }
      forall i: nat | i < |L| && i != k ensures LinkedOut(L, k, i) {
        assert old(LinkOk(L, i));
      }
      NowUnlinked(L, k, first);
    }

    /** Takes the k-th element out of the list and its bucket. */
    method TakeOut(elem: Elem, h: nat, ghost k: nat)
      requires Shape() && k < |L| && elem == L[k] && htsize > 0 && h == Bin(xHash, elem.key, htsize)
      modifies this`first, this`ht, this`L, this`at, L`next, L`prev
      ensures Shape() && L == Removed(old(L), k) && htsize == old(htsize)
    {
      hide Buckets, Bin, Linked, Distinct, Removed, MovedDown;
      RemovedBuckets(xHash, L, ht, at, k, h);
      RemovedDistinct(L, k);
      InListNext(k);
      var next := elem.next;
      Unlink(elem, k);
      var pEntry := ht[h];
      var chain := if pEntry.chain == elem then next else pEntry.chain;
      ht := ht[h := Bucket(pEntry.count - 1, if pEntry.count - 1 <= 0 then null else chain)];
      L, at := Removed(L, k), MovedDown(at, k);
    }

    /** removeElementGivenHash. */
    method RemoveElement(elem: Elem, h: nat, ghost k: nat)
      requires Valid() && k < |L| && elem == L[k] && htsize > 0 && h == Bin(xHash, elem.key, htsize)
      modifies this`first, this`ht, this`htsize, this`count, this`L, this`at, this`contents, L`next, L`prev
      ensures Valid() && contents == old(contents) - {elem.key} && L == Removed(old(L), k) && count == old(count) - 1
      ensures htsize == if count == 0 then 0 else old(htsize)
    {
      hide Buckets, Bin, Linked, Distinct, Removed, Holding;
      ghost var left, m := Removed(L, k), contents - {elem.key};
      RemovedHolding(L, contents, k);
      assert Holding(left, m);
      TakeOut(elem, h, k);
      assert Holding(left, m);
      contents := contents - {elem.key};
      count := count - 1;
      if count == 0 {
        NothingHeld(L, contents);
        Clear();
      }
    }

    lemma InListNext(k: nat)
      requires Shape() && k < |L|
      ensures L[k].next == Nth(L, k + 1)
    {
      assert LinkOk(L, k);
    }

    /** sqlite3Fts1HashClear. */
    method Clear()
      requires Linked(L, first)
      modifies this`first, this`ht, this`htsize, this`count, this`L, this`at, this`contents
      ensures Valid() && contents == map[] && L == [] && htsize == 0
    {
      var elem := first;
      first := null;
      ht, htsize := [], 0;
      ghost var i := 0;
      while elem != null
        invariant i <= |L| && elem == Nth(L, i)
        decreases |L| - i
      {
        assert LinkOk(L, i);
        elem := elem.next;
        i := i + 1;
      }
      count := 0;
      L, at, contents := [], [], map[];
    }

    /** Puts all elements into new_size buckets. */
    method Rehash(newSize: nat)
      requires Shape() && newSize > 0
      modifies this`first, this`ht, this`htsize, this`L, this`at, L`next, L`prev
      ensures Shape() && htsize == newSize && |L| == |old(L)| && SameMembers(L, old(L))
    {
      hide Buckets, Bin, Distinct, Linked, SameMembers;
      ghost var was, j := L, 0;
      ShapeLinks();
      var elem := first;
      ht, htsize, first := seq(newSize, _ => Bucket(0, null)), newSize, null;
      L, at := [], seq(newSize, _ => 0);
      NoBuckets(xHash, ht, at);
      NothingYet(was);
      while elem != null
        invariant Shape() && htsize == newSize && j <= |was| && elem == Nth(was, j) && |L| == j && SameMembers(L, was[..j])
        invariant forall i: nat :: j <= i < |was| ==> LinkOk(was, i)
        decreases |was| - j
      {
        assert LinkOk(was, j);
        var nextElem := elem.next;
        ghost var now := L;
        Apart(was, j, L);
        label Before:
        InsertElement(Bin(xHash, elem.key, htsize), elem);
        forall i: nat | j < i < |was| ensures LinkOk(was, i) {
          assert was[i] !in now && was[i] != elem;
          assert old@Before(LinkOk(was, i));
        }
        MoreMembers(was, j, now, L, elem);
        elem := nextElem;
        j := j + 1;
      }
      assert was[..j] == was;
    }

    /** findElementGivenHash. */
    method FindElement(pKey: Key, h: nat) returns (elem: Elem?, ghost k: nat)
      requires Shape() && (htsize > 0 ==> h == Bin(xHash, pKey, htsize))
      ensures if elem == null then forall e :: e in L ==> e.key != pKey else k < |L| && elem == L[k] && elem.key == pKey && htsize > 0
    {
      k := 0;
      if htsize == 0 { return null, 0; }
      HeadIs(h);
      InBucket(h, pKey);
      elem := ht[h].chain;
      var n := ht[h].count;
      k := at[h];
      while n > 0 && elem != null
        invariant n <= ht[h].count && k == at[h] + ht[h].count - n && (n > 0 ==> elem == Nth(L, k))
        invariant k <= |L| && forall i: nat :: at[h] <= i < k ==> L[i].key != pKey
      {
        n := n - 1;
        if elem.key == pKey { return; }
        assert LinkOk(L, k);
        elem := elem.next;
        k := k + 1;
      }
      elem := null;
      forall e | e in L ensures e.key != pKey {
        var i: nat :| i < |L| && L[i] == e;
      }
    }

    lemma InBucket(h: nat, pKey: Key)
      requires Shape() && htsize > 0 && h == Bin(xHash, pKey, htsize)
      ensures |at| == htsize && at[h] + ht[h].count <= |L|
      ensures forall i: nat :: i < |L| && L[i].key == pKey ==> at[h] <= i < at[h] + ht[h].count
    {
      assert BucketOk(xHash, L, ht, at, h);
      forall i: nat | i < |L| && L[i].key == pKey ensures at[h] <= i < at[h] + ht[h].count {
        assert InRun(ht, at, Bin(xHash, L[i].key, |ht|), i);
      }
    }

    /** sqlite3Fts1HashFind. */
    method Find(pKey: Key) returns (data: nat)
      requires Valid()
      ensures data == if pKey in contents then contents[pKey] else NULL
    {
      if htsize == 0 { return NULL; }
      var elem, k := FindElement(pKey, Bin(xHash, pKey, htsize));
      data := if elem != null then elem.data else NULL;
    }

    lemma CountOf()
      requires Valid()
      ensures count == 0 <==> contents == map[]
    {
      if count > 0 { assert L[0].key in contents; }
      if count == 0 { forall k ensures k !in contents {} }
    }

    /** sqlite3Fts1HashInsert. */
    method Insert(pKey: Key, data: nat) returns (oldData: nat)
      requires Valid()
      modifies this, L
      ensures Valid() && forall e :: e in L ==> e in old(L) || fresh(e)
      ensures contents == if data == NULL then old(contents) - {pKey} else old(contents)[pKey := data]
      ensures oldData == if pKey in old(contents) then old(contents)[pKey] else NULL
      ensures htsize == if contents == map[] then 0 else if count > old(count) then Room(old(count), old(htsize)) else old(htsize)
    {
      hide Buckets, Linked, Distinct, PowerOfTwo, Bin;
      CountOf();
      var h := if htsize == 0 then 0 else Bin(xHash, pKey, htsize);
      var elem, k := FindElement(pKey, h);
      if elem != null {
        oldData := elem.data;
        if data == NULL {
          RemoveElement(elem, h, k);
        } else {
          Replace(elem, data, k);
        }
      } else {
        NotThere(pKey);
        oldData := NULL;
        if data != NULL {
          InsertNew(pKey, data);
        }
      }
      CountOf();
    }

    /** The element's data are replaced. */
    method Replace(elem: Elem, data: nat, ghost k: nat)
      requires Valid() && k < |L| && elem == L[k] && data != NULL
      modifies elem`data, this`contents
      ensures Valid() && contents == old(contents)[elem.key := data] && L == old(L)
    {
      hide Buckets, PowerOfTwo;
      elem.data := data;
      contents := contents[elem.key := data];
      forall e | e in L ensures e.key in contents && contents[e.key] == e.data != NULL {
        var i: nat :| i < |L| && L[i] == e;
        if i != k { assert e.key != elem.key && e != elem; }
      }
    }

    lemma NotThere(pKey: Key)
      requires Valid() && forall e :: e in L ==> e.key != pKey
      ensures pKey !in contents
    {
    }

    /** Gives the table room for the element that has just been counted. */
    method Grow()
      requires Shape() && count == |L| + 1 <= htsize + 1 && (htsize == 0 || PowerOfTwo(htsize))
      modifies this`first, this`ht, this`htsize, this`L, this`at, L`next, L`prev
      ensures Shape() && |L| == |old(L)| < htsize && PowerOfTwo(htsize) && SameMembers(L, old(L)) && htsize == Room(count - 1, old(htsize))
    {
      hide Buckets, Distinct, Linked;
      if htsize == 0 {
        Eight();
        Rehash(8);
      }
      if count > htsize {
        Rehash(htsize * 2);
      }
    }

    /** Links an element that has just been counted into the table, which grows before it holds more elements than buckets. */
    method Link(newElem: Elem)
      requires Shape() && count == |L| + 1 <= htsize + 1 && (htsize == 0 || PowerOfTwo(htsize))
      requires forall i :: 0 <= i < |L| ==> L[i] != newElem && L[i].key != newElem.key
      modifies this`first, this`ht, this`htsize, this`L, this`at, L`next, L`prev, newElem`next, newElem`prev
      ensures Shape() && |L| == |old(L)| + 1 <= htsize && PowerOfTwo(htsize) && SameMembers(L, old(L) + [newElem])
      ensures htsize == Room(count - 1, old(htsize))
    {
      hide Buckets, Linked, Distinct, SameMembers, PowerOfTwo;
      ghost var was := L;
      Grow();
      ghost var grown := L;
      StillNew(was, grown, newElem);
      InsertElement(Bin(xHash, newElem.key, htsize), newElem);
      OneMore(was, grown, L, newElem);
    }

    method InsertNew(pKey: Key, data: nat)
      requires Valid() && pKey !in contents && data != NULL
      modifies this`first, this`ht, this`htsize, this`count, this`L, this`at, this`contents, L`next, L`prev
      ensures Valid() && contents == old(contents)[pKey := data] && count == old(count) + 1 && htsize == Room(old(count), old(htsize))
      ensures forall e :: e in L ==> e in old(L) || fresh(e)
    {
      hide Buckets, Linked, Distinct, Holding, PowerOfTwo, SameMembers;
      ghost var was, m := L, contents;
      KeysAre(was, m, pKey);
      var newElem := new Elem(pKey);
      count := count + 1;
      Link(newElem);
      newElem.data := data;
      contents := contents[pKey := data];
      assert Holding(was, m);
      AppendedHolding(was, newElem, m);
      SameHolding(was + [newElem], L, contents);
      MembersOf(L, was, newElem);
    }

    lemma ShapeLinks()
      requires Shape()
      ensures first == Nth(L, 0) && forall i: nat :: i < |L| ==> LinkOk(L, i)
    {
    }
  }

  ghost predicate SameMembers(L: seq<Elem>, M: seq<Elem>) {
    (forall e :: e in L ==> e in M) && (forall e :: e in M ==> e in L)
  }

  lemma NothingYet(was: seq<Elem>)
    ensures SameMembers([], was[..0]) && Distinct([]) && Linked([], null)
  {
  }

  /** The elements still to come are not among those put in. */
  lemma Apart(was: seq<Elem>, j: nat, L: seq<Elem>)
    requires Distinct(was) && j < |was| && SameMembers(L, was[..j])
    ensures forall i :: 0 <= i < |L| ==> L[i] in was && L[i] != was[j] && L[i].key != was[j].key
    ensures forall k :: j <= k < |was| ==> was[k] !in L && (k > j ==> was[k] != was[j])
  {
    forall i | 0 <= i < |L| ensures exists k :: 0 <= k < j && L[i] == was[k] {
      assert L[i] in was[..j];
    }
  }

  lemma MoreMembers(was: seq<Elem>, j: nat, L: seq<Elem>, L': seq<Elem>, e: Elem)
    requires j < |was| && SameMembers(L, was[..j]) && e == was[j] && exists k: nat :: k <= |L| && L' == Inserted(L, k, e)
    ensures |L'| == |L| + 1 && SameMembers(L', was[..j + 1])
  {
    var k: nat :| k <= |L| && L' == Inserted(L, k, e);
    assert was[..j + 1] == was[..j] + [e];
    assert L' == L[..k] + [e] + L[k..] && L == L[..k] + L[k..];
    assert L'[k] == e;
    forall x | x in L ensures x in L' {
      assert x in L[..k] || x in L[k..];
    }
  }

  lemma NoBuckets(hash: Key -> nat, ht: seq<Bucket>, at: seq<nat>)
    requires |ht| == |at| && forall h: nat :: h < |ht| ==> ht[h] == Bucket(0, null) && at[h] == 0
    ensures Buckets(hash, [], ht, at)
  {
  }
}
