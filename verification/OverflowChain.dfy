/** Bytes spread over a chain of overflow pages: each page holds the number of the next in its first four bytes. */
module OverflowChain {
  import opened Bytes

  function Min(a: nat, b: nat): nat { if a < b then a else b }

  /** The pages of the chain hold the bytes, size to a page, the last one perhaps fewer. */
  ghost predicate Holds(page: map<nat, seq<byte>>, chain: seq<nat>, size: nat, bytes: seq<byte>)
    decreases |chain|
  {
    if chain == [] then bytes == []
    else
      var k := Min(size, |bytes|);
      && k > 0 && chain[0] in page && |page[chain[0]]| >= size + 4
      && Get4(page[chain[0]], 0) == First(chain[1..])
      && page[chain[0]][4..4 + k] == bytes[..k]
      && Holds(page, chain[1..], size, bytes[k..])
  }

  function First(chain: seq<nat>): nat { if chain == [] then 0 else chain[0] }

  ghost predicate NoPageTwice(chain: seq<nat>) { forall i, j :: 0 <= i < j < |chain| ==> chain[i] != chain[j] }

  /** Other pages do not matter. */
  lemma {:induction false} HoldsFrame(page: map<nat, seq<byte>>, page': map<nat, seq<byte>>, chain: seq<nat>, size: nat, bytes: seq<byte>)
    requires Holds(page, chain, size, bytes) && forall i :: 0 <= i < |chain| && chain[i] in page ==> chain[i] in page' && page'[chain[i]] == page[chain[i]]
    ensures Holds(page', chain, size, bytes)
    decreases |chain|
  {
    if chain != [] { HoldsFrame(page, page', chain[1..], size, bytes[Min(size, |bytes|)..]); }
  }

  /** The part of the chain from page i on. */
  lemma {:induction false} HoldsFrom(page: map<nat, seq<byte>>, chain: seq<nat>, size: nat, bytes: seq<byte>, i: nat)
    requires Holds(page, chain, size, bytes) && i < |chain|
    ensures Pos(i, size) < |bytes| && Holds(page, chain[i..], size, bytes[Pos(i, size)..])
    decreases i
  {
    if i == 0 {
      assert chain[0..] == chain && bytes[0..] == bytes;
    } else {
      HoldsFrom(page, chain[1..], size, bytes[Min(size, |bytes|)..], i - 1);
      assert chain[1..][i - 1..] == chain[i..];
      assert |bytes| >= size;
      assert bytes[size..][Pos(i - 1, size)..] == bytes[Pos(i, size)..];
    }
  }

  /** Bytes on the first i pages of a chain, all full. */
  function Pos(i: nat, size: nat): nat { if i == 0 then 0 else size + Pos(i - 1, size) }

  lemma {:induction false} PosIs(i: nat, size: nat)
    ensures Pos(i, size) == i * size
  {
    if i > 0 { PosIs(i - 1, size); }
  }

  /** A chain is as long as its bytes need. */
  lemma {:induction false} ChainLength(page: map<nat, seq<byte>>, chain: seq<nat>, size: nat, bytes: seq<byte>)
    requires Holds(page, chain, size, bytes) && size > 0
    ensures (|bytes| + size - 1) / size == |chain|
    decreases |chain|
  {
    if chain == [] {
      Quotient(size - 1, size, 0);
    } else {
      ChainLength(page, chain[1..], size, bytes[Min(size, |bytes|)..]);
      if |bytes| <= size {
        assert chain[1..] == [] by { assert bytes[Min(size, |bytes|)..] == []; HoldsNothing(page, chain[1..], size); }
        Quotient(|bytes| + size - 1, size, 1);
      } else {
        QuotientStep(|bytes| - 1, size);
      }
    }
  }

  lemma HoldsNothing(page: map<nat, seq<byte>>, chain: seq<nat>, size: nat)
    requires Holds(page, chain, size, [])
    ensures chain == []
  {
  }

  lemma Quotient(a: nat, m: nat, q: nat)
    requires m > 0 && q * m <= a < q * m + m
    ensures a / m == q
  {
    assert a == a / m * m + a % m;
    if a / m < q { Mono(a / m + 1, q, m); }
    if a / m > q { Mono(q + 1, a / m, m); }
  }

  lemma Mono(a: nat, b: nat, m: nat)
    requires a <= b
    ensures a * m <= b * m
  {
  }

  lemma QuotientStep(a: nat, m: nat)
    requires m > 0
    ensures (a + m) / m == a / m + 1
  {
    Quotient(a + m, m, a / m + 1);
  }

  // ----- overwriting -----

  lemma OverSlice(a: seq<byte>, lo: nat, hi: nat, p: nat, s: seq<byte>)
    requires lo <= hi <= |a| && p + |s| <= hi - lo
    ensures Over(a, lo + p, s)[lo..hi] == Over(a[lo..hi], p, s)
    ensures lo >= 4 ==> Get4(Over(a, lo + p, s), 0) == Get4(a, 0)
    ensures Over(a, lo + p, s)[hi..] == a[hi..]
  {
  }

  lemma OverTail(a: seq<byte>, k: nat, p: nat, s: seq<byte>)
    requires k <= p && p + |s| <= |a|
    ensures Over(a, p, s)[..k] == a[..k] && Over(a, p, s)[k..] == Over(a[k..], p - k, s)
  {
    assert a[k..][..p - k] == a[k..p] && a[k..][p - k + |s|..] == a[p + |s|..];
    assert a[..p] == a[..k] + a[k..p];
    Assoc3(a[..k], a[k..p], s, a[p + |s|..]);
  }

  lemma Assoc3(a: seq<byte>, b: seq<byte>, c: seq<byte>, d: seq<byte>)
    ensures a + b + c + d == a + (b + c + d)
    ensures (a + (b + c + d))[..|a|] == a && (a + (b + c + d))[|a|..] == b + c + d
  {
  }

  lemma OverFirst(page: map<nat, seq<byte>>, chain: seq<nat>, size: nat, bytes: seq<byte>, off: nat, s: seq<byte>)
    requires Holds(page, chain, size, bytes) && NoPageTwice(chain) && chain != [] && off + |s| <= size && off + |s| <= |bytes|
    ensures chain[0] in page && 4 + off + |s| <= |page[chain[0]]|
    ensures Holds(page[chain[0] := Over(page[chain[0]], 4 + off, s)], chain, size, Over(bytes, off, s))
  {
    hide Get4;
    var k := Min(size, |bytes|);
    var p := page[chain[0]];
    var page' := page[chain[0] := Over(p, 4 + off, s)];
    OverSlice(p, 4, 4 + k, off, s);
    OverSlice(bytes, 0, k, off, s);
    assert bytes[0..k] == bytes[..k] && Over(bytes, 0 + off, s)[0..k] == Over(bytes, off, s)[..k];
    HoldsFrame(page, page', chain[1..], size, bytes[k..]);
  }

  /** The chain without its first page, which is full when there is a byte on page i. */
  lemma TailPos(page: map<nat, seq<byte>>, chain: seq<nat>, size: nat, bytes: seq<byte>, i: nat, n: nat)
    requires Holds(page, chain, size, bytes) && NoPageTwice(chain) && 0 < i < |chain| && Pos(i, size) + n <= |bytes|
    ensures Min(size, |bytes|) == size && Pos(i, size) == size + Pos(i - 1, size)
    ensures Holds(page, chain[1..], size, bytes[size..]) && NoPageTwice(chain[1..]) && chain[0] in page
  {
  }

  /** Overwriting bytes that lie on page i of the chain. */
  lemma {:induction false} HoldsOver(page: map<nat, seq<byte>>, chain: seq<nat>, size: nat, bytes: seq<byte>, i: nat, off: nat, s: seq<byte>)
    requires Holds(page, chain, size, bytes) && NoPageTwice(chain) && i < |chain| && off + |s| <= size && Pos(i, size) + off + |s| <= |bytes|
    ensures chain[i] in page && 4 + off + |s| <= |page[chain[i]]|
    ensures Holds(page[chain[i] := Over(page[chain[i]], 4 + off, s)], chain, size, Over(bytes, Pos(i, size) + off, s))
    decreases i
  {
    if i == 0 {
      OverFirst(page, chain, size, bytes, off, s);
    } else {
      var k := Min(size, |bytes|);
      hide Get4, Over, Holds;
      TailPos(page, chain, size, bytes, i, off + |s|);
      HoldsOver(page, chain[1..], size, bytes[k..], i - 1, off, s);
      assert chain[1..][i - 1] == chain[i] != chain[0];
      OverTail(bytes, k, Pos(i, size) + off, s);
      FirstKept(page, page[chain[i] := Over(page[chain[i]], 4 + off, s)], chain, size, bytes, Over(bytes, Pos(i, size) + off, s));
    }
  }

  /** The first page of the chain is as before. */
  lemma FirstKept(page: map<nat, seq<byte>>, page': map<nat, seq<byte>>, chain: seq<nat>, size: nat, bytes: seq<byte>, bytes': seq<byte>)
    requires Holds(page, chain, size, bytes) && chain != [] && chain[0] in page && chain[0] in page' && page'[chain[0]] == page[chain[0]]
    requires Min(size, |bytes'|) == Min(size, |bytes|) && bytes'[..Min(size, |bytes|)] == bytes[..Min(size, |bytes|)]
    requires Holds(page', chain[1..], size, bytes'[Min(size, |bytes|)..])
    ensures Holds(page', chain, size, bytes')
  {
  }

  // ----- growing -----

  lemma HoldsOne(page: map<nat, seq<byte>>, chain: seq<nat>, size: nat, bytes: seq<byte>)
    requires Holds(page, chain, size, bytes) && |chain| == 1
    ensures |bytes| <= size && chain[0] in page && |page[chain[0]]| >= size + 4 && Get4(page[chain[0]], 0) == 0
    ensures page[chain[0]][4..4 + |bytes|] == bytes
  {
    var k := Min(size, |bytes|);
    assert chain[1..] == [];
    assert bytes[k..] == [];
    assert bytes[..k] == bytes;
  }

  lemma MoreOnOne(page: map<nat, seq<byte>>, chain: seq<nat>, size: nat, bytes: seq<byte>, s: seq<byte>)
    requires Holds(page, chain, size, bytes) && |chain| == 1 && |bytes| + |s| <= size
    ensures var l := chain[0];
      && l in page && 4 + |bytes| + |s| <= |page[l]|
      && Holds(page[l := Over(page[l], 4 + |bytes|, s)], chain, size, bytes + s)
  {
    hide Get4;
    var l := chain[0];
    HoldsOne(page, chain, size, bytes);
    var p, len := page[l], |bytes|;
    OverSlice(p, 4, 4 + len + |s|, len, s);
    assert Over(p[4..4 + len + |s|], len, s) == p[4..4 + len] + s;
    assert chain == [l];
    NewPage(page[l := Over(p, 4 + len, s)], l, size, bytes + s);
  }

  /** More bytes on the last page. */
  lemma {:induction false} HoldsMore(page: map<nat, seq<byte>>, chain: seq<nat>, size: nat, bytes: seq<byte>, s: seq<byte>, len: nat)
    requires Holds(page, chain, size, bytes) && NoPageTwice(chain) && chain != [] && |bytes| == Pos(|chain| - 1, size) + len && len + |s| <= size
    ensures var l := chain[|chain| - 1];
      && l in page && 4 + len + |s| <= |page[l]|
      && Holds(page[l := Over(page[l], 4 + len, s)], chain, size, bytes + s)
    decreases |chain|
  {
    var l, k := chain[|chain| - 1], Min(size, |bytes|);
    if |chain| == 1 {
      MoreOnOne(page, chain, size, bytes, s);
    } else {
      HoldsMore(page, chain[1..], size, bytes[k..], s, len);
      hide Get4, Over;
      assert chain[1..][|chain| - 2] == l != chain[0];
      AppendSlices(bytes, s, k);
      FirstKept(page, page[l := Over(page[l], 4 + len, s)], chain, size, bytes, bytes + s);
    }
  }

  lemma {:induction false} LastIn(page: map<nat, seq<byte>>, chain: seq<nat>, size: nat, bytes: seq<byte>)
    requires Holds(page, chain, size, bytes) && chain != []
    ensures chain[|chain| - 1] in page && |page[chain[|chain| - 1]]| >= size + 4
    decreases |chain|
  {
    if |chain| > 1 { LastIn(page, chain[1..], size, bytes[Min(size, |bytes|)..]); }
  }

  lemma AppendSlices(bytes: seq<byte>, s: seq<byte>, k: nat)
    requires k <= |bytes|
    ensures (bytes + s)[..k] == bytes[..k] && (bytes + s)[k..] == bytes[k..] + s
  {
  }

  /** The pages once page new_ follows page l. */
  function Linked(page: map<nat, seq<byte>>, l: nat, new_: nat, content: seq<byte>): map<nat, seq<byte>>
    requires l in page && |page[l]| >= 4
  {
    page[l := Put4(page[l], 0, new_)][new_ := content]
  }

  lemma AppendToOne(page: map<nat, seq<byte>>, chain: seq<nat>, size: nat, bytes: seq<byte>, new_: nat, content: seq<byte>, s: seq<byte>)
    requires Holds(page, chain, size, bytes) && |chain| == 1 && |bytes| == size
    requires new_ !in chain && 0 < new_ < 0x1_0000_0000 && 0 < |s| <= size
    requires |content| >= size + 4 && Get4(content, 0) == 0 && content[4..4 + |s|] == s
    ensures chain[0] in page && |page[chain[0]]| >= 4
    ensures Holds(Linked(page, chain[0], new_, content), chain + [new_], size, bytes + s)
  {
    hide Get4;
    var l := chain[0];
    HoldsOne(page, chain, size, bytes);
    var page' := Linked(page, l, new_, content);
    Get4Put4(page[l], 0, new_);
    assert (chain + [new_])[1..] == [new_] && (chain + [new_])[0] == l;
    assert Put4(page[l], 0, new_)[4..4 + size] == page[l][4..4 + size];
    AppendSlices(bytes, s, size);
    assert bytes[..size] == bytes && bytes[size..] == [] && [] + s == s;
    NewPage(page', new_, size, s);
  }

  /** One more page after a full last one. */
  lemma {:induction false} HoldsAppend(page: map<nat, seq<byte>>, chain: seq<nat>, size: nat, bytes: seq<byte>, new_: nat, content: seq<byte>, s: seq<byte>)
    requires Holds(page, chain, size, bytes) && NoPageTwice(chain) && chain != [] && |bytes| == Pos(|chain|, size)
    requires new_ !in chain && 0 < new_ < 0x1_0000_0000 && 0 < |s| <= size
    requires |content| >= size + 4 && Get4(content, 0) == 0 && content[4..4 + |s|] == s
    ensures var l := chain[|chain| - 1];
      l in page && |page[l]| >= 4 && Holds(Linked(page, l, new_, content), chain + [new_], size, bytes + s)
    decreases |chain|
  {
    var l, k := chain[|chain| - 1], Min(size, |bytes|);
    LastIn(page, chain, size, bytes);
    if |chain| == 1 {
      AppendToOne(page, chain, size, bytes, new_, content, s);
    } else {
      HoldsAppend(page, chain[1..], size, bytes[k..], new_, content, s);
      hide Get4, Put4;
      assert chain[1..][|chain| - 2] == l != chain[0];
      assert (chain + [new_])[1..] == chain[1..] + [new_];
      AppendSlices(bytes, s, k);
    }
  }

  /** A chain of one page. */
  lemma NewPage(page: map<nat, seq<byte>>, p: nat, size: nat, s: seq<byte>)
    requires p in page && 0 < |s| <= size && |page[p]| >= size + 4 && Get4(page[p], 0) == 0 && page[p][4..4 + |s|] == s
    ensures Holds(page, [p], size, s)
  {
    assert [p][1..] == [];
    assert s[..|s|] == s && s[|s|..] == [];
    assert Holds(page, [], size, []);
  }

  // ----- reading -----

  /** Which page follows page i of the chain. */
  lemma PageOfChain(page: map<nat, seq<byte>>, chain: seq<nat>, size: nat, bytes: seq<byte>, i: nat)
    requires Holds(page, chain, size, bytes) && i < |chain|
    ensures chain[i] in page && |page[chain[i]]| >= size + 4 && Get4(page[chain[i]], 0) == if i + 1 < |chain| then chain[i + 1] else 0
    ensures Pos(i, size) < |bytes| && (i + 1 < |chain| ==> Pos(i + 1, size) < |bytes|) && (i + 1 == |chain| ==> |bytes| <= Pos(i + 1, size))
  {
    HoldsFrom(page, chain, size, bytes, i);
    if i + 1 < |chain| { HoldsFrom(page, chain, size, bytes, i + 1); }
    hide Get4;
    assert chain[i..][0] == chain[i] && chain[i..][1..] == chain[i + 1..];
    if i + 1 == |chain| { HoldsOne(page, chain[i..], size, bytes[Pos(i, size)..]); }
  }

  lemma SliceOfSlice<T>(a: seq<T>, lo: nat, hi: nat, p: nat, n: nat)
    requires lo <= hi <= |a| && lo + p + n <= hi
    ensures a[lo..hi][p..p + n] == a[lo + p..lo + p + n]
  {
    var x, y := a[lo..hi][p..p + n], a[lo + p..lo + p + n];
    assert |x| == |y|;
    forall j | 0 <= j < n ensures x[j] == y[j] { assert a[lo..hi][p + j] == a[lo + p + j]; }
  }

  /** What page i of the chain holds. */
  lemma BytesOfChain(page: map<nat, seq<byte>>, chain: seq<nat>, size: nat, bytes: seq<byte>, i: nat, off: nat, n: nat)
    requires Holds(page, chain, size, bytes) && i < |chain| && off + n <= size && Pos(i, size) + off + n <= |bytes|
    ensures chain[i] in page && |page[chain[i]]| >= size + 4
    ensures page[chain[i]][4 + off..4 + off + n] == bytes[Pos(i, size) + off..Pos(i, size) + off + n]
  {
    hide Get4;
    HoldsFrom(page, chain, size, bytes, i);
    var b := bytes[Pos(i, size)..];
    FirstHolds(page, chain[i..], size, b);
    hide Holds, Pos;
    SliceOfBoth(page[chain[i]], 4, b, Min(size, |b|), off, n);
    SliceOfSlice(bytes, Pos(i, size), |bytes|, off, n);
    assert bytes[Pos(i, size)..|bytes|] == b;
  }

  lemma FirstHolds(page: map<nat, seq<byte>>, chain: seq<nat>, size: nat, bytes: seq<byte>)
    requires Holds(page, chain, size, bytes) && chain != []
    ensures var k := Min(size, |bytes|);
      && chain[0] in page && |page[chain[0]]| >= size + 4 && page[chain[0]][4..4 + k] == bytes[..k]
  {
  }

  /** Equal stretches have equal parts. */
  lemma SliceOfBoth(q: seq<byte>, lo: nat, b: seq<byte>, k: nat, off: nat, n: nat)
    requires lo + k <= |q| && k <= |b| && q[lo..lo + k] == b[..k] && off + n <= k
    ensures q[lo + off..lo + off + n] == b[off..off + n]
  {
    SliceOfSlice(q, lo, lo + k, off, n);
    SliceOfSlice(b, 0, k, off, n);
    assert b[0..k] == b[..k];
  }

  /** A position in the bytes lies on page pos / size of the chain. */
  lemma PageAt(page: map<nat, seq<byte>>, chain: seq<nat>, size: nat, bytes: seq<byte>, pos: nat)
    requires Holds(page, chain, size, bytes) && size > 0 && pos < |bytes|
    ensures pos / size < |chain| && pos == Pos(pos / size, size) + pos % size && pos % size < size
  {
    hide Holds, Pos;
    PosIs(pos / size, size);
    ChainLength(page, chain, size, bytes);
    assert pos == pos / size * size + pos % size;
    assert |bytes| + size - 1 == (|bytes| + size - 1) / size * size + (|bytes| + size - 1) % size;
    if pos / size >= |chain| { Mono(|chain|, pos / size, size); }
  }
}
