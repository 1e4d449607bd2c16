/** Who owns which bytes of a page's content area, apart from what the bytes are. */
module PageSpace {
  import opened Arith

  datatype Span = Span(start: nat, size: nat) {
    function End(): nat { start + size }
  }

  predicate Apart(a: Span, b: Span) { a.End() <= b.start || b.End() <= a.start }

  ghost predicate AllApart(s: seq<Span>) {
    forall i, j :: 0 <= i < j < |s| ==> Apart(s[i], s[j])
  }

  ghost predicate Within(s: seq<Span>, lo: nat, hi: nat) {
    forall i :: 0 <= i < |s| ==> lo <= s[i].start && s[i].End() <= hi && s[i].size >= 4
  }

  ghost predicate NoneMeets(s: seq<Span>, t: seq<Span>) {
    forall i, j :: 0 <= i < |s| && 0 <= j < |t| ==> Apart(s[i], t[j])
  }

  /** Ascending, and not overlapping. */
  ghost predicate Ascending(s: seq<Span>) {
    forall i, j :: 0 <= i < j < |s| ==> s[i].End() <= s[j].start
  }

  /** The first k gaps between neighbours are too wide to be fragments. */
  ghost predicate Spaced(s: seq<Span>, k: nat) {
    forall i :: 0 <= i < k && i + 1 < |s| ==> s[i].End() + 4 <= s[i + 1].start
  }

  function Total(s: seq<Span>): nat {
    if s == [] then 0 else Total(s[..|s| - 1]) + s[|s| - 1].size
  }

  lemma {:induction false} TotalAppend(a: seq<Span>, b: seq<Span>)
    ensures Total(a + b) == Total(a) + Total(b)
    decreases |b|
  {
    if b == [] {
      assert a + b == a;
    } else {
      TotalAppend(a, b[..|b| - 1]);
      assert (a + b)[..|a + b| - 1] == a + b[..|b| - 1];
    }
  }

  lemma TotalOne(s: Span)
    ensures Total([s]) == s.size
  {
    assert [s][..0] == [];
  }

  lemma TotalAround(a: seq<Span>, s: Span, b: seq<Span>)
    ensures Total(a + [s] + b) == Total(a + b) + s.size
  {
    TotalAppend(a + [s], b);
    TotalAppend(a, [s]);
    TotalAppend(a, b);
    TotalOne(s);
  }

  lemma {:induction false} SameTotal(a: seq<Span>, b: seq<Span>)
    requires |a| == |b| && forall i :: 0 <= i < |a| ==> a[i].size == b[i].size
    ensures Total(a) == Total(b)
    decreases |a|
  {
    if a != [] { SameTotal(a[..|a| - 1], b[..|b| - 1]); }
  }

  function Bytes(s: seq<Span>): set<nat> {
    if s == [] then {} else Bytes(s[..|s| - 1]) + BytesOf(s[|s| - 1])
  }

  function BytesOf(s: Span): set<nat>
    decreases s.size
  {
    if s.size == 0 then {} else BytesOf(Span(s.start, s.size - 1)) + {s.End() - 1}
  }

  lemma {:induction false} InBytes(s: Span, b: nat)
    ensures b in BytesOf(s) <==> s.start <= b < s.End()
    decreases s.size
  {
    if s.size != 0 { InBytes(Span(s.start, s.size - 1), b); }
  }

  lemma {:induction false} BytesSize(s: Span)
    ensures |BytesOf(s)| == s.size
    decreases s.size
  {
    if s.size != 0 {
      var t := Span(s.start, s.size - 1);
      BytesSize(t);
      InBytes(t, s.End() - 1);
    }
  }

  lemma {:induction false} BytesFrom(s: seq<Span>, b: nat)
    ensures b in Bytes(s) <==> exists i :: 0 <= i < |s| && b in BytesOf(s[i])
  {
    if s != [] {
      BytesFrom(s[..|s| - 1], b);
      if b in BytesOf(s[|s| - 1]) {}
      if exists i :: 0 <= i < |s| && b in BytesOf(s[i]) {
        var i :| 0 <= i < |s| && b in BytesOf(s[i]);
        if i < |s| - 1 { assert s[..|s| - 1][i] == s[i]; }
      }
    }
  }

  /** Spans that do not overlap cover as many bytes as their sizes add up to. */
  lemma {:induction false} BytesTotal(s: seq<Span>)
    requires AllApart(s)
    ensures |Bytes(s)| == Total(s)
  {
    if s == [] {
    } else {
      var f, l := s[..|s| - 1], s[|s| - 1];
      BytesTotal(f);
      BytesSize(l);
      forall b | b in Bytes(f) ensures b !in BytesOf(l) {
        BytesFrom(f, b);
        var i :| 0 <= i < |f| && b in BytesOf(f[i]);
        InBytes(f[i], b);
        InBytes(l, b);
        assert Apart(s[i], s[|s| - 1]);
      }
      assert Bytes(f) !! BytesOf(l);
    }
  }

  /** Spans that do not overlap have no more bytes than the room they lie in. */
  lemma Packing(s: seq<Span>, lo: nat, hi: nat)
    requires AllApart(s) && lo <= hi && forall i :: 0 <= i < |s| ==> lo <= s[i].start && s[i].End() <= hi
    ensures Total(s) <= hi - lo
  {
    BytesTotal(s);
    BytesSize(Span(lo, hi - lo));
    forall b | b in Bytes(s) ensures b in BytesOf(Span(lo, hi - lo)) {
      BytesFrom(s, b);
      var i :| 0 <= i < |s| && b in BytesOf(s[i]);
      InBytes(s[i], b);
      InBytes(Span(lo, hi - lo), b);
    }
    SubsetSize(Bytes(s), BytesOf(Span(lo, hi - lo)));
  }

  // ----- the content area -----

  /** The content area from top up: used spans and free blocks do not overlap, and the bytes in neither are the fragments. */
  ghost predicate Area(usable: nat, top: nat, frag: nat, used: seq<Span>, blocks: seq<Span>) {
    && top <= usable
    && Within(used, top, usable) && Within(blocks, top, usable)
    && AllApart(used) && Ascending(blocks) && NoneMeets(used, blocks)
    && Total(used) + Total(blocks) + frag == usable - top
  }

  lemma AllApartJoin(a: seq<Span>, b: seq<Span>)
    requires AllApart(a) && AllApart(b) && NoneMeets(a, b)
    ensures AllApart(a + b)
  {
    forall i, j | 0 <= i < j < |a + b| ensures Apart((a + b)[i], (a + b)[j]) {
      if i < |a| && j >= |a| { assert Apart(a[i], b[j - |a|]); }
    }
  }

  /** The bytes between two neighbouring blocks that are too close for a cell are fragments. */
  lemma GapIsFragment(usable: nat, top: nat, frag: nat, used: seq<Span>, blocks: seq<Span>, k: nat)
    requires Area(usable, top, frag, used, blocks) && k + 1 < |blocks| && blocks[k + 1].start < blocks[k].End() + 4
    ensures blocks[k + 1].start - blocks[k].End() <= frag
  {
    var gap := Span(blocks[k].End(), blocks[k + 1].start - blocks[k].End());
    assert Ascending(blocks);
    var all := used + blocks;
    AllApartJoin(used, blocks);
    forall i | 0 <= i < |used| ensures Apart(used[i], gap) {
      assert Apart(used[i], blocks[k]) && Apart(used[i], blocks[k + 1]);
    }
    forall i | 0 <= i < |blocks| ensures Apart(blocks[i], gap) {
      if i < k { assert blocks[i].End() <= blocks[k].start; }
      if i > k + 1 { assert blocks[k + 1].End() <= blocks[i].start; }
    }
    AllApartJoin(all, [gap]);
    TotalAppend(used, blocks);
    TotalAppend(all, [gap]);
    TotalOne(gap);
    Packing(all + [gap], top, usable);
  }

  // ----- operations on the list of free blocks -----

  function Insert(blocks: seq<Span>, k: nat, s: Span): seq<Span>
    requires k <= |blocks|
  {
    blocks[..k] + [s] + blocks[k..]
  }

  lemma InsertTotal(blocks: seq<Span>, k: nat, s: Span)
    requires k <= |blocks|
    ensures Total(Insert(blocks, k, s)) == Total(blocks) + s.size
  {
    TotalAround(blocks[..k], s, blocks[k..]);
    assert blocks[..k] + blocks[k..] == blocks;
  }

  /** A used span becomes a free block in place k of the list. */
  lemma AreaFreed(usable: nat, top: nat, frag: nat, used: seq<Span>, s: Span, rest: seq<Span>, blocks: seq<Span>, k: nat)
    requires Area(usable, top, frag, used + [s] + rest, blocks) && k <= |blocks|
    requires forall i :: 0 <= i < |blocks| ==> (blocks[i].start < s.start <==> i < k)
    ensures Area(usable, top, frag, used + rest, Insert(blocks, k, s))
  {
    hide AllApart, NoneMeets, Ascending, Insert, Total;
    TotalAround(used, s, rest);
    InsertTotal(blocks, k, s);
    UsedWithout(used, s, rest, blocks);
    SpanMeetsNone(used, s, rest, blocks);
    assert (used + [s] + rest)[|used|] == s;
    InsertAscends(blocks, k, s);
    InsertApart(used + rest, blocks, k, s);
    InsertWithin(used, s, rest, blocks, k, top, usable);
  }

  lemma InsertWithin(used: seq<Span>, s: Span, rest: seq<Span>, blocks: seq<Span>, k: nat, lo: nat, hi: nat)
    requires Within(used + [s] + rest, lo, hi) && Within(blocks, lo, hi) && k <= |blocks|
    ensures Within(used + rest, lo, hi) && Within(Insert(blocks, k, s), lo, hi)
  {
    var u := used + [s] + rest;
    forall i | 0 <= i < |used + rest| ensures (used + rest)[i] == u[if i < |used| then i else i + 1] {}
    assert u[|used|] == s;
  }

  lemma SpanMeetsNone(used: seq<Span>, s: Span, rest: seq<Span>, blocks: seq<Span>)
    requires AllApart(used + [s] + rest) && NoneMeets(used + [s] + rest, blocks)
    ensures NoneMeets([s], blocks) && NoneMeets(used + rest, [s])
  {
    var u := used + [s] + rest;
    assert u[|used|] == s;
    forall j | 0 <= j < |blocks| ensures Apart(s, blocks[j]) { assert Apart(u[|used|], blocks[j]); }
    forall i | 0 <= i < |used + rest| ensures Apart((used + rest)[i], s) {
      if i < |used| { assert Apart(u[i], u[|used|]); } else { assert Apart(u[|used|], u[i + 1]); }
    }
  }

  lemma InsertAscends(blocks: seq<Span>, k: nat, s: Span)
    requires Ascending(blocks) && NoneMeets([s], blocks) && k <= |blocks| && s.size > 0
    requires forall i :: 0 <= i < |blocks| ==> blocks[i].size > 0
    requires forall i :: 0 <= i < |blocks| ==> (blocks[i].start < s.start <==> i < k)
    ensures Ascending(Insert(blocks, k, s))
  {
    var b := Insert(blocks, k, s);
    forall i, j | 0 <= i < j < |b| ensures b[i].End() <= b[j].start {
      if i == k {
        assert Apart([s][0], blocks[j - 1]);
      } else if j == k {
        assert Apart([s][0], blocks[i]);
      } else {
        assert blocks[if i < k then i else i - 1].End() <= blocks[if j < k then j else j - 1].start;
      }
    }
  }

  lemma InsertApart(used: seq<Span>, blocks: seq<Span>, k: nat, s: Span)
    requires NoneMeets(used, blocks) && NoneMeets(used, [s]) && k <= |blocks|
    ensures NoneMeets(used, Insert(blocks, k, s))
  {
    var b := Insert(blocks, k, s);
    forall i, j | 0 <= i < |used| && 0 <= j < |b| ensures Apart(used[i], b[j]) {
      if j == k { assert Apart(used[i], [s][0]); } else { assert Apart(used[i], blocks[if j < k then j else j - 1]); }
    }
  }

  lemma UsedWithout(used: seq<Span>, s: Span, rest: seq<Span>, blocks: seq<Span>)
    requires AllApart(used + [s] + rest) && NoneMeets(used + [s] + rest, blocks)
    ensures AllApart(used + rest) && NoneMeets(used + rest, blocks)
  {
    var u, v := used + [s] + rest, used + rest;
    forall i, j | 0 <= i < j < |v| ensures Apart(v[i], v[j]) {
      assert Apart(u[if i < |used| then i else i + 1], u[if j < |used| then j else j + 1]);
    }
    forall i, j | 0 <= i < |v| && 0 <= j < |blocks| ensures Apart(v[i], blocks[j]) {
      assert Apart(u[if i < |used| then i else i + 1], blocks[j]);
    }
  }

  /** The last used span gives up its tail, which then belongs to nothing. */
  lemma AreaTrimmed(usable: nat, top: nat, frag: nat, used: seq<Span>, s: Span, n: nat, blocks: seq<Span>)
    requires Area(usable, top, frag, used + [s], blocks) && 4 <= n <= s.size
    ensures Area(usable, top, frag + s.size - n, used + [Span(s.start, n)], blocks)
  {
    hide Total;
    var a, b, r := used + [s], used + [Span(s.start, n)], Span(s.start, n);
    TotalAppend(used, [s]);
    TotalAppend(used, [r]);
    TotalOne(s);
    TotalOne(r);
    assert a[|used|] == s;
    forall i, j | 0 <= i < j < |b| ensures Apart(b[i], b[j]) { assert Apart(a[i], a[j]); }
    forall i, j | 0 <= i < |b| && 0 <= j < |blocks| ensures Apart(b[i], blocks[j]) { assert Apart(a[i], blocks[j]); }
    forall i | 0 <= i < |b| ensures top <= b[i].start && b[i].End() <= usable && b[i].size >= 4 {
      if i < |used| { assert b[i] == a[i]; }
    }
  }

  /** Blocks k and k+1 as one, with the fragment between them. */
  function Merge(blocks: seq<Span>, k: nat): seq<Span>
    requires k + 1 < |blocks| && blocks[k].start <= blocks[k + 1].End()
  {
    blocks[..k] + [Span(blocks[k].start, blocks[k + 1].End() - blocks[k].start)] + blocks[k + 2..]
  }

  lemma AreaMerged(usable: nat, top: nat, frag: nat, used: seq<Span>, blocks: seq<Span>, k: nat)
    requires Area(usable, top, frag, used, blocks) && k + 1 < |blocks| && blocks[k + 1].start < blocks[k].End() + 4
    ensures blocks[k].End() <= blocks[k + 1].start <= blocks[k].End() + frag
    ensures Area(usable, top, frag - (blocks[k + 1].start - blocks[k].End()), used, Merge(blocks, k))
  {
    GapIsFragment(usable, top, frag, used, blocks, k);
    assert blocks[k].End() <= blocks[k + 1].start;
    MergeTotal(blocks, k);
    MergeApart(used, blocks, k);
    MergeAscends(blocks, k);
    var b := Merge(blocks, k);
    forall i | 0 <= i < |b| ensures top <= b[i].start && b[i].End() <= usable && b[i].size >= 4 {
      if i != k { assert b[i] == blocks[if i < k then i else i + 1]; }
    }
  }

  lemma MergeTotal(blocks: seq<Span>, k: nat)
    requires k + 1 < |blocks| && blocks[k].End() <= blocks[k + 1].start
    ensures Total(Merge(blocks, k)) == Total(blocks) + blocks[k + 1].start - blocks[k].End()
  {
    hide Total;
    var a, r := blocks[..k], blocks[k + 2..];
    TotalAround(a, Span(blocks[k].start, blocks[k + 1].End() - blocks[k].start), r);
    TotalAround(a + [blocks[k]], blocks[k + 1], r);
    TotalAround(a, blocks[k], r);
    assert blocks == a + [blocks[k]] + [blocks[k + 1]] + r;
  }

  /** A used span of 4 bytes or more does not fit between two blocks that are nearly adjacent. */
  lemma MergeApart(used: seq<Span>, blocks: seq<Span>, k: nat)
    requires NoneMeets(used, blocks) && Ascending(blocks) && k + 1 < |blocks| && blocks[k + 1].start < blocks[k].End() + 4
    requires forall i :: 0 <= i < |used| ==> used[i].size >= 4
    requires forall i :: 0 <= i < |blocks| ==> blocks[i].size >= 4
    ensures NoneMeets(used, Merge(blocks, k))
  {
    var b := Merge(blocks, k);
    assert blocks[k].End() <= blocks[k + 1].start;
    forall i, j | 0 <= i < |used| && 0 <= j < |b| ensures Apart(used[i], b[j]) {
      if j == k {
        assert Apart(used[i], blocks[k]) && Apart(used[i], blocks[k + 1]);
      } else {
        assert b[j] == blocks[if j < k then j else j + 1];
      }
    }
  }

  lemma MergeAscends(blocks: seq<Span>, k: nat)
    requires Ascending(blocks) && k + 1 < |blocks|
    ensures Ascending(Merge(blocks, k))
  {
    var b := Merge(blocks, k);
    assert blocks[k].End() <= blocks[k + 1].start;
    forall i, j | 0 <= i < j < |b| ensures b[i].End() <= b[j].start {
      assert blocks[if i < k then i else i + 1].End() <= blocks[if j <= k then j else j + 1].start;
    }
  }

  /** A block at the very start of the content area falls back to the unallocated space. */
  lemma AreaTopDropped(usable: nat, top: nat, frag: nat, used: seq<Span>, blocks: seq<Span>)
    requires Area(usable, top, frag, used, blocks) && blocks != [] && blocks[0].start == top
    ensures Area(usable, blocks[0].End(), frag, used, blocks[1..])
  {
    hide Total;
    var r := blocks[1..];
    TotalAround([], blocks[0], r);
    assert [] + [blocks[0]] + r == blocks && [] + r == r;
    assert NoneMeets(used, r) && Ascending(r);
    forall i | 0 <= i < |used| ensures blocks[0].End() <= used[i].start { assert Apart(used[i], blocks[0]); }
    forall i | 0 <= i < |r| ensures blocks[0].End() <= r[i].start { assert r[i] == blocks[i + 1]; }
  }

  // ----- taking space -----

  /** The tail of block k is taken; what is left of the block stays a block if it is at least 4 bytes, else becomes fragments. */
  function Taken(blocks: seq<Span>, k: nat, n: nat): seq<Span>
    requires k < |blocks| && n <= blocks[k].size
  {
    var x := blocks[k].size - n;
    if x < 4 then blocks[..k] + blocks[k + 1..] else blocks[k := Span(blocks[k].start, x)]
  }

  lemma AreaTaken(usable: nat, top: nat, frag: nat, used: seq<Span>, blocks: seq<Span>, k: nat, n: nat)
    requires Area(usable, top, frag, used, blocks) && k < |blocks| && 4 <= n <= blocks[k].size
    ensures var x := blocks[k].size - n;
      Area(usable, top, if x < 4 then frag + x else frag, used + [Span(blocks[k].start + x, n)], Taken(blocks, k, n))
  {
    hide Total, AllApart, Ascending, NoneMeets, Taken;
    var s := Span(blocks[k].start + blocks[k].size - n, n);
    TotalAppend(used, [s]);
    TotalOne(s);
    TakenTotal(blocks, k, n);
    TakenApart(used, blocks, k, n);
    TakenWithin(used, blocks, k, n, top, usable);
  }

  lemma TakenTotal(blocks: seq<Span>, k: nat, n: nat)
    requires k < |blocks| && n <= blocks[k].size
    ensures var x := blocks[k].size - n; Total(Taken(blocks, k, n)) + n + (if x < 4 then x else 0) == Total(blocks)
  {
    hide Total;
    var x := blocks[k].size - n;
    TotalAround(blocks[..k], blocks[k], blocks[k + 1..]);
    assert blocks == blocks[..k] + [blocks[k]] + blocks[k + 1..];
    if x >= 4 {
      TotalAround(blocks[..k], Span(blocks[k].start, x), blocks[k + 1..]);
      assert Taken(blocks, k, n) == blocks[..k] + [Span(blocks[k].start, x)] + blocks[k + 1..];
    }
  }

  lemma TakenWithin(used: seq<Span>, blocks: seq<Span>, k: nat, n: nat, lo: nat, hi: nat)
    requires Within(used, lo, hi) && Within(blocks, lo, hi) && k < |blocks| && 4 <= n <= blocks[k].size
    ensures Within(used + [Span(blocks[k].start + blocks[k].size - n, n)], lo, hi) && Within(Taken(blocks, k, n), lo, hi)
  {
  }

  lemma TakenApart(used: seq<Span>, blocks: seq<Span>, k: nat, n: nat)
    requires AllApart(used) && Ascending(blocks) && NoneMeets(used, blocks) && k < |blocks| && n <= blocks[k].size
    ensures var s := Span(blocks[k].start + blocks[k].size - n, n);
      AllApart(used + [s]) && Ascending(Taken(blocks, k, n)) && NoneMeets(used + [s], Taken(blocks, k, n))
  {
    var x, b := blocks[k].size - n, Taken(blocks, k, n);
    var s := Span(blocks[k].start + x, n);
    forall i, j | 0 <= i < j < |used + [s]| ensures Apart((used + [s])[i], (used + [s])[j]) {
      if j == |used| { assert Apart(used[i], blocks[k]); }
    }
    forall i, j | 0 <= i < j < |b| ensures b[i].End() <= b[j].start {
      if x < 4 {
        assert blocks[if i < k then i else i + 1].End() <= blocks[if j < k then j else j + 1].start;
      } else {
        assert blocks[i].End() <= blocks[j].start;
      }
    }
    forall i, j | 0 <= i < |used + [s]| && 0 <= j < |b| ensures Apart((used + [s])[i], b[j]) {
      var j' := if x < 4 && j >= k then j + 1 else j;
      if i < |used| {
        assert Apart(used[i], blocks[j']);
      } else if j' < k {
        assert blocks[j'].End() <= blocks[k].start;
      } else if j' > k {
        assert blocks[k].End() <= blocks[j'].start;
      }
    }
  }

  lemma SpacedTaken(blocks: seq<Span>, k: nat, n: nat)
    requires Spaced(blocks, |blocks|) && Ascending(blocks) && k < |blocks| && n <= blocks[k].size
    requires forall i :: 0 <= i < |blocks| ==> blocks[i].size >= 4
    ensures Spaced(Taken(blocks, k, n), |Taken(blocks, k, n)|)
  {
    var b := Taken(blocks, k, n);
    forall i | 0 <= i && i + 1 < |b| ensures b[i].End() + 4 <= b[i + 1].start {
      if |b| < |blocks| {
        assert b[i] == blocks[if i < k then i else i + 1];
        assert b[i + 1] == blocks[if i + 1 < k then i + 1 else i + 2];
        if i + 1 == k { assert blocks[i].End() + 4 <= blocks[i + 1].start && blocks[i + 1].End() + 4 <= blocks[i + 2].start; }
      } else {
        assert blocks[i].End() + 4 <= blocks[i + 1].start;
      }
    }
  }

  /** Space is taken from below the content area. */
  lemma AreaGrown(usable: nat, top: nat, frag: nat, used: seq<Span>, blocks: seq<Span>, n: nat)
    requires Area(usable, top, frag, used, blocks) && 4 <= n <= top
    ensures Area(usable, top - n, frag, used + [Span(top - n, n)], blocks)
  {
    var s := Span(top - n, n);
    TotalAppend(used, [s]);
    TotalOne(s);
    forall i, j | 0 <= i < j < |used + [s]| ensures Apart((used + [s])[i], (used + [s])[j]) {}
  }
}
