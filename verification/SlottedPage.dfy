/** A page edited in place: allocating, freeing and defragmenting its content area, inserting and dropping cells. */
module SlottedPage {
  import opened Bytes
  import opened CellFormat
  import opened PageSpace
  import opened PageBytes

  method Put2Byte(a: array<byte>, i: nat, v: nat)
    requires i + 2 <= a.Length
    modifies a
    ensures a[..] == Put2(old(a[..]), i, v)
  {
    a[i] := (v / 256) % 256;
    a[i + 1] := v % 256;
  }

  method Get2Byte(a: array<byte>, i: nat) returns (v: nat)
    requires i + 2 <= a.Length
    ensures v == Get2(a[..], i)
  {
    v := (a[i] as int) * 256 + a[i + 1];
  }

  /** Where the free space of a page lies and what was not to change. */
  ghost predicate Step(d: seq<byte>, d': seq<byte>, usable: nat, hdr: nat, lo: nat, used: seq<Span>, blocks': seq<Span>, lost: nat) {
    && Laid(d', usable, hdr, lo, used, blocks', lost) && Kept(d, d', usable, hdr, lo, used)
  }

  // ----- freeing -----

  lemma NextLink(d: seq<byte>, usable: nat, hdr: nat, lo: nat, used: seq<Span>, blocks: seq<Span>, k: nat, lost: nat)
    requires Laid(d, usable, hdr, lo, used, blocks, lost) && k <= |blocks|
    ensures 12 <= usable && Link(hdr, blocks, k) + 4 <= |d| && Get2(d, Link(hdr, blocks, k)) == LinkTarget(blocks, k)
    ensures k < |blocks| ==> Link(hdr, blocks, k) + 4 <= blocks[k].start <= usable - 4
    ensures k < |blocks| ==> Get2(d, blocks[k].start + 2) == blocks[k].size && blocks[k].End() <= usable
  {
    LinkInside(d, hdr, blocks, k);
    hide Area;
  }

  /** The free block before which a span belongs, found by following the chain. */
  method FindLink(data: array<byte>, usable: nat, hdr: nat, start: nat, ghost lo: nat, ghost used: seq<Span>, ghost blocks: seq<Span>, ghost lost: nat)
    returns (ok: bool, addr: nat, pbegin: nat, ghost k: nat)
    requires Laid(data[..], usable, hdr, lo, used, blocks, lost)
    ensures ok && k <= |blocks| && addr == Link(hdr, blocks, k) && pbegin == LinkTarget(blocks, k)
    ensures forall i :: 0 <= i < k ==> blocks[i].start < start
    ensures pbegin == 0 || start <= pbegin
  {
    hide Laid, Get2;
    k, addr := 0, hdr + 1;
    NextLink(data[..], usable, hdr, lo, used, blocks, k, lost);
    pbegin := Get2Byte(data, addr);
    while pbegin < start && pbegin > 0
      invariant k <= |blocks| && addr == Link(hdr, blocks, k) && pbegin == LinkTarget(blocks, k)
      invariant forall i :: 0 <= i < k ==> blocks[i].start < start
      decreases |blocks| - k
    {
      NextLink(data[..], usable, hdr, lo, used, blocks, k, lost);
      if pbegin < addr + 4 { return false, addr, pbegin, k; }
      addr, k := pbegin, k + 1;
      NextLink(data[..], usable, hdr, lo, used, blocks, k, lost);
      pbegin := Get2Byte(data, addr);
    }
    NextLink(data[..], usable, hdr, lo, used, blocks, k, lost);
    if pbegin > usable - 4 { return false, addr, pbegin, k; }
    return true, addr, pbegin, k;
  }

  lemma BlockAdded(d: seq<byte>, usable: nat, hdr: nat, lo: nat, used: seq<Span>, s: Span, rest: seq<Span>, blocks: seq<Span>, k: nat, lost: nat)
    requires |d| <= 0x1_0000 && Laid(d, usable, hdr, lo, used + [s] + rest, blocks, lost) && k <= |blocks|
    requires forall i :: 0 <= i < k ==> blocks[i].start < s.start
    requires LinkTarget(blocks, k) == 0 || s.start <= LinkTarget(blocks, k)
    ensures Link(hdr, blocks, k) + 4 <= s.start && s.start + 4 <= usable
    ensures Step(d, LinkIn(d, hdr, blocks, k, s), usable, hdr, lo, used + rest, Insert(blocks, k, s), lost)
    ensures LinkIn(d, hdr, blocks, k, s)[hdr + 7] == d[hdr + 7] && forall i :: 0 <= i < |blocks| ==> (blocks[i].start < s.start <==> i < k)
  {
    var b := Insert(blocks, k, s);
    AfterTarget(blocks, k, s);
    AreaFreed(usable, Top(d, hdr), d[hdr + 7] + lost, used, s, rest, blocks, k);
    assert Within(b, hdr + 8, |d|);
    ChainInserted(d, hdr, blocks, k, s);
    hide Area, Chained, Total, Insert, Puts, Put2, LinkIn, Ascending, AllApart, NoneMeets, Kept;
    LinkInKept(d, usable, hdr, lo, used + rest, blocks, k, s);
  }

  lemma AfterTarget(blocks: seq<Span>, k: nat, s: Span)
    requires Ascending(blocks) && k <= |blocks|
    requires forall i :: 0 <= i < |blocks| ==> blocks[i].start > 0
    requires forall i :: 0 <= i < k ==> blocks[i].start < s.start
    requires LinkTarget(blocks, k) == 0 || s.start <= LinkTarget(blocks, k)
    ensures forall i :: 0 <= i < |blocks| ==> (blocks[i].start < s.start <==> i < k)
  {
    forall i | k <= i < |blocks| ensures s.start <= blocks[i].start { if i > k { assert blocks[k].End() <= blocks[i].start; } }
  }

  /** A link field is part of the free space or of the header. */
  lemma LinkBytes(usable: nat, hdr: nat, lo: nat, used: seq<Span>, blocks: seq<Span>, k: nat)
    requires Within(blocks, lo, usable) && NoneMeets(used, blocks) && k <= |blocks|
    ensures FreeByte(usable, hdr, lo, used, Link(hdr, blocks, k)) && FreeByte(usable, hdr, lo, used, Link(hdr, blocks, k) + 1)
  {
    hide FreeByte, NoneMeets;
    if k > 0 {
      BlockBytes(usable, hdr, lo, used, blocks, k - 1, blocks[k - 1].start);
      BlockBytes(usable, hdr, lo, used, blocks, k - 1, blocks[k - 1].start + 1);
    } else {
      HeaderBytes(usable, hdr, lo, used);
    }
  }

  lemma HeaderBytes(usable: nat, hdr: nat, lo: nat, used: seq<Span>)
    ensures FreeByte(usable, hdr, lo, used, hdr + 1) && FreeByte(usable, hdr, lo, used, hdr + 2)
    ensures FreeByte(usable, hdr, lo, used, hdr + 5) && FreeByte(usable, hdr, lo, used, hdr + 6)
    ensures FreeByte(usable, hdr, lo, used, hdr + 7)
  {
  }

  /** A block's own fields, as links that may be written. */
  lemma KeptFields(d: seq<byte>, usable: nat, hdr: nat, lo: nat, used: seq<Span>, blocks: seq<Span>, k: nat, v: nat, w: nat)
    requires hdr + 12 <= usable <= |d| && hdr + 8 <= lo <= |d| && Within(used, lo, usable)
    requires Within(blocks, lo, usable) && NoneMeets(used, blocks) && k < |blocks|
    ensures Kept(d, Put2(d, blocks[k].start, v), usable, hdr, lo, used)
    ensures Kept(d, Put2(d, blocks[k].start + 2, w), usable, hdr, lo, used)
    ensures Kept(d, Put2(Put2(d, blocks[k].start, v), blocks[k].start + 2, w), usable, hdr, lo, used)
  {
    hide FreeByte, NoneMeets, Kept, Put2;
    var a := blocks[k].start;
    BlockBytes(usable, hdr, lo, used, blocks, k, a);
    BlockBytes(usable, hdr, lo, used, blocks, k, a + 1);
    BlockBytes(usable, hdr, lo, used, blocks, k, a + 2);
    BlockBytes(usable, hdr, lo, used, blocks, k, a + 3);
    KeptPut2(d, a, v, usable, hdr, lo, used);
    KeptPut2(d, a + 2, w, usable, hdr, lo, used);
    KeptPut2(Put2(d, a, v), a + 2, w, usable, hdr, lo, used);
    KeptTrans(d, Put2(d, a, v), Put2(Put2(d, a, v), a + 2, w), usable, hdr, lo, used);
  }

  lemma LinkInKept(d: seq<byte>, usable: nat, hdr: nat, lo: nat, used: seq<Span>, blocks: seq<Span>, k: nat, s: Span)
    requires hdr + 12 <= usable <= |d| && hdr + 8 <= lo <= |d| && Within(used, lo, usable) && k <= |blocks|
    requires var b := Insert(blocks, k, s); Within(b, lo, usable) && NoneMeets(used, b)
    ensures Link(hdr, blocks, k) + 4 <= |d| && s.start + 4 <= |d|
    ensures var d' := LinkIn(d, hdr, blocks, k, s);
      Kept(d, d', usable, hdr, lo, used) && d'[hdr + 7] == d[hdr + 7] && Top(d', hdr) == Top(d, hdr)
  {
    var b, l := Insert(blocks, k, s), Link(hdr, blocks, k);
    LinkOfInsert(hdr, blocks, k, s, k);
    hide FreeByte, NoneMeets, Kept, Insert;
    LinkBytes(usable, hdr, lo, used, b, k);
    KeptPut2(d, l, s.start, usable, hdr, lo, used);
    KeptFields(Put2(d, l, s.start), usable, hdr, lo, used, b, k, LinkTarget(blocks, k), s.size);
    KeptTrans(d, Put2(d, l, s.start), LinkIn(d, hdr, blocks, k, s), usable, hdr, lo, used);
  }

  /** The page once block k has taken in block k+1 and the fragment between them. */
  function MergedBytes(d: seq<byte>, hdr: nat, blocks: seq<Span>, k: nat, frag: nat): (r: seq<byte>)
    requires hdr + 12 <= |d| && k + 1 < |blocks| && blocks[k].start + 4 <= |d| && blocks[k].start <= blocks[k + 1].End() && frag <= d[hdr + 7]
    ensures |r| == |d|
  {
    LinkOver(d[hdr + 7 := d[hdr + 7] - frag], blocks, k)
  }

  lemma MergeStep(d: seq<byte>, usable: nat, hdr: nat, lo: nat, used: seq<Span>, blocks: seq<Span>, k: nat, lost: nat)
    requires |d| <= 0x1_0000 && Laid(d, usable, hdr, lo, used, blocks, lost)
    requires k + 1 < |blocks| && blocks[k + 1].start < blocks[k].End() + 4 && blocks[k + 1].start <= blocks[k].End() + d[hdr + 7]
    ensures blocks[k].End() <= blocks[k + 1].start && blocks[k].start + 4 <= |d|
    ensures var d' := MergedBytes(d, hdr, blocks, k, blocks[k + 1].start - blocks[k].End());
      Step(d, d', usable, hdr, lo, used, Merge(blocks, k), lost) && d'[hdr + 7] == d[hdr + 7] - (blocks[k + 1].start - blocks[k].End())
  {
    hide Area, Chained, Merge, Kept, MergedBytes, NoneMeets;
    AreaMerged(usable, Top(d, hdr), d[hdr + 7] + lost, used, blocks, k);
    BlocksApart(usable, Top(d, hdr), d[hdr + 7] + lost, used, blocks);
    BlocksApart(usable, Top(d, hdr), d[hdr + 7] + lost - (blocks[k + 1].start - blocks[k].End()), used, Merge(blocks, k));
    MergeChain(d, hdr, blocks, k);
    MergeKept(d, usable, hdr, lo, used, blocks, k);
  }

  /** The bytes between two blocks that are too close are fragments or lost. */
  lemma GapBound(d: seq<byte>, usable: nat, hdr: nat, lo: nat, used: seq<Span>, blocks: seq<Span>, k: nat, lost: nat)
    requires Laid(d, usable, hdr, lo, used, blocks, lost) && k + 1 < |blocks| && blocks[k + 1].start < blocks[k].End() + 4
    ensures blocks[k].End() <= blocks[k + 1].start <= blocks[k].End() + d[hdr + 7] + lost
  {
    hide Merge, Chained;
    AreaMerged(usable, Top(d, hdr), d[hdr + 7] + lost, used, blocks, k);
  }

  /** The bytes that joining the blocks from number k on takes in. */
  function Gaps(blocks: seq<Span>, k: nat): nat
    decreases |blocks| - k
  {
    if k + 1 >= |blocks| then 0 else Near(blocks[k], blocks[k + 1]) + Gaps(blocks, k + 1)
  }

  /** The bytes between two blocks, if they are too few for a block of their own. */
  function Near(a: Span, b: Span): nat {
    if a.End() <= b.start < a.End() + 4 then b.start - a.End() else 0
  }

  lemma {:induction false} GapsSame(a: seq<Span>, b: seq<Span>, i: nat, j: nat)
    requires i <= |a| && j <= |b| && a[i..] == b[j..]
    ensures Gaps(a, i) == Gaps(b, j)
    decreases |a| - i
  {
    if i + 1 < |a| {
      assert a[i] == a[i..][0] && b[j] == b[j..][0] && a[i + 1] == a[i..][1] && b[j + 1] == b[j..][1];
      assert a[i + 1..] == a[i..][1..] && b[j + 1..] == b[j..][1..];
      GapsSame(a, b, i + 1, j + 1);
    }
  }

  lemma GapsNext(blocks: seq<Span>, k: nat)
    ensures Gaps(blocks, k) == if k + 1 < |blocks| then Near(blocks[k], blocks[k + 1]) + Gaps(blocks, k + 1) else 0
    ensures k + 1 >= |blocks| ==> Gaps(blocks, k + 1) == 0
  {
  }

  /** Two blocks joined leave the other gaps. */
  lemma GapsMerged(blocks: seq<Span>, k: nat)
    requires k + 1 < |blocks| && blocks[k].End() <= blocks[k + 1].start < blocks[k].End() + 4
    ensures Gaps(blocks, k) == blocks[k + 1].start - blocks[k].End() + Gaps(Merge(blocks, k), k)
  {
    var b := Merge(blocks, k);
    if k + 2 < |blocks| {
      assert b[k + 1..] == blocks[k + 2..];
      GapsSame(b, blocks, k + 1, k + 2);
      assert b[k + 1] == blocks[k + 2];
    }
  }

  lemma {:induction false} SpacedGaps(blocks: seq<Span>, i: nat, k: nat)
    requires i <= k <= |blocks| && forall j :: i <= j < k && j + 1 < |blocks| ==> blocks[j].End() + 4 <= blocks[j + 1].start
    ensures Gaps(blocks, i) == Gaps(blocks, k)
    decreases k - i
  {
    if i < k { SpacedGaps(blocks, i + 1, k); }
  }

  /** The bytes between a span and its neighbours, block k - 1 and block k, where they are too few for a block. */
  function Beside(blocks: seq<Span>, k: nat, s: Span): nat
    requires k <= |blocks|
  {
    (if k > 0 then Near(blocks[k - 1], s) else 0) + (if k < |blocks| then Near(s, blocks[k]) else 0)
  }

  /** A span put between blocks that are far enough apart: only its neighbours can be too close. */
  lemma GapsBeside(blocks: seq<Span>, k: nat, s: Span)
    requires Spaced(blocks, |blocks|) && k <= |blocks|
    ensures Gaps(Insert(blocks, k, s), 0) == Beside(blocks, k, s)
  {
    var b := Insert(blocks, k, s);
    if k > 0 {
      forall j | 0 <= j < k - 1 ensures b[j].End() + 4 <= b[j + 1].start { assert b[j] == blocks[j] && b[j + 1] == blocks[j + 1]; }
      SpacedGaps(b, 0, k - 1);
      assert b[k - 1] == blocks[k - 1] && b[k] == s;
    }
    if k < |blocks| {
      assert b[k] == s && b[k + 1] == blocks[k];
      forall j | k + 1 <= j && j + 1 < |b| ensures b[j].End() + 4 <= b[j + 1].start { assert b[j] == blocks[j - 1] && b[j + 1] == blocks[j]; }
      SpacedGaps(b, k + 1, |b|);
    }
  }

  lemma FragByte(d: seq<byte>, hdr: nat, blocks: seq<Span>, v: byte)
    requires Within(blocks, hdr + 8, |d|) && hdr + 12 <= |d| && Chained(d, hdr, blocks)
    ensures Chained(d[hdr + 7 := v], hdr, blocks)
  {
    ChainElsewhere(d, d[hdr + 7 := v], hdr, blocks);
  }

  lemma MergeChain(d: seq<byte>, hdr: nat, blocks: seq<Span>, k: nat)
    requires Within(blocks, hdr + 8, |d|) && hdr + 12 <= |d| <= 0x1_0000 && Chained(d, hdr, blocks) && Ascending(blocks)
    requires k + 1 < |blocks| && blocks[k].End() <= blocks[k + 1].start <= blocks[k].End() + d[hdr + 7]
    ensures blocks[k].start + 4 <= |d| && Within(Merge(blocks, k), hdr + 8, |d|)
    ensures Chained(MergedBytes(d, hdr, blocks, k, blocks[k + 1].start - blocks[k].End()), hdr, Merge(blocks, k))
  {
    var v := d[hdr + 7] - (blocks[k + 1].start - blocks[k].End());
    FragByte(d, hdr, blocks, v);
    MergeWithin(blocks, k, hdr + 8, |d|);
    ChainMerged(d[hdr + 7 := v], hdr, blocks, k);
  }

  lemma MergeWithin(blocks: seq<Span>, k: nat, lo: nat, hi: nat)
    requires Within(blocks, lo, hi) && k + 1 < |blocks| && blocks[k].End() <= blocks[k + 1].start
    ensures Within(Merge(blocks, k), lo, hi)
  {
  }

  lemma MergeKept(d: seq<byte>, usable: nat, hdr: nat, lo: nat, used: seq<Span>, blocks: seq<Span>, k: nat)
    requires hdr + 12 <= usable <= |d| && hdr + 8 <= lo <= |d| && Within(used, lo, usable)
    requires Within(blocks, lo, usable) && NoneMeets(used, blocks)
    requires k + 1 < |blocks| && blocks[k].End() <= blocks[k + 1].start <= blocks[k].End() + d[hdr + 7]
    ensures var frag := blocks[k + 1].start - blocks[k].End();
            var d' := MergedBytes(d, hdr, blocks, k, frag);
      Kept(d, d', usable, hdr, lo, used) && d'[hdr + 7] == d[hdr + 7] - frag && Top(d', hdr) == Top(d, hdr)
  {
    hide Kept, FreeByte, NoneMeets;
    var v := d[hdr + 7] - (blocks[k + 1].start - blocks[k].End());
    var d1 := d[hdr + 7 := v];
    HeaderBytes(usable, hdr, lo, used);
    KeptPut(d, hdr + 7, v, usable, hdr, lo, used);
    KeptFields(d1, usable, hdr, lo, used, blocks, k, LinkTarget(blocks, k + 2), blocks[k + 1].End() - blocks[k].start);
    KeptTrans(d, d1, LinkOver(d1, blocks, k), usable, hdr, lo, used);
    HeaderFields(d1, hdr, blocks[k].start, LinkTarget(blocks, k + 2), blocks[k + 1].End() - blocks[k].start);
    SameTop(d, d1, hdr);
  }

  lemma SameTop(d: seq<byte>, d': seq<byte>, hdr: nat)
    requires hdr + 12 <= |d| == |d'| && d'[hdr + 5] == d[hdr + 5] && d'[hdr + 6] == d[hdr + 6]
    ensures Top(d', hdr) == Top(d, hdr)
  {
  }

  lemma BlocksApart(usable: nat, top: nat, frag: nat, used: seq<Span>, blocks: seq<Span>)
    requires Area(usable, top, frag, used, blocks)
    ensures NoneMeets(used, blocks) && Within(used, top, usable) && Within(blocks, top, usable) && Ascending(blocks) && AllApart(used)
  {
  }

  /** Writing a block's fields leaves the header alone. */
  lemma HeaderFields(d: seq<byte>, hdr: nat, a: nat, v: nat, w: nat)
    requires hdr + 12 <= |d| && hdr + 8 <= a && a + 4 <= |d|
    ensures var d' := Put2(Put2(d, a, v), a + 2, w); d'[hdr + 7] == d[hdr + 7] && Top(d', hdr) == Top(d, hdr)
  {
  }

  lemma SpacedMerge(blocks: seq<Span>, k: nat)
    requires Ascending(blocks) && Spaced(blocks, k) && k + 1 < |blocks|
    ensures blocks[k].End() <= blocks[k + 1].start && Spaced(Merge(blocks, k), k) && |Merge(blocks, k)| == |blocks| - 1
  {
    var b := Merge(blocks, k);
    forall i | 0 <= i < k && i + 1 < |b| ensures b[i].End() + 4 <= b[i + 1].start {
      assert b[i] == blocks[i] && b[i + 1].start == blocks[i + 1].start;
    }
  }

  lemma StepTrans(a: seq<byte>, b: seq<byte>, c: seq<byte>, usable: nat, hdr: nat, lo: nat, used: seq<Span>, bb: seq<Span>, bc: seq<Span>, lost: nat)
    requires Step(a, b, usable, hdr, lo, used, bb, lost) && Step(b, c, usable, hdr, lo, used, bc, lost)
    ensures Step(a, c, usable, hdr, lo, used, bc, lost)
  {
    hide Laid, Kept;
    KeptTrans(a, b, c, usable, hdr, lo, used);
  }

  /** What the code reads while it merges two blocks. */
  lemma MergeReads(d: seq<byte>, usable: nat, hdr: nat, lo: nat, used: seq<Span>, blocks: seq<Span>, k: nat, v: byte, x: nat, lost: nat)
    requires |d| <= 0x1_0000 && Laid(d, usable, hdr, lo, used, blocks, lost) && k + 1 < |blocks|
    ensures blocks[k].End() <= blocks[k + 1].start && blocks[k + 1].End() <= |d| && Ascending(blocks) && blocks[k].size >= 4
    ensures Get2(d[hdr + 7 := v], blocks[k + 1].start) == LinkTarget(blocks, k + 2)
    ensures Get2(Put2(d[hdr + 7 := v], blocks[k].start, x), blocks[k + 1].start + 2) == blocks[k + 1].size
  {
    NextLink(d, usable, hdr, lo, used, blocks, k + 1, lost);
    NextLink(d, usable, hdr, lo, used, blocks, k + 2, lost);
    BlocksApart(usable, Top(d, hdr), d[hdr + 7] + lost, used, blocks);
    hide Area, Chained, NoneMeets, AllApart;
  }

  /** Joins free blocks that lie less than 4 bytes apart.  The gaps come out of the count of fragments, which may be too small for
      them only where bytes have been lost. */
  method Coalesce(data: array<byte>, usable: nat, hdr: nat, ghost lo: nat, ghost used: seq<Span>, ghost blocks: seq<Span>, ghost lost: nat)
    returns (ok: bool, ghost blocks': seq<Span>)
    requires data.Length <= 0x1_0000 && Laid(data[..], usable, hdr, lo, used, blocks, lost) && blocks != []
    modifies data
    ensures Step(old(data[..]), data[..], usable, hdr, lo, used, blocks', lost) && blocks' != []
    ensures ok <==> Gaps(blocks, 0) <= old(FragCount(data[..], hdr))
    ensures lost == 0 ==> ok
    ensures ok ==> Spaced(blocks', |blocks'|)
  {
    hide Get2, Put2, Area, Chained, Kept, Gaps;
    ghost var k := 0;
    blocks' := blocks;
    LaidKept(data[..], usable, hdr, lo, used, blocks, lost);
    var addr := hdr + 1;
    while true
      invariant Step(old(data[..]), data[..], usable, hdr, lo, used, blocks', lost)
      invariant k <= |blocks'| && addr == Link(hdr, blocks', k) && Spaced(blocks', k) && blocks' != []
      invariant data[hdr + 7] - Gaps(blocks', k) == old(FragCount(data[..], hdr)) - Gaps(blocks, 0)
      decreases |blocks'| - k
    {
      ghost var d := data[..];
      NextLink(d, usable, hdr, lo, used, blocks', k, lost);
      var pbegin := Get2Byte(data, addr);
      if pbegin == 0 { break; }
      NextLink(d, usable, hdr, lo, used, blocks', k + 1, lost);
      var pnext := Get2Byte(data, pbegin);
      var psize := Get2Byte(data, pbegin + 2);
      if pbegin + psize + 3 >= pnext && pnext > 0 {
        GapBound(d, usable, hdr, lo, used, blocks', k, lost);
        GapsMerged(blocks', k);
        var frag := pnext - (pbegin + psize);
        if frag < 0 || frag > data[hdr + 7] { return false, blocks'; }
        MergeStep(d, usable, hdr, lo, used, blocks', k, lost);
        data[hdr + 7] := data[hdr + 7] - frag;
        MergeReads(d, usable, hdr, lo, used, blocks', k, data[hdr + 7], LinkTarget(blocks', k + 2), lost);
        var x := Get2Byte(data, pnext);
        Put2Byte(data, pbegin, x);
        var n := Get2Byte(data, pnext + 2);
        Put2Byte(data, pbegin + 2, pnext + n - pbegin);
        SpacedMerge(blocks', k);
        StepTrans(old(data[..]), d, data[..], usable, hdr, lo, used, blocks', Merge(blocks', k), lost);
        blocks' := Merge(blocks', k);
      } else {
        GapsNext(blocks', k);
        addr, k := pbegin, k + 1;
      }
    }
    GapsNext(blocks', k);
    return true, blocks';
  }

  function FragCount(d: seq<byte>, hdr: nat): nat
    requires hdr + 12 <= |d|
  {
    d[hdr + 7]
  }

  lemma LaidKept(d: seq<byte>, usable: nat, hdr: nat, lo: nat, used: seq<Span>, blocks: seq<Span>, lost: nat)
    requires Laid(d, usable, hdr, lo, used, blocks, lost)
    ensures Kept(d, d, usable, hdr, lo, used)
  {
    KeptSelf(d, usable, hdr, lo, used);
  }

  /** A first block at the very top of the content area is given back to the unallocated space. */
  lemma TopDropped(d: seq<byte>, usable: nat, hdr: nat, lo: nat, used: seq<Span>, blocks: seq<Span>, lost: nat)
    requires |d| <= 0x1_0000 && Laid(d, usable, hdr, lo, used, blocks, lost) && blocks != [] && Get2(d, hdr + 1) == Get2(d, hdr + 5)
    ensures blocks[0].start == Get2(d, hdr + 5)
    ensures Step(d, Put2(LinkPast(d, hdr, blocks, 0), hdr + 5, blocks[0].End()), usable, hdr, lo, used, blocks[1..], lost)
    ensures Top(Put2(LinkPast(d, hdr, blocks, 0), hdr + 5, blocks[0].End()), hdr) == blocks[0].End()
  {
    hide Area, Kept, NoneMeets, FreeByte, Chained, Get2, Put2, LinkPast;
    var top, frag, end := Top(d, hdr), d[hdr + 7] + lost, blocks[0].End();
    NextLink(d, usable, hdr, lo, used, blocks, 0, lost);
    assert blocks[0].start == top by { assert Link(hdr, blocks, 0) == hdr + 1; }
    AreaTopDropped(usable, top, frag, used, blocks);
    BlocksApart(usable, top, frag, used, blocks);
    BlocksApart(usable, end, frag, used, blocks[1..]);
    TopChain(d, hdr, blocks, end);
    TopKept(d, usable, hdr, lo, used, blocks, end);
    NewTop(LinkPast(d, hdr, blocks, 0), hdr, end);
  }

  lemma TopChain(d: seq<byte>, hdr: nat, blocks: seq<Span>, end: nat)
    requires Within(blocks, hdr + 8, |d|) && hdr + 12 <= |d| <= 0x1_0000 && Chained(d, hdr, blocks) && Ascending(blocks) && blocks != []
    ensures Within(blocks[1..], hdr + 8, |d|) && Chained(Put2(LinkPast(d, hdr, blocks, 0), hdr + 5, end), hdr, blocks[1..])
  {
    hide LinkPast, Get2, Put2, Chained, Ascending;
    assert Without(blocks, 0) == blocks[1..];
    ChainPast(d, hdr, blocks, 0);
    TopField(LinkPast(d, hdr, blocks, 0), hdr, blocks[1..], end);
  }

  /** The field for the top of the content area does not matter to the chain. */
  lemma TopField(d: seq<byte>, hdr: nat, blocks: seq<Span>, v: nat)
    requires Within(blocks, hdr + 8, |d|) && hdr + 12 <= |d| && Chained(d, hdr, blocks)
    ensures Chained(Put2(d, hdr + 5, v), hdr, blocks)
  {
    hide Chained;
    ChainElsewhere(d, Put2(d, hdr + 5, v), hdr, blocks);
  }

  lemma TopKept(d: seq<byte>, usable: nat, hdr: nat, lo: nat, used: seq<Span>, blocks: seq<Span>, end: nat)
    requires hdr + 12 <= usable <= |d| && hdr + 8 <= lo <= |d| && Within(used, lo, usable) && blocks != []
    ensures var d' := Put2(LinkPast(d, hdr, blocks, 0), hdr + 5, end); Kept(d, d', usable, hdr, lo, used) && d'[hdr + 7] == d[hdr + 7]
  {
    hide FreeByte, Kept;
    HeaderBytes(usable, hdr, lo, used);
    var d1 := LinkPast(d, hdr, blocks, 0);
    KeptPut2(d, hdr + 1, LinkTarget(blocks, 1), usable, hdr, lo, used);
    KeptPut2(d1, hdr + 5, end, usable, hdr, lo, used);
    KeptTrans(d, d1, Put2(d1, hdr + 5, end), usable, hdr, lo, used);
  }

  lemma NewTop(d: seq<byte>, hdr: nat, v: nat)
    requires hdr + 12 <= |d| && 0 < v <= 0x1_0000
    ensures Top(Put2(d, hdr + 5, v), hdr) == v
  {
    Get2Put2(d, hdr + 5, v);
  }

  lemma SpacedTail(blocks: seq<Span>)
    requires blocks != [] && Spaced(blocks, |blocks|)
    ensures Spaced(blocks[1..], |blocks| - 1)
  {
  }

  /** Returns a span to the free space.  It belongs before block k, and fails to join its neighbours exactly if the bytes between them
      are more than the header counts as fragments; no page that has lost nothing fails. */
  method FreeSpace(data: array<byte>, usable: nat, hdr: nat, start: nat, size: nat,
                   ghost lo: nat, ghost used: seq<Span>, ghost rest: seq<Span>, ghost blocks: seq<Span>, ghost lost: nat)
    returns (ok: bool, ghost blocks': seq<Span>, ghost k: nat)
    requires data.Length <= 0x1_0000 && Laid(data[..], usable, hdr, lo, used + [Span(start, size)] + rest, blocks, lost)
    modifies data
    ensures Step(old(data[..]), data[..], usable, hdr, lo, used + rest, blocks', lost) && (ok ==> Spaced(blocks', |blocks'|))
    ensures k <= |blocks| && forall i :: 0 <= i < |blocks| ==> (blocks[i].start < start <==> i < k)
    ensures ok <==> Gaps(Insert(blocks, k, Span(start, size)), 0) <= old(FragCount(data[..], hdr))
    ensures lost == 0 ==> ok
    ensures ok ==> ClearOfTop(data[..], hdr, blocks')
  {
    hide Laid, Kept, Insert, Get2, Put2;
    ghost var d0 := data[..];
    var addr, pbegin;
    ok, addr, pbegin, k := FindLink(data, usable, hdr, start, lo, used + [Span(start, size)] + rest, blocks, lost);
    BlockAdded(d0, usable, hdr, lo, used, Span(start, size), rest, blocks, k, lost);
    assert usable <= |d0| by { LaidInside(d0, usable, hdr, lo, used + [Span(start, size)] + rest, blocks, lost); }
    Put2Byte(data, addr, start);
    Put2Byte(data, start, pbegin);
    Put2Byte(data, start + 2, size);
    ghost var d1 := data[..];
    InsertNotEmpty(blocks, k, Span(start, size));
    ok, blocks' := Coalesce(data, usable, hdr, lo, used + rest, Insert(blocks, k, Span(start, size)), lost);
    ghost var d2 := data[..];
    StepTrans(d0, d1, d2, usable, hdr, lo, used + rest, Insert(blocks, k, Span(start, size)), blocks', lost);
    if !ok { return; }
    LaidInside(d2, usable, hdr, lo, used + rest, blocks', lost);
    var first := Get2Byte(data, hdr + 1);
    var top := Get2Byte(data, hdr + 5);
    if first == top {
      TopDropped(d2, usable, hdr, lo, used + rest, blocks', lost);
      NextLink(d2, usable, hdr, lo, used + rest, blocks', 0, lost);
      NextLink(d2, usable, hdr, lo, used + rest, blocks', 1, lost);
      var next := Get2Byte(data, first);
      Put2Byte(data, hdr + 1, next);
      TopReads(d2, hdr, blocks', next);
      top := Get2Byte(data, hdr + 5);
      var n := Get2Byte(data, first + 2);
      Put2Byte(data, hdr + 5, top + n);
      StepTrans(d0, d2, data[..], usable, hdr, lo, used + rest, blocks', blocks'[1..], lost);
      SpacedTail(blocks');
      blocks' := blocks'[1..];
    } else {
      FirstClear(d2, usable, hdr, lo, used + rest, blocks', lost);
    }
  }

  /** The first free block is not the start of the content area. */
  ghost predicate ClearOfTop(d: seq<byte>, hdr: nat, blocks: seq<Span>) {
    hdr + 12 <= |d| && (blocks != [] ==> Top(d, hdr) < blocks[0].start)
  }

  lemma FirstClear(d: seq<byte>, usable: nat, hdr: nat, lo: nat, used: seq<Span>, blocks: seq<Span>, lost: nat)
    requires |d| <= 0x1_0000 && Laid(d, usable, hdr, lo, used, blocks, lost) && Get2(d, hdr + 1) != Get2(d, hdr + 5)
    ensures ClearOfTop(d, hdr, blocks)
  {
    NextLink(d, usable, hdr, lo, used, blocks, 0, lost);
    hide Get2, Chained;
    if blocks != [] {
      BlocksApart(usable, Top(d, hdr), d[hdr + 7] + lost, used, blocks);
      assert Link(hdr, blocks, 0) == hdr + 1;
    }
  }

  lemma LaidInside(d: seq<byte>, usable: nat, hdr: nat, lo: nat, used: seq<Span>, blocks: seq<Span>, lost: nat)
    requires Laid(d, usable, hdr, lo, used, blocks, lost)
    ensures hdr + 12 <= usable <= |d| && hdr + 8 <= lo <= Top(d, hdr) <= usable
    ensures Within(used, lo, usable) && Within(blocks, lo, usable)
  {
  }

  lemma InsertNotEmpty(blocks: seq<Span>, k: nat, s: Span)
    requires k <= |blocks|
    ensures Insert(blocks, k, s) != []
  {
  }

  lemma TopReads(d: seq<byte>, hdr: nat, blocks: seq<Span>, v: nat)
    requires hdr + 12 <= |d| && Within(blocks, hdr + 8, |d|) && blocks != []
    ensures Get2(Put2(d, hdr + 1, v), hdr + 5) == Get2(d, hdr + 5)
    ensures Get2(Put2(d, hdr + 1, v), blocks[0].start + 2) == Get2(d, blocks[0].start + 2)
  {
  }
}
