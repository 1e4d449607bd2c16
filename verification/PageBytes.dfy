/** The bytes of a page against the spans they describe: the header, the chain of free blocks, the cell pointers. */
module PageBytes {
  import opened Bytes
  import opened CellFormat
  import opened PageSpace

  // ----- header fields -----

  /** The 2-byte field has no room for 65536, which is stored as 0. */
  function NotZero(v: nat): nat { if v == 0 then 0x1_0000 else v }

  function Top(d: seq<byte>, hdr: nat): nat
    requires hdr + 12 <= |d|
  {
    NotZero(Get2(d, hdr + 5))
  }

  function CellOffset(f: Format, hdr: nat): nat { hdr + 8 + f.ChildPtrSize() }

  // ----- the chain of free blocks -----

  /** Where the link to block i is stored. */
  function Link(hdr: nat, blocks: seq<Span>, i: nat): nat
    requires i <= |blocks|
  {
    if i == 0 then hdr + 1 else blocks[i - 1].start
  }

  function LinkTarget(blocks: seq<Span>, i: nat): nat {
    if i < |blocks| then blocks[i].start else 0
  }

  ghost predicate Chained(d: seq<byte>, hdr: nat, blocks: seq<Span>)
    requires Within(blocks, hdr + 8, |d|) && hdr + 12 <= |d|
  {
    && (forall i :: 0 <= i <= |blocks| ==> Get2(d, Link(hdr, blocks, i)) == LinkTarget(blocks, i))
    && (forall i :: 0 <= i < |blocks| ==> Get2(d, blocks[i].start + 2) == blocks[i].size)
  }

  /** A page whose content area, above lo, is laid out as used spans and free blocks.  Besides the fragments that the header counts,
      `lost` bytes belong to nothing. */
  ghost predicate Laid(d: seq<byte>, usable: nat, hdr: nat, lo: nat, used: seq<Span>, blocks: seq<Span>, lost: nat) {
    && hdr + 8 <= lo && hdr + 12 <= usable <= |d| && usable <= 0x1_0000
    && lo <= Top(d, hdr) && Area(usable, Top(d, hdr), d[hdr + 7] + lost, used, blocks)
    && Within(blocks, hdr + 8, |d|) && Chained(d, hdr, blocks)
  }

  // ----- what a change of the free space leaves alone -----

  /** Everything but the free space and the fields that describe it. */
  ghost predicate Kept(d: seq<byte>, d': seq<byte>, usable: nat, hdr: nat, lo: nat, used: seq<Span>) {
    && |d'| == |d| && hdr + 12 <= usable <= |d|
    && SameOn(d, d', 0, hdr + 1) && SameOn(d, d', hdr + 3, hdr + 5) && SameOn(d, d', hdr + 8, lo) && SameOn(d, d', usable, |d|)
    && (forall i :: 0 <= i < |used| ==> used[i].End() <= |d| && SameOn(d, d', used[i].start, used[i].End()))
  }

  lemma KeptSelf(d: seq<byte>, usable: nat, hdr: nat, lo: nat, used: seq<Span>)
    requires hdr + 12 <= usable <= |d| && lo <= |d| && Within(used, lo, usable)
    ensures Kept(d, d, usable, hdr, lo, used)
  {
  }

  lemma KeptTrans(a: seq<byte>, b: seq<byte>, c: seq<byte>, usable: nat, hdr: nat, lo: nat, used: seq<Span>)
    requires Kept(a, b, usable, hdr, lo, used) && Kept(b, c, usable, hdr, lo, used)
    ensures Kept(a, c, usable, hdr, lo, used)
  {
    forall i | 0 <= i < |used| ensures SameOn(a, c, used[i].start, used[i].End()) {
      assert SameOn(a, b, used[i].start, used[i].End()) && SameOn(b, c, used[i].start, used[i].End());
    }
  }

  /** A byte of the free space, or of the header fields that describe it. */
  ghost predicate FreeByte(usable: nat, hdr: nat, lo: nat, used: seq<Span>, b: nat) {
    || b == hdr + 1 || b == hdr + 2 || b == hdr + 5 || b == hdr + 6 || b == hdr + 7
    || (lo <= b < usable && forall i :: 0 <= i < |used| ==> b < used[i].start || used[i].End() <= b)
  }

  lemma KeptPut(d: seq<byte>, b: nat, v: byte, usable: nat, hdr: nat, lo: nat, used: seq<Span>)
    requires hdr + 12 <= usable <= |d| && hdr + 8 <= lo <= |d| && Within(used, lo, usable) && FreeByte(usable, hdr, lo, used, b)
    ensures Kept(d, d[b := v], usable, hdr, lo, used)
  {
  }

  lemma KeptPut2(d: seq<byte>, a: nat, v: nat, usable: nat, hdr: nat, lo: nat, used: seq<Span>)
    requires hdr + 12 <= usable <= |d| && hdr + 8 <= lo <= |d| && Within(used, lo, usable)
    requires FreeByte(usable, hdr, lo, used, a) && FreeByte(usable, hdr, lo, used, a + 1) && a + 2 <= |d|
    ensures Kept(d, Put2(d, a, v), usable, hdr, lo, used)
  {
    hide FreeByte;
    KeptPut(d, a, (v / 256) % 256, usable, hdr, lo, used);
    var d1 := d[a := (v / 256) % 256];
    KeptPut(d1, a + 1, v % 256, usable, hdr, lo, used);
    KeptTrans(d, d1, Put2(d, a, v), usable, hdr, lo, used);
  }

  /** The first four bytes of a free block are free bytes. */
  lemma BlockBytes(usable: nat, hdr: nat, lo: nat, used: seq<Span>, blocks: seq<Span>, k: nat, b: nat)
    requires Within(blocks, lo, usable) && NoneMeets(used, blocks) && k < |blocks| && blocks[k].start <= b < blocks[k].End()
    ensures FreeByte(usable, hdr, lo, used, b)
  {
    forall i | 0 <= i < |used| ensures b < used[i].start || used[i].End() <= b { assert Apart(used[i], blocks[k]); }
  }

  // ----- the contents of cells -----

  ghost predicate InPage(d: seq<byte>, cells: seq<Span>) {
    forall i :: 0 <= i < |cells| ==> cells[i].End() <= |d|
  }

  function Content(d: seq<byte>, s: Span): seq<byte>
    requires s.End() <= |d|
  {
    d[s.start..s.End()]
  }

  function Contents(d: seq<byte>, cells: seq<Span>): (r: seq<seq<byte>>)
    requires InPage(d, cells)
    ensures |r| == |cells|
    ensures forall i :: 0 <= i < |r| ==> r[i] == Content(d, cells[i])
  {
    seq(|cells|, i requires 0 <= i < |cells| => Content(d, cells[i]))
  }

  lemma KeptContents(d: seq<byte>, d': seq<byte>, usable: nat, hdr: nat, lo: nat, used: seq<Span>)
    requires Kept(d, d', usable, hdr, lo, used)
    ensures InPage(d, used) && InPage(d', used) && Contents(d', used) == Contents(d, used)
  {
    forall i | 0 <= i < |used| ensures Content(d', used[i]) == Content(d, used[i]) {
      assert SameOn(d, d', used[i].start, used[i].End());
    }
  }

  /** Cell pointer i. */
  ghost predicate Pointed(d: seq<byte>, off: nat, cells: seq<Span>) {
    off + 2 * |cells| <= |d| && forall i :: 0 <= i < |cells| ==> Get2(d, off + 2 * i) == cells[i].start
  }

  lemma KeptPointers(d: seq<byte>, d': seq<byte>, usable: nat, hdr: nat, off: nat, lo: nat, used: seq<Span>, cells: seq<Span>)
    requires Kept(d, d', usable, hdr, lo, used) && Pointed(d, off, cells) && hdr + 8 <= off && off + 2 * |cells| <= lo
    ensures Pointed(d', off, cells)
    ensures Get2(d', hdr + 3) == Get2(d, hdr + 3)
  {
  }

  // ----- the chain after a block is added, merged, dropped, taken -----

  lemma LinkInside(d: seq<byte>, hdr: nat, blocks: seq<Span>, i: nat)
    requires Within(blocks, hdr + 8, |d|) && i <= |blocks|
    ensures hdr + 12 <= |d| ==> Link(hdr, blocks, i) + 4 <= |d|
    ensures i < |blocks| && Ascending(blocks) ==> Link(hdr, blocks, i) + 4 <= blocks[i].start
  {
  }

  /** Distinct links, and links and sizes, do not overlap. */
  lemma LinksApart(hdr: nat, blocks: seq<Span>, i: nat, j: nat, hi: nat)
    requires Within(blocks, hdr + 8, hi) && Ascending(blocks) && i < j <= |blocks|
    ensures Link(hdr, blocks, i) + 4 <= Link(hdr, blocks, j)
  {
    if i > 0 { assert blocks[i - 1].End() <= blocks[j - 1].start; }
  }

  predicate Clear(a: nat, b: nat) { a + 2 <= b || b + 2 <= a }

  function Puts(d: seq<byte>, a1: nat, v1: nat, a2: nat, v2: nat, a3: nat, v3: nat): (r: seq<byte>)
    requires a1 + 2 <= |d| && a2 + 2 <= |d| && a3 + 2 <= |d|
    ensures |r| == |d|
  {
    Put2(Put2(Put2(d, a1, v1), a2, v2), a3, v3)
  }

  lemma PutsRead(d: seq<byte>, a1: nat, v1: nat, a2: nat, v2: nat, a3: nat, v3: nat)
    requires a1 + 2 <= |d| && a2 + 2 <= |d| && a3 + 2 <= |d| && Clear(a1, a2) && Clear(a1, a3) && Clear(a2, a3)
    requires v1 < 0x1_0000 && v2 < 0x1_0000 && v3 < 0x1_0000
    ensures var d' := Puts(d, a1, v1, a2, v2, a3, v3); Get2(d', a1) == v1 && Get2(d', a2) == v2 && Get2(d', a3) == v3
  {
    Get2Put2(d, a1, v1);
    var d1 := Put2(d, a1, v1);
    Get2Put2(d1, a2, v2);
    Get2Put2(Put2(d1, a2, v2), a3, v3);
    hide Get2, Put2;
  }

  lemma PutsOther(d: seq<byte>, a1: nat, v1: nat, a2: nat, v2: nat, a3: nat, v3: nat, b: nat)
    requires a1 + 2 <= |d| && a2 + 2 <= |d| && a3 + 2 <= |d|
    requires b + 2 <= |d| && Clear(b, a1) && Clear(b, a2) && Clear(b, a3)
    ensures Get2(Puts(d, a1, v1, a2, v2, a3, v3), b) == Get2(d, b)
  {
  }

  lemma LinkOfInsert(hdr: nat, blocks: seq<Span>, k: nat, s: Span, i: nat)
    requires k <= |blocks| && i <= |blocks| + 1
    ensures var b := Insert(blocks, k, s);
      && |b| == |blocks| + 1
      && Link(hdr, b, i) == (if i <= k then Link(hdr, blocks, i) else if i == k + 1 then s.start else Link(hdr, blocks, i - 1))
      && LinkTarget(b, i) == (if i < k then LinkTarget(blocks, i) else if i == k then s.start else LinkTarget(blocks, i - 1))
      && (i < |b| ==> b[i] == if i < k then blocks[i] else if i == k then s else blocks[i - 1])
  {
  }

  /** The page once block s has been linked in as block k. */
  function LinkIn(d: seq<byte>, hdr: nat, blocks: seq<Span>, k: nat, s: Span): (r: seq<byte>)
    requires k <= |blocks| && Link(hdr, blocks, k) + 2 <= |d| && s.start + 4 <= |d|
    ensures |r| == |d|
  {
    Puts(d, Link(hdr, blocks, k), s.start, s.start, LinkTarget(blocks, k), s.start + 2, s.size)
  }

  lemma LinkedIn(d: seq<byte>, hdr: nat, blocks: seq<Span>, k: nat, s: Span, i: nat)
    requires Within(blocks, hdr + 8, |d|) && hdr + 12 <= |d| <= 0x1_0000 && Chained(d, hdr, blocks) && k <= |blocks|
    requires Within(Insert(blocks, k, s), hdr + 8, |d|) && Ascending(Insert(blocks, k, s)) && i <= |blocks| + 1
    ensures Link(hdr, blocks, k) + 4 <= s.start && s.start + 4 <= |d|
    ensures var b, d' := Insert(blocks, k, s), LinkIn(d, hdr, blocks, k, s);
      && Get2(d', Link(hdr, b, i)) == LinkTarget(b, i)
      && (i < |b| ==> Get2(d', b[i].start + 2) == b[i].size)
  {
    hide Get2, Put2, Puts, Insert, Ascending, Clear, LinkTarget;
    var b, l := Insert(blocks, k, s), Link(hdr, blocks, k);
    LinkOfInsert(hdr, blocks, k, s, k);
    LinkOfInsert(hdr, blocks, k, s, k + 1);
    LinkOfInsert(hdr, blocks, k, s, i);
    LinksApart(hdr, b, k, k + 1, |d|);
    LinkInside(d, hdr, b, i);
    FieldsApart(l, s.start);
    TargetSmall(blocks, hdr, k, |d|);
    PutsRead(d, l, s.start, s.start, LinkTarget(blocks, k), s.start + 2, s.size);
    InsertedClear(hdr, b, k, i, |d|);
    if i != k && i != k + 1 {
      PutsOther(d, l, s.start, s.start, LinkTarget(blocks, k), s.start + 2, s.size, Link(hdr, b, i));
    }
    if i < |b| && i != k {
      LinkOfInsert(hdr, blocks, k, s, i + 1);
      InsertedClear(hdr, b, k, i + 1, |d|);
      PutsOther(d, l, s.start, s.start, LinkTarget(blocks, k), s.start + 2, s.size, b[i].start + 2);
    }
  }

  lemma FieldsApart(l: nat, s: nat)
    requires l + 4 <= s
    ensures Clear(l, s) && Clear(l, s + 2) && Clear(s, s + 2)
  {
  }

  lemma TargetSmall(blocks: seq<Span>, lo: nat, k: nat, hi: nat)
    requires Within(blocks, lo + 8, hi) && hi <= 0x1_0000
    ensures LinkTarget(blocks, k) < 0x1_0000
  {
  }

  lemma ChainInserted(d: seq<byte>, hdr: nat, blocks: seq<Span>, k: nat, s: Span)
    requires Within(blocks, hdr + 8, |d|) && hdr + 12 <= |d| <= 0x1_0000 && Chained(d, hdr, blocks) && k <= |blocks|
    requires Within(Insert(blocks, k, s), hdr + 8, |d|) && Ascending(Insert(blocks, k, s))
    ensures Link(hdr, blocks, k) + 4 <= s.start && s.start + 4 <= |d|
    ensures Chained(LinkIn(d, hdr, blocks, k, s), hdr, Insert(blocks, k, s))
  {
    hide Get2, LinkIn, LinkTarget;
    LinkedIn(d, hdr, blocks, k, s, k);
    forall i | 0 <= i <= |blocks| + 1
      ensures Get2(LinkIn(d, hdr, blocks, k, s), Link(hdr, Insert(blocks, k, s), i)) == LinkTarget(Insert(blocks, k, s), i)
    {
      LinkedIn(d, hdr, blocks, k, s, i);
    }
    forall i | 0 <= i < |blocks| + 1
      ensures Get2(LinkIn(d, hdr, blocks, k, s), Insert(blocks, k, s)[i].start + 2) == Insert(blocks, k, s)[i].size
    {
      LinkedIn(d, hdr, blocks, k, s, i);
    }
  }

  /** The other links and sizes are clear of the three fields written for block k. */
  lemma InsertedClear(hdr: nat, b: seq<Span>, k: nat, i: nat, hi: nat)
    requires Within(b, hdr + 8, hi) && Ascending(b) && k < |b| && i <= |b|
    ensures i != k && i != k + 1 ==> var a := Link(hdr, b, i);
      && Clear(a, Link(hdr, b, k)) && Clear(a, b[k].start) && Clear(a, b[k].start + 2)
      && Clear(a + 2, Link(hdr, b, k)) && Clear(a + 2, b[k].start) && Clear(a + 2, b[k].start + 2)
    ensures i == k ==> Clear(Link(hdr, b, k) + 2, Link(hdr, b, k)) && Clear(Link(hdr, b, k) + 2, b[k].start) && Clear(Link(hdr, b, k) + 2, b[k].start + 2)
  {
    LinksApart(hdr, b, k, k + 1, hi);
    if i < k {
      LinksApart(hdr, b, i, k, hi);
    } else if i > k + 1 {
      LinksApart(hdr, b, k + 1, i, hi);
    }
  }

  lemma OneRead(d: seq<byte>, a: nat, v: nat)
    requires a + 2 <= |d| && v < 0x1_0000
    ensures Get2(Put2(d, a, v), a) == v
  {
    Get2Put2(d, a, v);
  }

  lemma OneOther(d: seq<byte>, a: nat, v: nat, b: nat)
    requires a + 2 <= |d| && b + 2 <= |d| && Clear(b, a)
    ensures Get2(Put2(d, a, v), b) == Get2(d, b)
  {
  }

  /** Block k takes in block k+1. */
  function LinkOver(d: seq<byte>, blocks: seq<Span>, k: nat): (r: seq<byte>)
    requires k + 1 < |blocks| && blocks[k].start + 4 <= |d| && blocks[k].start <= blocks[k + 1].End()
    ensures |r| == |d|
  {
    Put2(Put2(d, blocks[k].start, LinkTarget(blocks, k + 2)), blocks[k].start + 2, blocks[k + 1].End() - blocks[k].start)
  }

  lemma LinkOfMerge(hdr: nat, blocks: seq<Span>, k: nat, i: nat)
    requires k + 1 < |blocks| && blocks[k].start <= blocks[k + 1].End() && i < |blocks|
    ensures var b := Merge(blocks, k);
      && |b| == |blocks| - 1
      && Link(hdr, b, i) == Link(hdr, blocks, if i <= k + 1 then i else i + 1)
      && LinkTarget(b, i) == LinkTarget(blocks, if i <= k then i else i + 1)
      && (i < |b| && i != k ==> b[i] == blocks[if i < k then i else i + 1])
      && b[k] == Span(blocks[k].start, blocks[k + 1].End() - blocks[k].start)
  {
  }

  /** Links and sizes of other blocks are clear of block k's own fields. */
  lemma FieldsClear(hdr: nat, b: seq<Span>, k: nat, i: nat, hi: nat)
    requires Within(b, hdr + 8, hi) && Ascending(b) && k < |b| && i <= |b| && i != k + 1
    ensures var a := Link(hdr, b, i);
      && Clear(a, b[k].start) && Clear(a, b[k].start + 2) && Clear(a + 2, b[k].start) && Clear(a + 2, b[k].start + 2)
  {
    if i < k + 1 { LinksApart(hdr, b, i, k + 1, hi); } else { LinksApart(hdr, b, k + 1, i, hi); }
  }

  lemma LinkedOver(d: seq<byte>, hdr: nat, blocks: seq<Span>, k: nat, i: nat)
    requires Within(blocks, hdr + 8, |d|) && hdr + 12 <= |d| <= 0x1_0000 && Chained(d, hdr, blocks) && Ascending(blocks)
    requires k + 1 < |blocks| && i < |blocks| && blocks[k].start <= blocks[k + 1].End()
    ensures var b, d' := Merge(blocks, k), LinkOver(d, blocks, k);
      && Link(hdr, b, i) + 4 <= |d|
      && Get2(d', Link(hdr, b, i)) == LinkTarget(b, i)
      && (i < |b| ==> Get2(d', b[i].start + 2) == b[i].size)
  {
    hide Get2, Put2, Ascending, Clear, LinkTarget;
    var b, a := Merge(blocks, k), blocks[k].start;
    var v, n := LinkTarget(blocks, k + 2), blocks[k + 1].End() - blocks[k].start;
    LinkOfMerge(hdr, blocks, k, i);
    var j := if i <= k + 1 then i else i + 1;
    LinkInside(d, hdr, blocks, j);
    TargetSmall(blocks, hdr, k + 2, |d|);
    var d1 := Put2(d, a, v);
    OneRead(d, a, v);
    OneRead(d1, a + 2, n);
    if i != k + 1 {
      FieldsClear(hdr, blocks, k, j, |d|);
      OneOther(d, a, v, Link(hdr, b, i));
      OneOther(d1, a + 2, n, Link(hdr, b, i));
    } else {
      ClearNext(a);
      OneOther(d1, a + 2, n, a);
    }
    if i < |b| && i != k {
      var m := if i < k then i else i + 1;
      FieldsClear(hdr, blocks, k, m + 1, |d|);
      OneOther(d, a, v, b[i].start + 2);
      OneOther(d1, a + 2, n, b[i].start + 2);
    }
  }

  lemma ClearNext(a: nat)
    ensures Clear(a, a + 2)
  {
  }

  lemma ChainMerged(d: seq<byte>, hdr: nat, blocks: seq<Span>, k: nat)
    requires Within(blocks, hdr + 8, |d|) && hdr + 12 <= |d| <= 0x1_0000 && Chained(d, hdr, blocks) && Ascending(blocks)
    requires k + 1 < |blocks| && blocks[k].start <= blocks[k + 1].End() && Within(Merge(blocks, k), hdr + 8, |d|)
    ensures Chained(LinkOver(d, blocks, k), hdr, Merge(blocks, k))
  {
    hide Get2, LinkOver, LinkTarget, Merge;
    LinkOfMerge(hdr, blocks, k, 0);
    forall i | 0 <= i <= |blocks| - 1
      ensures Link(hdr, Merge(blocks, k), i) + 4 <= |d|
      ensures Get2(LinkOver(d, blocks, k), Link(hdr, Merge(blocks, k), i)) == LinkTarget(Merge(blocks, k), i)
    {
      LinkedOver(d, hdr, blocks, k, i);
    }
    forall i | 0 <= i < |blocks| - 1
      ensures Get2(LinkOver(d, blocks, k), Merge(blocks, k)[i].start + 2) == Merge(blocks, k)[i].size
    {
      LinkedOver(d, hdr, blocks, k, i);
    }
  }

  /** Block k is skipped by the link before it. */
  function LinkPast(d: seq<byte>, hdr: nat, blocks: seq<Span>, k: nat): (r: seq<byte>)
    requires k < |blocks| && Link(hdr, blocks, k) + 2 <= |d|
    ensures |r| == |d|
  {
    Put2(d, Link(hdr, blocks, k), LinkTarget(blocks, k + 1))
  }

  function Without(blocks: seq<Span>, k: nat): seq<Span>
    requires k < |blocks|
  {
    blocks[..k] + blocks[k + 1..]
  }

  lemma LinkedPast(d: seq<byte>, hdr: nat, blocks: seq<Span>, k: nat, i: nat)
    requires Within(blocks, hdr + 8, |d|) && hdr + 12 <= |d| <= 0x1_0000 && Chained(d, hdr, blocks) && Ascending(blocks)
    requires k < |blocks| && i < |blocks|
    ensures var b, d' := Without(blocks, k), LinkPast(d, hdr, blocks, k);
      && Link(hdr, b, i) + 4 <= |d|
      && Get2(d', Link(hdr, b, i)) == LinkTarget(b, i)
      && (i < |b| ==> Get2(d', b[i].start + 2) == b[i].size)
  {
    hide Get2, Put2, Ascending;
    var b, a, v := Without(blocks, k), Link(hdr, blocks, k), LinkTarget(blocks, k + 1);
    TargetSmall(blocks, hdr, k + 1, |d|);
    OneRead(d, a, v);
    var j := if i <= k then i else i + 1;
    assert Link(hdr, b, i) == Link(hdr, blocks, j);
    LinkInside(d, hdr, blocks, j);
    if j < k {
      LinksApart(hdr, blocks, j, k, |d|);
      OneOther(d, a, v, Link(hdr, b, i));
    } else if j > k {
      LinksApart(hdr, blocks, k, j, |d|);
      OneOther(d, a, v, Link(hdr, b, i));
    }
    if i < |b| {
      var m := if i < k then i else i + 1;
      assert b[i] == blocks[m];
      if m + 1 < k { LinksApart(hdr, blocks, m + 1, k, |d|); }
      if k < m + 1 { LinksApart(hdr, blocks, k, m + 1, |d|); }
      OneOther(d, a, v, b[i].start + 2);
    }
  }

  lemma ChainPast(d: seq<byte>, hdr: nat, blocks: seq<Span>, k: nat)
    requires Within(blocks, hdr + 8, |d|) && hdr + 12 <= |d| <= 0x1_0000 && Chained(d, hdr, blocks) && Ascending(blocks)
    requires k < |blocks| && Within(Without(blocks, k), hdr + 8, |d|)
    ensures Chained(LinkPast(d, hdr, blocks, k), hdr, Without(blocks, k))
  {
    hide Get2, LinkPast, LinkTarget;
    forall i | 0 <= i <= |blocks| - 1
      ensures Link(hdr, Without(blocks, k), i) + 4 <= |d|
      ensures Get2(LinkPast(d, hdr, blocks, k), Link(hdr, Without(blocks, k), i)) == LinkTarget(Without(blocks, k), i)
    {
      LinkedPast(d, hdr, blocks, k, i);
    }
    forall i | 0 <= i < |blocks| - 1
      ensures Get2(LinkPast(d, hdr, blocks, k), Without(blocks, k)[i].start + 2) == Without(blocks, k)[i].size
    {
      LinkedPast(d, hdr, blocks, k, i);
    }
  }

  /** Block k keeps only its first x bytes. */
  lemma ChainShrunk(d: seq<byte>, hdr: nat, blocks: seq<Span>, k: nat, x: nat)
    requires Within(blocks, hdr + 8, |d|) && hdr + 12 <= |d| <= 0x1_0000 && Chained(d, hdr, blocks) && Ascending(blocks)
    requires k < |blocks| && 4 <= x <= blocks[k].size
    ensures Chained(Put2(d, blocks[k].start + 2, x), hdr, blocks[k := Span(blocks[k].start, x)])
  {
    hide Get2, Put2, Ascending;
    var b, a := blocks[k := Span(blocks[k].start, x)], blocks[k].start + 2;
    var d' := Put2(d, a, x);
    OneRead(d, a, x);
    forall i | 0 <= i <= |b| ensures Get2(d', Link(hdr, b, i)) == LinkTarget(b, i) {
      assert Link(hdr, b, i) == Link(hdr, blocks, i) && LinkTarget(b, i) == LinkTarget(blocks, i);
      if i != k + 1 { FieldsClear(hdr, blocks, k, i, |d|); }
      OneOther(d, a, x, Link(hdr, b, i));
    }
    forall i | 0 <= i < |b| ensures Get2(d', b[i].start + 2) == b[i].size {
      if i != k {
        FieldsClear(hdr, blocks, k, i + 1, |d|);
        OneOther(d, a, x, b[i].start + 2);
      }
    }
  }

  /** The other header fields and the rest of the page do not matter to the chain. */
  lemma ChainElsewhere(d: seq<byte>, d': seq<byte>, hdr: nat, blocks: seq<Span>)
    requires Within(blocks, hdr + 8, |d|) && hdr + 12 <= |d| == |d'| && Chained(d, hdr, blocks)
    requires SameOn(d, d', hdr + 1, hdr + 3)
    requires forall i :: 0 <= i < |blocks| ==> SameOn(d, d', blocks[i].start, blocks[i].start + 4)
    ensures Chained(d', hdr, blocks)
  {
    forall i | 0 <= i <= |blocks| ensures Get2(d', Link(hdr, blocks, i)) == LinkTarget(blocks, i) {
      assert Get2(d, Link(hdr, blocks, i)) == LinkTarget(blocks, i);
      if i > 0 { assert SameOn(d, d', blocks[i - 1].start, blocks[i - 1].start + 4); }
    }
    forall i | 0 <= i < |blocks| ensures Get2(d', blocks[i].start + 2) == blocks[i].size {
      assert SameOn(d, d', blocks[i].start, blocks[i].start + 4);
    }
  }
}
