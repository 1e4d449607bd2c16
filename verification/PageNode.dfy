/** The page in an array of bytes and the page as a node of a tree: reading the bytes gives the node, and edits of one are edits of the other. */
module PageNode {
  import opened Bytes
  import opened CellFormat
  import opened CellHeader
  import opened BtreeNode
  import BtreeShape
  import PageSpace
  import PageBytes
  import PageDefrag
  import opened PageEdit
  import opened MemPages

  /** How keys and data are read does not matter here; how many bytes a cell takes does. */
  type Reader = seq<byte> -> Cell

  /** The bytes of a cell without its child pointer, and without the padding of a very short one. */
  function Body(f: Format, c: seq<byte>): nat
    requires f.Sane()
  {
    var info := ParseCell(f, c);
    info.nHeader - f.ChildPtrSize() + info.nLocal + if info.iOverflow > 0 then 4 else 0
  }

  function ReadCell(read: Reader, f: Format, c: seq<byte>): Cell
    requires f.Sane()
  {
    read(c).(body := Body(f, c))
  }

  function ReadCells(read: Reader, f: Format, cs: seq<seq<byte>>): (r: seq<Cell>)
    requires f.Sane()
    ensures |r| == |cs| && forall i :: 0 <= i < |cs| ==> r[i] == ReadCell(read, f, cs[i])
  {
    seq(|cs|, i requires 0 <= i < |cs| => ReadCell(read, f, cs[i]))
  }

  /** The cells on a page, and those put aside, read as those of node n. */
  ghost predicate CellsRead(f: Format, cs: seq<seq<byte>>, over: seq<(nat, seq<byte>)>, n: Node, read: Reader)
    requires f.Sane()
  {
    && BtreeShape.OvflInRange(n) && BtreeShape.OnPage(n) == ReadCells(read, f, cs) && |over| == n.nOv
    && forall k :: 0 <= k < n.nOv ==>
        over[k].0 == n.ovAt + k && StartsCell(f, over[k].1) && n.cells[n.ovAt + k] == ReadCell(read, f, FirstCell(f, over[k].1))
  }

  /** A page of bytes reads as node n; the children themselves are on other pages. */
  ghost predicate Reads(p: MemPage, n: Node, kind: Kind, read: Reader)
    reads p, p.aData
  {
    && p.Valid() && p.f.Sane() && CellsRead(p.f, p.OnPage(), p.overflow, n, read) && p.lost == n.lost
    && p.f.intKey == kind.Table? && p.f.leaf == n.leaf && p.hdr == (if n.pgno == 1 then 100 else 0)
  }

  lemma SizeRead(read: Reader, f: Format, c: seq<byte>)
    requires f.Sane() && IsCell(f, c)
    ensures BtreeShape.Size(f.leaf, ReadCell(read, f, c)) == |c|
  {
    SizeAgrees(f, c);
  }

  lemma {:induction false} SpanTotal(sz: seq<nat>, cells: seq<PageSpace.Span>)
    requires |sz| == |cells| && forall i :: 0 <= i < |sz| ==> sz[i] == cells[i].size
    ensures BtreeShape.Span(sz, 0, |sz|) == PageSpace.Total(cells) + 2 * |cells|
  {
    if sz != [] {
      var n := |sz| - 1;
      SpanTotal(sz[..n], cells[..n]);
      BtreeShape.SpanShift(sz[..n], sz, 0, n, 0);
    }
  }

  /** Both count the same free bytes. */
  lemma FreeAgrees(p: MemPage, n: Node, kind: Kind, read: Reader)
    requires Reads(p, n, kind, read)
    ensures BtreeShape.OvflInRange(n)
    ensures p.nFree == BtreeShape.NFree(p.f.usable, n) && p.nCell == |BtreeShape.OnPage(n)|
  {
    hide PageBytes.Laid, PageBytes.Pointed, CellSize, Whole, IsCell;
    PageDefrag.PageTotals(p.aData[..], p.f, p.hdr, p.nFree, p.cells, p.blocks, p.lost);
    var cs := BtreeShape.OnPage(n);
    var sz := BtreeShape.Sizes(n.leaf, cs);
    forall i | 0 <= i < |sz| ensures sz[i] == p.cells[i].size {
      assert IsCell(p.f, p.OnPage()[i]);
      SizeRead(read, p.f, p.OnPage()[i]);
    }
    SpanTotal(sz, p.cells);
  }

  lemma ReadPut(read: Reader, f: Format, cs: seq<seq<byte>>, i: nat, c: seq<byte>)
    requires f.Sane() && i <= |cs|
    ensures ReadCells(read, f, Put(cs, i, i, [c])) == ReadCells(read, f, cs)[..i] + [ReadCell(read, f, c)] + ReadCells(read, f, cs)[i..]
    ensures i < |cs| ==> ReadCells(read, f, Put(cs, i, i + 1, [])) == ReadCells(read, f, cs)[..i] + ReadCells(read, f, cs)[i + 1..]
  {
    hide ReadCell;
    var r := ReadCells(read, f, cs);
    assert ReadCells(read, f, Put(cs, i, i, [c])) == r[..i] + [ReadCell(read, f, c)] + r[i..];
    if i < |cs| { assert ReadCells(read, f, Put(cs, i, i + 1, [])) == r[..i] + r[i + 1..]; }
  }

  lemma InsertRead(f: Format, cs: seq<seq<byte>>, over: seq<(nat, seq<byte>)>, n: Node, read: Reader, i: nat, c: seq<byte>, u: nat)
    requires f.Sane() && CellsRead(f, cs, over, n, read) && i <= |n.cells| && (n.nOv > 0 ==> i == n.ovAt + n.nOv) && StartsCell(f, c)
    ensures n.nOv == 0 ==> i <= |cs|
    ensures var n' := BtreeShape.InsertCell(u, n, i, ReadCell(read, f, FirstCell(f, c)), |c|);
      if n.nOv > 0 || |c| + 2 > BtreeShape.NFree(u, n) then CellsRead(f, cs, over + [(i, c)], n', read)
      else CellsRead(f, Put(cs, i, i, [FirstCell(f, c)]), [], n', read)
  {
    hide CellsRead, Put, ReadCell, StartsCell, FirstCell, BtreeShape.NFree;
    AsideCount(f, cs, over, n, read);
    if n.nOv > 0 || |c| + 2 > BtreeShape.NFree(u, n) {
      AsideRead(f, cs, over, n, read, i, c, u);
    } else {
      PutRead(f, cs, over, n, read, i, c, u);
    }
    if n.nOv == 0 {
      BtreeShape.OnPageAll(n);
    }
  }

  lemma AsideRead(f: Format, cs: seq<seq<byte>>, over: seq<(nat, seq<byte>)>, n: Node, read: Reader, i: nat, c: seq<byte>, u: nat)
    requires f.Sane() && CellsRead(f, cs, over, n, read) && i <= |n.cells| && (n.nOv > 0 ==> i == n.ovAt + n.nOv) && StartsCell(f, c)
    requires n.nOv > 0 || |c| + 2 > BtreeShape.NFree(u, n)
    ensures CellsRead(f, cs, over + [(i, c)], BtreeShape.InsertCell(u, n, i, ReadCell(read, f, FirstCell(f, c)), |c|), read)
  {
    hide Put, ReadCell, StartsCell, FirstCell, BtreeShape.NFree, BtreeShape.OnPage;
    BtreeShape.InsertOnPage(u, n, i, ReadCell(read, f, FirstCell(f, c)), |c|);
  }

  lemma PutRead(f: Format, cs: seq<seq<byte>>, over: seq<(nat, seq<byte>)>, n: Node, read: Reader, i: nat, c: seq<byte>, u: nat)
    requires f.Sane() && CellsRead(f, cs, over, n, read) && i <= |n.cells| && StartsCell(f, c)
    requires n.nOv == 0 && |c| + 2 <= BtreeShape.NFree(u, n)
    ensures i <= |cs| && CellsRead(f, Put(cs, i, i, [FirstCell(f, c)]), [], BtreeShape.InsertCell(u, n, i, ReadCell(read, f, FirstCell(f, c)), |c|), read)
  {
    hide Put, ReadCell, StartsCell, FirstCell, BtreeShape.NFree, BtreeShape.OnPage;
    BtreeShape.InsertOnPage(u, n, i, ReadCell(read, f, FirstCell(f, c)), |c|);
    BtreeShape.OnPageAll(n);
    ReadPut(read, f, cs, i, FirstCell(f, c));
  }

  lemma AsideCount(f: Format, cs: seq<seq<byte>>, over: seq<(nat, seq<byte>)>, n: Node, read: Reader)
    requires f.Sane() && CellsRead(f, cs, over, n, read)
    ensures BtreeShape.OvflInRange(n) && |over| == n.nOv && |cs| == |BtreeShape.OnPage(n)|
  {
  }

  /** insertCell on the bytes inserts into the node.  It fails exactly where a page that has lost bytes would have to be defragmented. */
  method InsertCell(p: MemPage, i: nat, pCell: seq<byte>, iChild: nat, ghost n: Node, ghost kind: Kind, ghost read: Reader) returns (ok: bool)
    requires Reads(p, n, kind, read) && i <= |n.cells| && (n.nOv > 0 ==> i == n.ovAt + n.nOv)
    requires (iChild != 0 ==> |pCell| >= 4) && StartsCell(p.f, WithChild(pCell, iChild))
    modifies p, p.aData
    ensures p.hdr + 12 <= p.aData.Length
    ensures ok <==> n.nOv > 0 || |pCell| + 2 > BtreeShape.NFree(p.f.usable, n) || n.lost == 0
                    || !Crowded(old(p.aData[..]), p.f, p.hdr, old(p.nCell), old(p.blocks), |pCell|)
    ensures ok ==> var c := WithChild(pCell, iChild);
      Reads(p, BtreeShape.InsertCell(p.f.usable, n, i, ReadCell(read, p.f, FirstCell(p.f, c)), |c|), kind, read)
  {
    hide IsCell, Put, ParseCell, CellSize, PageDefrag.PageOk, ReadCell, CellsRead, Crowded, FirstCell, StartsCell;
    ghost var c := WithChild(pCell, iChild);
    FreeAgrees(p, n, kind, read);
    InsertRead(p.f, p.OnPage(), p.overflow, n, read, i, c, p.f.usable);
    AsideCount(p.f, p.OnPage(), p.overflow, n, read);
    SizeRead(read, p.f, FirstCell(p.f, c));
    ok := p.InsertCell(i, pCell, iChild);
  }

  lemma DropRead(f: Format, cs: seq<seq<byte>>, over: seq<(nat, seq<byte>)>, n: Node, read: Reader, i: nat)
    requires f.Sane() && CellsRead(f, cs, over, n, read) && n.nOv == 0 && i < |n.cells|
    ensures i < |cs| && CellsRead(f, Put(cs, i, i + 1, []), over, BtreeShape.DropCell(n, i), read)
  {
    hide Put, ReadCell, BtreeShape.OnPage;
    BtreeShape.OnPageAll(n);
    BtreeShape.OnPageAll(BtreeShape.DropCell(n, i));
    ReadPut(read, f, cs, i, []);
  }

  /** dropCell on the bytes drops it from the node. */
  method DropCell(p: MemPage, i: nat, sz: nat, ghost n: Node, ghost kind: Kind, ghost read: Reader) returns (ok: bool)
    requires Reads(p, n, kind, read) && n.nOv == 0 && i < |n.cells| && sz == BtreeShape.Size(n.leaf, n.cells[i])
    modifies p, p.aData
    ensures n.lost == 0 ==> ok
    ensures ok ==> Reads(p, BtreeShape.DropCell(n, i), kind, read) && p.overflow == []
  {
    hide IsCell, Put, ParseCell, CellSize, PageDefrag.PageOk, ReadCell, CellsRead;
    FreeAgrees(p, n, kind, read);
    AsideCount(p.f, p.OnPage(), p.overflow, n, read);
    DropRead(p.f, p.OnPage(), p.overflow, n, read, i);
    CellRead(p, n, kind, read, i);
    ghost var k;
    ok, k := p.DropCell(i, sz);
  }

  lemma CellRead(p: MemPage, n: Node, kind: Kind, read: Reader, i: nat)
    requires Reads(p, n, kind, read) && n.nOv == 0 && i < |n.cells|
    ensures i < |p.OnPage()| && |p.OnPage()[i]| == BtreeShape.Size(n.leaf, n.cells[i])
  {
    hide PageBytes.Laid, PageBytes.Pointed, CellSize, Whole, IsCell;
    BtreeShape.OnPageAll(n);
    assert IsCell(p.f, p.OnPage()[i]);
    SizeRead(read, p.f, p.OnPage()[i]);
  }

  // ----- a cell moves up from a leaf -----

  /** What the cell of an index takes on any page, but for the child pointer and the padding. */
  function IndexBody(u: nat, s: seq<byte>): nat
    requires Format(false, true, u).Sane()
  {
    var f := Format(false, true, u);
    VarintLen(s) + if Varint32(s) > f.MaxLocal() then Local(f, Varint32(s)) + 4 else Varint32(s)
  }

  lemma BodyIs(f: Format, s: seq<byte>)
    requires f.Sane() && !f.intKey
    ensures var n := IndexBody(f.usable, Skip(s, f.ChildPtrSize()));
      Body(f, s) == n && CellSize(f, s) == if f.leaf && n < 4 then 4 else f.ChildPtrSize() + n
  {
    hide VarintLen, VarintValue, Local;
    SameLocal(Format(false, true, f.usable), f, Varint32(Skip(s, f.ChildPtrSize())));
    assert Skip(Skip(s, f.ChildPtrSize()), 0) == Skip(s, f.ChildPtrSize());
  }

  /** A cell of an index leaf with 4 bytes for a child pointer in front is a cell of an interior page, and takes what it took on the leaf
      but for the padding. */
  lemma LiftedSize(u: nat, left: seq<byte>, c: seq<byte>)
    requires Format(false, true, u).Sane() && |left| == 4 && IsCell(Format(false, true, u), c)
    ensures var g := Format(false, false, u);
      && StartsCell(g, left + c) && |FirstCell(g, left + c)| == 4 + Body(Format(false, true, u), c) <= 4 + |c|
      && Body(g, FirstCell(g, left + c)) == Body(Format(false, true, u), c)
  {
    hide VarintLen, VarintValue, IndexBody, CellSize, Body, Whole;
    var f, g := Format(false, true, u), Format(false, false, u);
    assert Skip(left + c, 4) == c && Skip(c, 0) == c;
    BodyIs(f, c);
    BodyIs(g, left + c);
    SizeAgrees(f, c);
    var n := IndexBody(u, c);
    assert (left + c)[..4 + n] == left + c[..n];
    assert Skip(left + c[..n], 4) == c[..n];
    LongEnough(u, c);
    PrefixWhole(c, n);
    SameBody(u, c, c[..n]);
    BodyIs(g, left + c[..n]);
  }

  lemma LongEnough(u: nat, s: seq<byte>)
    requires Format(false, true, u).Sane()
    ensures VarintLen(s) <= IndexBody(u, s)
  {
  }

  lemma SameBody(u: nat, s: seq<byte>, t: seq<byte>)
    requires Format(false, true, u).Sane() && VarintLen(t) == VarintLen(s) && VarintValue(t) == VarintValue(s)
    ensures IndexBody(u, t) == IndexBody(u, s)
  {
  }

  lemma SameLocal(f: Format, g: Format, n: nat)
    requires f.Sane() && g.usable == f.usable && g.intKey == f.intKey
    ensures Local(g, n) == Local(f, n) && g.MaxLocal() == f.MaxLocal()
  {
  }

  lemma PrefixWhole(c: seq<byte>, n: nat)
    requires Whole(c) && VarintLen(c) <= n <= |c|
    ensures Whole(c[..n]) && VarintLen(c[..n]) == VarintLen(c) && VarintValue(c[..n]) == VarintValue(c)
  {
    assert c[..n][..VarintLen(c)] == c[..VarintLen(c)];
    VarintPrefix(c, c[..n]);
  }

  /** The cells the b-tree code fills in for a leaf are within the bounds that balancing relies on. */
  lemma FilledGood(f: Format, left: seq<byte>, nPayload: nat, nKey: nat, c: seq<byte>, kind: Kind, read: Reader)
    requires GoodEntry(f, left, nPayload, nKey) && f.leaf && f.intKey == kind.Table? && 1 <= read(c).keyLen <= 9
    requires var h := HeaderOf(f, left, nPayload, nKey); h <= c && |c| == ParseCell(f, h).nSize
    ensures BtreeShape.GoodCell(kind, f.usable, true, ReadCell(read, f, c))
  {
    hide PutVarint, VarintLen, VarintValue, Whole, IsCell;
    var h := HeaderOf(f, left, nPayload, nKey);
    FilledIsCell(f, left, nPayload, nKey, c);
    assert h + [] == h;
    HeaderReads(f, left, nPayload, nKey, []);
    ShortVarint(nPayload);
    WholeVarint(nKey, []);
  }
}
