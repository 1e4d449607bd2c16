/** A deletion moves the last cell of an index leaf up to an interior page: the bytes of the two pages. */
module PageLift {
  import opened Bytes
  import opened CellFormat
  import opened BtreeNode
  import BtreeShape
  import opened SlottedPage
  import opened PageDefrag
  import opened PageEdit
  import opened MemPages
  import opened PageNode

  function OnLeaf(u: nat): Format { Format(false, true, u) }

  /** The bytes that a leaf cell is padded with. */
  function Padding(u: nat, cell: seq<byte>): nat
    requires OnLeaf(u).Sane()
  {
    if Body(OnLeaf(u), cell) < 4 then 4 - Body(OnLeaf(u), cell) else 0
  }

  lemma PaddedSize(u: nat, cell: seq<byte>)
    requires OnLeaf(u).Sane() && IsCell(OnLeaf(u), cell)
    ensures |cell| == Body(OnLeaf(u), cell) + Padding(u, cell)
  {
    hide VarintLen, VarintValue, Local, Whole;
    SizeAgrees(OnLeaf(u), cell);
  }

  /** Replaces cell i of an interior page by a cell from a leaf: the 4 bytes before it there are replaced by the child pointer.  The padding
      of a short cell is taken off nFree with it and then lost, so that the page stays well-formed exactly if there is none, or if the
      cell was put aside. */
  method LiftCell(p: MemPage, i: nat, sz: nat, before: seq<byte>, cell: seq<byte>, iChild: nat, ghost n: Node, ghost read: Reader)
    returns (ok: bool)
    requires Reads(p, n, Index, read) && !n.leaf && n.nOv == 0 && i < |n.cells| && sz == BtreeShape.Size(false, n.cells[i])
    requires |before| == 4 && IsCell(OnLeaf(p.f.usable), cell) && iChild != 0
    modifies p, p.aData
    ensures n.lost == 0 ==> ok
    ensures ok ==> var c := Bytes4(iChild) + cell;
      && StartsCell(p.f, c) && BtreeShape.OvflInRange(BtreeShape.DropCell(n, i))
      && Reads(p, BtreeShape.InsertCell(p.f.usable, BtreeShape.DropCell(n, i), i, ReadCell(read, p.f, FirstCell(p.f, c)), |cell| + 4), Index, read)
      && p.lost == n.lost + (if p.overflow == [] then Padding(p.f.usable, cell) else 0)
      && (p.lost == 0 <==> n.lost == 0 && (Body(OnLeaf(p.f.usable), cell) >= 4 || p.overflow != []))
  {
    hide IsCell, ParseCell, CellSize, PageOk, ReadCell, CellsRead, FirstCell, StartsCell, Body, Crowded;
    var pCell := before + cell;
    ghost var u := p.f.usable;
    assert WithChild(pCell, iChild) == Bytes4(iChild) + cell;
    FormatOf(p, n, read);
    LiftedSize(u, Bytes4(iChild), cell);
    PaddedSize(u, cell);
    FreeAgrees(p, n, Index, read);
    BtreeShape.DropFree(u, n, i);
    ok := DropCell(p, i, sz, n, Index, read);
    if !ok { return; }
    ok := InsertCell(p, i, pCell, iChild, BtreeShape.DropCell(n, i), Index, read);
    SizeRead(read, p.f, FirstCell(p.f, Bytes4(iChild) + cell));
    if ok { LostAside(p, BtreeShape.DropCell(n, i), i, ReadCell(read, p.f, FirstCell(p.f, Bytes4(iChild) + cell)), |cell| + 4, read); }
  }

  lemma FormatOf(p: MemPage, n: Node, read: Reader)
    requires Reads(p, n, Index, read) && !n.leaf
    ensures p.f == Format(false, false, p.f.usable) && OnLeaf(p.f.usable).Sane()
  {
  }

  lemma LostAside(p: MemPage, n: Node, i: nat, c: Cell, sz: nat, read: Reader)
    requires BtreeShape.OvflInRange(n) && n.nOv == 0 && i <= |n.cells|
    requires Reads(p, BtreeShape.InsertCell(p.f.usable, n, i, c, sz), Index, read)
    ensures p.lost == n.lost + if p.overflow == [] then BtreeShape.Surplus(n.leaf, c, sz) else 0
  {
    hide PageOk, BtreeShape.NFree, BtreeShape.Size;
  }

  /** A cell of an index leaf for a record of two bytes, such as that of an empty text: 3 bytes, and one of padding.  With a child pointer
      it takes 7 bytes and not 8. */
  lemma ShortCell(u: nat, left: seq<byte>)
    requires OnLeaf(u).Sane() && |left| == 4
    ensures IsCell(OnLeaf(u), [2, 2, 13, 0]) && Body(OnLeaf(u), [2, 2, 13, 0]) == 3
    ensures !IsCell(Format(false, false, u), left + [2, 2, 13, 0]) && |FirstCell(Format(false, false, u), left + [2, 2, 13, 0])| == 7
  {
    hide IndexBody, CellSize, Body, Whole, VarintLen, VarintValue;
    var c: seq<byte> := [2, 2, 13, 0];
    assert Skip(c, 0) == c && Skip(left + c, 4) == c;
    ShortBody(u, c);
    BodyIs(OnLeaf(u), c);
    BodyIs(Format(false, false, u), left + c);
    LiftedSize(u, left, c);
  }

  lemma ShortBody(u: nat, s: seq<byte>)
    requires OnLeaf(u).Sane() && s != [] && s[0] == 2
    ensures IndexBody(u, s) == 3 && Whole(s)
  {
    OneByte(s);
    hide VarintLen, VarintValue, Local;
  }

  lemma OneByte(s: seq<byte>)
    requires s != [] && s[0] < 128
    ensures VarintLen(s) == 1 && VarintValue(s) == s[0]
  {
    var a := s[..1];
    assert |a| == 1 && a[0] == s[0] && a[..|a| - 1] == [];
    assert SevenBits(a) == SevenBits(a[..|a| - 1]) * 128 + a[|a| - 1] % 128;
  }

  lemma EmptyReads(p: MemPage, n: Node, read: Reader)
    requires p.Valid() && p.cells == [] && p.overflow == [] && p.lost == 0 && n.cells == [] && n.nOv == 0 && n.ovAt == 0 && n.lost == 0
    requires !p.f.intKey && p.f.leaf == n.leaf && p.hdr == 0 && n.pgno > 1 && p.f.Sane()
    ensures Reads(p, n, Index, read)
  {
    hide PageOk;
    assert BtreeShape.OnPage(n) == [];
    assert ReadCells(read, p.f, p.OnPage()) == [];
  }

  lemma SomeCell()
    ensures var f := Format(false, false, 512); f.Sane() && StartsCell(f, SOME_CELL) && |FirstCell(f, SOME_CELL)| == 7
  {
    hide IndexBody, CellSize, Body, Whole, VarintLen, VarintValue;
    assert Skip(SOME_CELL, 4) == [2, 2, 8];
    assert SOME_CELL[..7] == SOME_CELL;
    ShortBody(512, [2, 2, 8]);
    BodyIs(Format(false, false, 512), SOME_CELL);
  }

  method EmptyPage() returns (p: MemPage)
    ensures fresh(p) && fresh(p.aData) && p.Valid() && p.f == Format(false, false, 512) && p.hdr == 0
    ensures p.cells == [] && p.overflow == [] && p.lost == 0 && p.nFree == 500
  {
    var data := new byte[512];
    ZeroPage(data, Format(false, false, 512), 0, 2);
    p := new MemPage(data, Format(false, false, 512), 0);
    p.nFree := 500;
  }

  const SOME_CELL: seq<byte> := [0, 0, 0, 9, 2, 2, 8]

  /** An interior page with one cell. */
  method OneCell(ghost read: Reader) returns (p: MemPage, ghost n: Node)
    ensures fresh(p) && fresh(p.aData) && p.f == Format(false, false, 512) && Reads(p, n, Index, read) && n.lost == 0 && !n.leaf && n.nOv == 0
    ensures |n.cells| == 1 && BtreeShape.Size(false, n.cells[0]) == 7 && BtreeShape.OvflInRange(n) && BtreeShape.NFree(512, n) == 491
  {
    hide PageOk, IsCell, StartsCell, CellSize, Body, ReadCell, CellsRead, Crowded, BtreeShape.NFree, BtreeShape.Size;
    p := EmptyPage();
    n := Node(3, false, [], [], 0, 0, 0);
    EmptyReads(p, n, read);
    SomeCell();
    FreeAgrees(p, n, Index, read);
    var ok := InsertCell(p, 0, SOME_CELL, 0, n, Index, read);
    n := BtreeShape.InsertCell(512, n, 0, ReadCell(read, p.f, FirstCell(p.f, SOME_CELL)), 7);
    SizeRead(read, p.f, FirstCell(p.f, SOME_CELL));
    RoomLeft(n);
  }

  lemma RoomLeft(n: Node)
    requires |n.cells| == 1 && n.nOv == 0 && n.ovAt == 0 && n.lost == 0 && !n.leaf && n.pgno > 1 && BtreeShape.Size(false, n.cells[0]) == 7
    ensures BtreeShape.OvflInRange(n) && BtreeShape.NFree(512, n) == 491
  {
    BtreeShape.FreeWithoutOverflow(512, n);
    assert n.cells == [n.cells[0]];
    BtreeShape.UsedOne(false, n.cells[0]);
  }

  /** A short cell moves up in place of the one on an interior page: then the page cannot be defragmented. */
  method LosesByte() returns (ok: bool)
    ensures !ok
  {
    hide PageOk, IsCell, StartsCell, CellSize, Body, ReadCell, CellsRead, Crowded, BtreeShape.NFree, BtreeShape.Size;
    ghost var read: Reader := _ => Cell(0.0, 1, 0, []);
    var p;
    ghost var n;
    p, n := OneCell(read);
    ShortCell(512, Bytes4(9));
    BtreeShape.DropFree(512, n, 0);
    ok := LiftCell(p, 0, 7, [0, 0, 0, 0], [2, 2, 13, 0], 9, n, read);
    n := BtreeShape.InsertCell(512, BtreeShape.DropCell(n, 0), 0, ReadCell(read, p.f, FirstCell(p.f, Bytes4(9) + [2, 2, 13, 0])), 8);
    AsideCount(p.f, p.OnPage(), p.overflow, n, read);
    ghost var cells;
    ok, cells := DefragmentPage(p.aData, p.f, p.hdr, p.nCell, p.nFree, p.cells, p.blocks, p.lost);
  }

  // ----- where the step back to the leaf has not moved -----

  /** With the interior page taken for the leaf, a cell that has a child pointer already gets 4 bytes more.  What is read as the payload
      size then is the first byte of the old pointer, which is 0 for page numbers below 2^24. */
  lemma StrayCell(u: nat, iChild: nat, c: seq<byte>)
    requires Format(false, false, u).Sane() && |c| >= 4 && c[0] == 0
    ensures var g := Format(false, false, u);
      StartsCell(g, Bytes4(iChild) + c) && |FirstCell(g, Bytes4(iChild) + c)| == 5 && ParseCell(g, Bytes4(iChild) + c).nPayload == 0
  {
    var g, d := Format(false, false, u), Bytes4(iChild) + c;
    assert Skip(d, 4) == c && Skip(c, 0) == c && Skip(d[..5], 4) == c[..1];
    OneByte(c);
    OneByte(c[..1]);
    hide IndexBody, CellSize, Body, VarintLen, VarintValue, Local;
    NoPayload(u, c);
    NoPayload(u, c[..1]);
    BodyIs(g, d);
    BodyIs(g, d[..5]);
    WholeByte(c[..1]);
  }

  lemma NoPayload(u: nat, s: seq<byte>)
    requires OnLeaf(u).Sane() && VarintLen(s) == 1 && VarintValue(s) == 0
    ensures IndexBody(u, s) == 1
  {
    hide VarintLen, VarintValue, Local;
  }

  lemma WholeByte(s: seq<byte>)
    requires s != [] && s[0] < 128
    ensures Whole(s)
  {
    OneByte(s);
    hide VarintLen;
  }

  function Astray(cs: seq<seq<byte>>, i: nat, x: seq<byte>): seq<seq<byte>>
    requires i + 1 < |cs|
  {
    cs[..i] + [x] + cs[i + 1..|cs| - 1]
  }

  /** The cell written: the number, and the first byte of the last cell's own child pointer. */
  function Stray(n: nat, last: seq<byte>): seq<byte>
    requires last != []
  {
    (Bytes4(n) + last)[..5]
  }

  /** The cells once the stray one has taken the place of cell i. */
  function Strayed(cs: seq<seq<byte>>, i: nat, x: seq<byte>): (r: seq<seq<byte>>)
    requires i + 1 < |cs|
    ensures |r| == |cs| && r[|r| - 1] == cs[|cs| - 1]
  {
    cs[..i] + [x] + cs[i + 1..]
  }

  ghost predicate Misled(p: MemPage, i: nat, last: seq<byte>)
    reads p, p.aData
  {
    && p.Valid() && p.f.Sane() && p.f == Format(false, false, p.f.usable) && p.overflow == []
    && i + 1 < |p.OnPage()| && last == p.OnPage()[|p.OnPage()| - 1] && |last| >= 4 && last[0] == 0
  }

  /** What Delete goes on to do on an interior page that it takes for the leaf, with the number n of some page that the cursor does not hold:
      the entry is gone, and in its place, instead of the last entry of the page, comes one without a payload. */
  method DeleteAstray(p: MemPage, i: nat, sz: nat, last: seq<byte>, n: nat) returns (ok: bool)
    requires Misled(p, i, last) && p.lost == 0 && n != 0 && sz == |p.OnPage()[i]|
    modifies p, p.aData
    ensures ok && p.overflow == [] ==>
      && p.Valid() && p.lost == |last| - 1
      && p.OnPage() == Astray(old(p.OnPage()), i, Stray(n, last))
  {
    hide PageOk, IsCell, Put, Frame, Astray, Strayed;
    ghost var cs := p.OnPage();
    ok := InsertAstray(p, i, sz, last, n);
    if !ok || p.overflow != [] { return; }
    AstrayCells(cs, i, Stray(n, last));
    CountOf(p);
    ghost var b := p.OnPage();
    assert b[|b| - 1] == last;
    ghost var k;
    ok, k := p.DropCell(p.nCell - 1, |last|);
  }

  method InsertAstray(p: MemPage, i: nat, sz: nat, last: seq<byte>, n: nat) returns (ok: bool)
    requires Misled(p, i, last) && p.lost == 0 && n != 0 && sz == |p.OnPage()[i]|
    modifies p, p.aData
    ensures i + 1 < |old(p.OnPage())|
    ensures ok && p.overflow == [] ==>
      p.Valid() && p.lost == |last| - 1 && p.OnPage() == Strayed(old(p.OnPage()), i, Stray(n, last))
  {
    hide PageOk, IsCell, CellSize, StartsCell, Crowded, Put, Frame, Strayed, Stray, Near, Beside;
    ghost var cs := p.OnPage();
    StrayIs(p.f.usable, n, last);
    StrayedCells(cs, i, Stray(n, last));
    CountOf(p);
    ghost var k;
    ok, k := p.DropCell(i, sz);
    CountOf(p);
    ok := p.InsertCell(i, Bytes4(0) + last, n);
  }

  lemma StrayIs(u: nat, n: nat, last: seq<byte>)
    requires Format(false, false, u).Sane() && |last| >= 4 && last[0] == 0 && n != 0
    ensures var f, c := Format(false, false, u), WithChild(Bytes4(0) + last, n);
      StartsCell(f, c) && FirstCell(f, c) == Stray(n, last) && |c| == |last| + 4 && |Stray(n, last)| == 5
  {
    StrayCell(u, n, last);
    assert WithChild(Bytes4(0) + last, n) == Bytes4(n) + last;
    hide CellSize, IsCell;
  }

  lemma StrayedCells(cs: seq<seq<byte>>, i: nat, x: seq<byte>)
    requires i + 1 < |cs|
    ensures |Put(cs, i, i + 1, [])| == |cs| - 1 && Put(Put(cs, i, i + 1, []), i, i, [x]) == Strayed(cs, i, x)
  {
    assert Put(cs, i, i + 1, []) == cs[..i] + cs[i + 1..];
  }

  lemma AstrayCells(cs: seq<seq<byte>>, i: nat, x: seq<byte>)
    requires i + 1 < |cs|
    ensures var b := Strayed(cs, i, x);
      && |b| == |cs| && b[|b| - 1] == cs[|cs| - 1] && Put(b, |b| - 1, |b|, []) == Astray(cs, i, x)
  {
  }

  lemma CountOf(p: MemPage)
    requires p.Valid()
    ensures |p.OnPage()| == p.nCell
  {
    hide PageOk;
  }
}
