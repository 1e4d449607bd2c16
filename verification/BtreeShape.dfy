/** Room on a page, well-formed pages and well-formed trees. */
module BtreeShape {
  import opened BtreeNode

  /** The smallest number of usable bytes the library accepts on a page. */
  const MIN_USABLE := 480

  function MaxLocal(u: nat): int { (u - 12) * 64 / 255 - 23 }

  function MaxLeaf(u: nat): int { u - 35 }

  /** Bytes a cell takes in the content area: no cell takes fewer than 4, interior cells carry a child pointer. */
  function Size(leaf: bool, c: Cell): nat {
    if leaf then if c.body < 4 then 4 else c.body else 4 + c.body
  }

  /** Bounds on a cell that follow from the rule splitting a payload between its page and the overflow chain. */
  predicate GoodCell(kind: Kind, u: nat, leaf: bool, c: Cell) {
    if kind.Index? then 1 <= c.body <= MaxLocal(u) + 9
    else if leaf then 1 <= c.keyLen <= 9 && 2 <= c.body <= MaxLeaf(u) + 18
    else 1 <= c.keyLen <= 9 && c.body == c.keyLen
  }

  /** The key-only cell that divides the children of an interior table page. */
  function DividerOf(c: Cell): Cell { Cell(c.key, c.keyLen, c.keyLen, []) }

  function Sizes(leaf: bool, cells: seq<Cell>): (r: seq<nat>)
    ensures |r| == |cells|
    ensures forall i :: 0 <= i < |r| ==> r[i] == Size(leaf, cells[i])
  {
    seq(|cells|, i requires 0 <= i < |cells| => Size(leaf, cells[i]))
  }

  /** Room taken by cells lo .. hi-1, each with its 2-byte pointer. */
  function Span(sz: seq<nat>, lo: nat, hi: nat): nat
    requires hi <= |sz|
  {
    if hi <= lo then 0 else Span(sz, lo, hi - 1) + sz[hi - 1] + 2
  }

  function Used(leaf: bool, cells: seq<Cell>): nat { Span(Sizes(leaf, cells), 0, |cells|) }

  lemma {:induction false} SpanSplit(sz: seq<nat>, lo: nat, mid: nat, hi: nat)
    requires lo <= mid <= hi <= |sz|
    ensures Span(sz, lo, hi) == Span(sz, lo, mid) + Span(sz, mid, hi)
    decreases hi - mid
  {
    if mid < hi { SpanSplit(sz, lo, mid, hi - 1); }
  }

  lemma {:induction false} SpanShift(a: seq<nat>, b: seq<nat>, lo: nat, hi: nat, d: nat)
    requires lo <= hi <= |a| && hi + d <= |b|
    requires forall i :: lo <= i < hi ==> a[i] == b[i + d]
    ensures Span(a, lo, hi) == Span(b, lo + d, hi + d)
    decreases hi
  {
    if lo < hi { SpanShift(a, b, lo, hi - 1, d); }
  }

  lemma UsedSlice(leaf: bool, cells: seq<Cell>, lo: nat, hi: nat)
    requires lo <= hi <= |cells|
    ensures Used(leaf, cells[lo..hi]) == Span(Sizes(leaf, cells), lo, hi)
  {
    SpanShift(Sizes(leaf, cells[lo..hi]), Sizes(leaf, cells), 0, hi - lo, lo);
  }

  lemma UsedAppend(leaf: bool, a: seq<Cell>, b: seq<Cell>)
    ensures Used(leaf, a + b) == Used(leaf, a) + Used(leaf, b)
  {
    var w := Sizes(leaf, a + b);
    SpanSplit(w, 0, |a|, |a + b|);
    UsedSlice(leaf, a + b, 0, |a|);
    UsedSlice(leaf, a + b, |a|, |a + b|);
    assert (a + b)[0..|a|] == a && (a + b)[|a|..|a + b|] == b;
  }

  // ----- one page -----

  /** Bytes a page offers to cells and their pointers; page 1 also holds the 100-byte file header. */
  function Cap(u: nat, leaf: bool, pgno: nat): int {
    u - (if leaf then 8 else 12) - (if pgno == 1 then 100 else 0)
  }

  predicate OvflInRange(n: Node) { n.ovAt + n.nOv <= |n.cells| }

  /** The cells that do lie on the page. */
  function OnPage(n: Node): seq<Cell>
    requires OvflInRange(n)
  {
    n.cells[..n.ovAt] + n.cells[n.ovAt + n.nOv..]
  }

  function NFree(u: nat, n: Node): int
    requires OvflInRange(n)
  {
    Cap(u, n.leaf, n.pgno) - Used(n.leaf, OnPage(n)) - n.lost
  }

  predicate Shaped(n: Node) {
    if n.leaf then n.kids == [] else |n.kids| == |n.cells| + 1
  }

  ghost predicate GoodCells(kind: Kind, u: nat, leaf: bool, cells: seq<Cell>) {
    forall i :: 0 <= i < |cells| ==> GoodCell(kind, u, leaf, cells[i])
  }

  /** So many bytes may be lost before an empty page could count as full enough.  Only interior pages of an index ever lose any. */
  function MayLose(kind: Kind, u: nat, leaf: bool): int { if kind.Index? && !leaf then (u + 2) / 3 - 13 else 0 }

  /** A page that may carry up to `most` adjacent overflow cells. */
  ghost predicate PageFits(kind: Kind, u: nat, n: Node, most: nat) {
    && Shaped(n) && GoodCells(kind, u, n.leaf, n.cells)
    && OvflInRange(n) && n.nOv <= most && NFree(u, n) >= 0 && n.lost <= MayLose(kind, u, n.leaf)
  }

  // ----- trees -----

  /** Every page fits, no page but the root is empty, and all leaves lie h levels down. */
  ghost predicate TreeOk(kind: Kind, u: nat, n: Node, h: nat)
    decreases h
  {
    && PageFits(kind, u, n, 0) && n.pgno > 1 && n.cells != []
    && (n.leaf <==> h == 0)
    && (h > 0 ==> forall i :: 0 <= i < |n.kids| ==> TreeOk(kind, u, n.kids[i], h - 1))
  }

  ghost predicate ForestOk(kind: Kind, u: nat, kids: seq<Node>, h: nat) {
    forall i :: 0 <= i < |kids| ==> TreeOk(kind, u, kids[i], h)
  }

  /** The root may be empty when it is a leaf, and may hold a single child when it is page 1. */
  ghost predicate RootOk(kind: Kind, u: nat, n: Node, h: nat) {
    && PageFits(kind, u, n, 0) && n.pgno > 0
    && (n.leaf <==> h == 0)
    && (!n.leaf && n.cells == [] ==> n.pgno == 1)
    && (h > 0 ==> ForestOk(kind, u, n.kids, h - 1))
  }

  // ----- putting cells on a page -----

  /** The bytes of sz that the cell does not take. */
  function Surplus(leaf: bool, c: Cell, sz: nat): nat {
    if sz > Size(leaf, c) then sz - Size(leaf, c) else 0
  }

  /** The page once a cell of sz bytes is cell number i: on the page if there is room and nothing overflows yet,
      else as one more overflow cell.  Bytes that the cell does not take are lost. */
  function InsertCell(u: nat, n: Node, i: nat, c: Cell, sz: nat): Node
    requires OvflInRange(n) && i <= |n.cells|
  {
    var cells := n.cells[..i] + [c] + n.cells[i..];
    if n.nOv > 0 || sz + 2 > NFree(u, n) then
      n.(cells := cells, ovAt := if n.nOv == 0 then i else n.ovAt, nOv := n.nOv + 1)
    else
      n.(cells := cells, ovAt := 0, lost := n.lost + Surplus(n.leaf, c, sz))
  }

  /** The page without the cell number i, which is on the page. */
  function DropCell(n: Node, i: nat): Node
    requires i < |n.cells| && n.nOv == 0
  {
    n.(cells := n.cells[..i] + n.cells[i + 1..], ovAt := 0)
  }

  lemma UsedOne(leaf: bool, c: Cell)
    ensures Used(leaf, [c]) == Size(leaf, c) + 2
  {
    var sz := Sizes(leaf, [c]);
    assert Span(sz, 0, 1) == Span(sz, 0, 0) + sz[0] + 2;
  }

  lemma UsedWithCell(leaf: bool, a: seq<Cell>, c: Cell, b: seq<Cell>)
    ensures Used(leaf, a + [c] + b) == Used(leaf, a + b) + Size(leaf, c) + 2
  {
    UsedAppend(leaf, a + [c], b);
    UsedAppend(leaf, a, [c]);
    UsedAppend(leaf, a, b);
    UsedOne(leaf, c);
  }

  lemma OnPageAll(n: Node)
    requires OvflInRange(n) && n.nOv == 0
    ensures OnPage(n) == n.cells
  {
  }

  lemma FreeWithoutOverflow(u: nat, n: Node)
    requires n.nOv == 0 && OvflInRange(n)
    ensures NFree(u, n) == Cap(u, n.leaf, n.pgno) - Used(n.leaf, n.cells) - n.lost
  {
    OnPageAll(n);
  }

  lemma InsertGood(kind: Kind, u: nat, leaf: bool, cells: seq<Cell>, i: nat, c: Cell)
    requires GoodCells(kind, u, leaf, cells) && i <= |cells| && GoodCell(kind, u, leaf, c)
    ensures GoodCells(kind, u, leaf, cells[..i] + [c] + cells[i..])
  {
  }

  lemma InsertOnPage(u: nat, n: Node, i: nat, c: Cell, sz: nat)
    requires OvflInRange(n) && i <= |n.cells|
    requires n.nOv > 0 ==> i == n.ovAt + n.nOv
    ensures var n' := InsertCell(u, n, i, c, sz);
            && OvflInRange(n')
            && OnPage(n') == if n.nOv > 0 || sz + 2 > NFree(u, n) then OnPage(n) else n.cells[..i] + [c] + n.cells[i..]
  {
    var n' := InsertCell(u, n, i, c, sz);
    if n'.nOv == 0 {
      OnPageAll(n');
    } else {
      AroundInsert(n.cells, if n.nOv == 0 then i else n.ovAt, i, c);
      if n.nOv == 0 { OnPageAll(n); SplitAt(n.cells, i); }
    }
  }

  lemma AroundInsert<T>(s: seq<T>, a: nat, i: nat, c: T)
    requires a <= i <= |s|
    ensures var s' := s[..i] + [c] + s[i..]; s'[..a] == s[..a] && s'[i + 1..] == s[i..]
  {
  }

  lemma SplitAt<T>(s: seq<T>, i: nat)
    requires i <= |s|
    ensures s[..i] + s[i..] == s
  {
  }

  /** Inserting never overdraws the page. */
  lemma InsertFree(u: nat, n: Node, i: nat, c: Cell)
    requires OvflInRange(n) && i <= |n.cells| && NFree(u, n) >= 0
    requires n.nOv > 0 ==> i == n.ovAt + n.nOv
    ensures var n' := InsertCell(u, n, i, c, Size(n.leaf, c)); OvflInRange(n') && NFree(u, n') >= 0
  {
    InsertOnPage(u, n, i, c, Size(n.leaf, c));
    if !(n.nOv > 0 || Size(n.leaf, c) + 2 > NFree(u, n)) {
      OnPageAll(n);
      SplitAt(n.cells, i);
      UsedWithCell(n.leaf, n.cells[..i], c, n.cells[i..]);
    }
  }

  lemma InsertFits(kind: Kind, u: nat, n: Node, i: nat, c: Cell, most: nat)
    requires PageFits(kind, u, n, most) && i <= |n.cells| && GoodCell(kind, u, n.leaf, c)
    requires n.nOv > 0 ==> i == n.ovAt + n.nOv
    ensures var n' := InsertCell(u, n, i, c, Size(n.leaf, c));
            OvflInRange(n') && n'.nOv <= most + 1 && NFree(u, n') >= 0 && GoodCells(kind, u, n.leaf, n'.cells)
  {
    InsertFree(u, n, i, c);
    InsertGood(kind, u, n.leaf, n.cells, i, c);
  }

  lemma DropFree(u: nat, n: Node, i: nat)
    requires OvflInRange(n) && n.nOv == 0 && i < |n.cells|
    ensures var n' := DropCell(n, i); OvflInRange(n') && NFree(u, n') == NFree(u, n) + Size(n.leaf, n.cells[i]) + 2
  {
    OnPageAll(n);
    OnPageAll(DropCell(n, i));
    UsedWithCell(n.leaf, n.cells[..i], n.cells[i], n.cells[i + 1..]);
    assert n.cells == n.cells[..i] + [n.cells[i]] + n.cells[i + 1..];
  }
}
