/** Balancing one page against its parent: balance_nonroot, balance_quick and balance_deeper. */
module BtreeBalance {
  import opened BtreeNode
  import opened BtreeShape
  import opened BtreePath
  import opened BtreePacking
  import opened BtreeSiblings
  import opened BtreeLost
  import opened BtreeRebalance

  /** No page occurs twice, and all are in use. */
  ghost predicate OwnPages(pages: multiset<nat>, used: set<nat>) {
    forall p :: p in pages ==> pages[p] == 1 && p in used
  }

  /** Pages gone were freed, pages taken newly allocated. */
  ghost predicate Repaged(pages: multiset<nat>, used: set<nat>, pages': multiset<nat>, used': set<nat>, gone: set<nat>, taken: set<nat>) {
    && pages' + multiset(gone) == pages + multiset(taken)
    && taken !! used && used' == used + taken - gone
    && forall p :: p in gone ==> p in pages + multiset(taken)
  }

  // ----- replacing a run of children -----

  function Spliced(parent: Node, f: nat, n: nat, sibs: seq<Node>): Node
    requires !parent.leaf && 0 < n && f + n <= |parent.kids| == |parent.cells| + 1
  {
    parent.(cells := parent.cells[..f] + parent.cells[f + n - 1..], kids := parent.kids[..f] + sibs + parent.kids[f + n..],
            ovAt := 0, nOv := 0)
  }

  lemma SplitRun<T>(s: seq<T>, a: nat, b: nat)
    requires a <= b <= |s|
    ensures s[..a] + s[a..b] + s[b..] == s
  {
  }

  /** The walk of a parent around a run of its children. */
  lemma RunWalk(kind: Kind, n: Node, a: seq<Cell>, ka: seq<Node>, d: seq<Cell>, kd: seq<Node>, b: seq<Cell>, kb: seq<Node>)
    requires !n.leaf && n.cells == a + d + b && n.kids == ka + kd + kb
    requires |ka| == |a| && |kd| == |d| + 1 && |kb| == |b|
    ensures Walk(kind, n) == WeaveLeft(kind, a, Walks(kind, ka)) + Weave(kind, d, Walks(kind, kd)) + WeaveRight(kind, b, Walks(kind, kb))
  {
    WalksAppend(kind, ka + kd, kb);
    WalksAppend(kind, ka, kd);
    WeaveMiddle(kind, a, Walks(kind, ka), d, Walks(kind, kd), b, Walks(kind, kb));
  }

  lemma RunPages(n: Node, ka: seq<Node>, kd: seq<Node>, kb: seq<Node>)
    requires n.kids == ka + kd + kb
    ensures PagesOf(n) == multiset{n.pgno} + PagesOfAll(ka) + PagesOfAll(kb) + PagesOfAll(kd)
  {
    PagesAppend(ka + kd, kb);
    PagesAppend(ka, kd);
  }

  lemma RunRepaged(n: Node, n': Node, ka: seq<Node>, kd: seq<Node>, kd': seq<Node>, kb: seq<Node>, gone: set<nat>, taken: set<nat>)
    requires n.kids == ka + kd + kb && n'.kids == ka + kd' + kb && n.pgno == n'.pgno
    requires PagesOfAll(kd') + multiset(gone) == PagesOfAll(kd) + multiset(taken)
    ensures PagesOf(n') + multiset(gone) == PagesOf(n) + multiset(taken)
  {
    RunPages(n, ka, kd, kb);
    RunPages(n', ka, kd', kb);
    var r := multiset{n.pgno} + PagesOfAll(ka) + PagesOfAll(kb);
    assert (r + PagesOfAll(kd')) + multiset(gone) == r + (PagesOfAll(kd') + multiset(gone));
    assert (r + PagesOfAll(kd)) + multiset(taken) == r + (PagesOfAll(kd) + multiset(taken));
  }

  lemma {:induction false} PgnosInPages(sibs: seq<Node>, i: nat)
    requires i < |sibs|
    ensures sibs[i].pgno in PagesOfAll(sibs)
    decreases |sibs|
  {
    if i > 0 { PgnosInPages(sibs[1..], i - 1); }
  }

  lemma {:induction false} PgnosDistinct(sibs: seq<Node>, i: nat, j: nat)
    requires i < j < |sibs| && forall p :: p in PagesOfAll(sibs) ==> PagesOfAll(sibs)[p] == 1
    ensures sibs[i].pgno != sibs[j].pgno
    decreases |sibs|
  {
    if i == 0 {
      PgnosInPages(sibs[1..], j - 1);
      assert sibs[1..][j - 1] == sibs[j];
      var p := sibs[0].pgno;
      assert PagesOfAll(sibs)[p] == PagesOf(sibs[0])[p] + PagesOfAll(sibs[1..])[p];
    } else {
      forall p | p in PagesOfAll(sibs[1..]) ensures PagesOfAll(sibs[1..])[p] == 1 {
        assert PagesOfAll(sibs)[p] == PagesOf(sibs[0])[p] + PagesOfAll(sibs[1..])[p];
      }
      PgnosDistinct(sibs[1..], i - 1, j - 1);
    }
  }

  lemma RunDistinct(n: Node, ka: seq<Node>, kd: seq<Node>, kb: seq<Node>, used: set<nat>)
    requires n.kids == ka + kd + kb && OwnPages(PagesOf(n), used)
    requires forall i :: 0 <= i < |kd| ==> kd[i].pgno > 1
    ensures DistinctIn(Pgnos(kd), used)
    ensures forall p :: p in Pgnos(kd) ==> p in PagesOf(n)
  {
    RunPages(n, ka, kd, kb);
    forall p | p in PagesOfAll(kd) ensures PagesOfAll(kd)[p] == 1 && p in used && p in PagesOf(n) {
      assert p in PagesOf(n) && PagesOf(n)[p] >= PagesOfAll(kd)[p];
    }
    forall i | 0 <= i < |kd| ensures kd[i].pgno in PagesOfAll(kd) { PgnosInPages(kd, i); }
    forall i, j | 0 <= i < j < |kd| ensures Pgnos(kd)[i] != Pgnos(kd)[j] { PgnosDistinct(kd, i, j); }
  }

  // ----- balance_nonroot -----

  lemma RunLoose(kind: Kind, u: nat, parent: Node, h: nat, idx: nat, f: nat, n: nat)
    requires Unbalanced(kind, u, parent, h, idx) && f <= idx < f + n <= |parent.kids|
    ensures LooseSiblings(kind, u, h - 1, parent.kids[f..f + n], idx - f)
    ensures GoodCells(kind, u, false, parent.cells[f..f + n - 1])
  {
    forall i | 0 <= i < |parent.kids| && i != idx ensures TreeOk(kind, u, parent.kids[i], h - 1) {}
  }

  lemma RunOthers(kind: Kind, u: nat, kids: seq<Node>, h: nat, idx: nat, f: nat, n: nat)
    requires f <= idx < f + n <= |kids| && OthersOk(kind, u, h, kids, idx)
    ensures ForestOk(kind, u, kids[..f], h) && ForestOk(kind, u, kids[f + n..], h)
  {
  }

  lemma LooseAbovePageOne(kind: Kind, u: nat, h: nat, sibs: seq<Node>, x: nat)
    requires LooseSiblings(kind, u, h, sibs, x)
    ensures forall i :: 0 <= i < |sibs| ==> sibs[i].pgno > 1
  {
    forall i | 0 <= i < |sibs| ensures sibs[i].pgno > 1 { if i != x { assert TreeOk(kind, u, sibs[i], h); } }
  }

  lemma GoodCut(kind: Kind, u: nat, cells: seq<Cell>, a: nat, b: nat)
    requires GoodCells(kind, u, false, cells) && a <= b <= |cells|
    ensures GoodCells(kind, u, false, cells[..a] + cells[b..])
  {
  }

  /** The parent with its new children and dividers. */
  lemma SplicedDone(kind: Kind, u: nat, parent: Node, h: nat, f: nat, n: nat, sibs: seq<Node>, divs: seq<Cell>, p: Node)
    requires !parent.leaf && Shaped(parent) && parent.pgno > 0 && h > 0 && 0 < n && f + n <= |parent.kids|
    requires |sibs| == |divs| + 1 <= NB + 2
    requires DividersIn(kind, u, Spliced(parent, f, n, sibs), f, divs, |divs|, p)
    ensures PageFits(kind, u, p, 4) && !p.leaf && p.pgno == parent.pgno
    ensures p.cells == parent.cells[..f] + divs + parent.cells[f + n - 1..]
    ensures p.kids == parent.kids[..f] + sibs + parent.kids[f + n..]
  {
    var b := Spliced(parent, f, n, sibs);
    AroundJoin(parent.cells[..f], parent.cells[f + n - 1..]);
    assert divs[..|divs|] == divs;
  }

  lemma AroundJoin<T>(a: seq<T>, b: seq<T>)
    ensures (a + b)[..|a|] == a && (a + b)[|a|..] == b
  {
  }

  lemma SplicedWalk(kind: Kind, parent: Node, f: nat, n: nat, sibs: seq<Node>, divs: seq<Cell>, p: Node)
    requires !parent.leaf && Shaped(parent) && 0 < n && f + n <= |parent.kids| && !p.leaf
    requires |sibs| == |divs| + 1
    requires p.cells == parent.cells[..f] + divs + parent.cells[f + n - 1..]
    requires p.kids == parent.kids[..f] + sibs + parent.kids[f + n..]
    requires Redivided(kind, Weave(kind, parent.cells[f..f + n - 1], Walks(kind, parent.kids[f..f + n])),
                       Weave(kind, divs, Walks(kind, sibs)))
    ensures Redivided(kind, Walk(kind, parent), Walk(kind, p))
  {
    var a, b, ka, kb := parent.cells[..f], parent.cells[f + n - 1..], parent.kids[..f], parent.kids[f + n..];
    SplitRun(parent.cells, f, f + n - 1);
    SplitRun(parent.kids, f, f + n);
    RunWalk(kind, parent, a, ka, parent.cells[f..f + n - 1], parent.kids[f..f + n], b, kb);
    RunWalk(kind, p, a, ka, divs, sibs, b, kb);
    RedividedWithin(kind, WeaveLeft(kind, a, Walks(kind, ka)), Weave(kind, parent.cells[f..f + n - 1], Walks(kind, parent.kids[f..f + n])),
                    Weave(kind, divs, Walks(kind, sibs)), WeaveRight(kind, b, Walks(kind, kb)));
  }

  lemma ForestThree(kind: Kind, u: nat, a: seq<Node>, b: seq<Node>, c: seq<Node>, h: nat)
    requires ForestOk(kind, u, a, h) && ForestOk(kind, u, b, h) && ForestOk(kind, u, c, h)
    ensures ForestOk(kind, u, a + b + c, h)
  {
    ForestAppend(kind, u, a, b, h);
    ForestAppend(kind, u, a + b, c, h);
  }

  /** The children that take part may be spread. */
  lemma RunReady(kind: Kind, u: nat, h: nat, parent: Node, idx: nat, f: nat, n: nat, used: set<nat>)
    requires Unbalanced(kind, u, parent, h, idx) && f <= idx < f + n <= |parent.kids| && OwnPages(PagesOf(parent), used)
    ensures LooseSiblings(kind, u, h - 1, parent.kids[f..f + n], idx - f)
    ensures GoodCells(kind, u, false, parent.cells[f..f + n - 1])
    ensures DistinctIn(Pgnos(parent.kids[f..f + n]), used)
    ensures forall p :: p in Pgnos(parent.kids[f..f + n]) ==> p in PagesOf(parent)
  {
    hide PageFits, LooseSiblings, DistinctIn, OthersOk, LooseKid, OwnPages, GoodCells;
    RunLoose(kind, u, parent, h, idx, f, n);
    LooseAbovePageOne(kind, u, h - 1, parent.kids[f..f + n], idx - f);
    SplitRun(parent.kids, f, f + n);
    RunDistinct(parent, parent.kids[..f], parent.kids[f..f + n], parent.kids[f + n..], used);
  }

  lemma RedistributedKids(kind: Kind, u: nat, h: nat, kids: seq<Node>, idx: nat, f: nat, n: nat, sibs: seq<Node>)
    requires f <= idx < f + n <= |kids| && (n == |kids| || n > 1)
    requires OthersOk(kind, u, h, kids, idx)
    requires Regrown(kind, u, h, sibs, kids[f..f + n])
    ensures Regrown(kind, u, h, kids[..f] + sibs + kids[f + n..], kids)
  {
    if n == 1 && kids[idx].cells == [] {
      assert kids[..f] + sibs + kids[f + n..] == sibs;
    } else {
      RunOthers(kind, u, kids, h, idx, f, n);
      ForestThree(kind, u, kids[..f], sibs, kids[f + n..], h);
    }
  }

  /** The children f .. f+n-1 may be spread and the others kept. */
  ghost predicate Spreadable(kind: Kind, u: nat, h: nat, parent: Node, idx: nat, f: nat, n: nat, used: set<nat>) {
    && !parent.leaf && Shaped(parent) && parent.pgno > 0 && h > 0 && f <= idx < f + n <= |parent.kids| && n <= NB
    && (n == |parent.kids| || n > 1)
    && LooseSiblings(kind, u, h - 1, parent.kids[f..f + n], idx - f)
    && OthersOk(kind, u, h - 1, parent.kids, idx)
    && GoodCells(kind, u, false, parent.cells)
    && Used(false, parent.cells[..f] + parent.cells[f + n - 1..]) + parent.lost <= Cap(u, false, parent.pgno)
    && parent.lost <= MayLose(kind, u, false)
    && DistinctIn(Pgnos(parent.kids[f..f + n]), used)
    && (forall p :: p in Pgnos(parent.kids[f..f + n]) ==> p in PagesOf(parent))
  }

  /** The parent with new siblings in place of the children f .. f+n-1, and the dividers between them. */
  ghost predicate RunAs(kind: Kind, u: nat, bBulk: bool, parent: Node, f: nat, n: nat, sibs: seq<Node>, divs: seq<Cell>, p: Node) {
    && 0 < n && f + n <= |parent.kids| == |parent.cells| + 1
    && LeastSpread(kind, u, bBulk, parent.kids[f..f + n], parent.cells[f..f + n - 1], sibs, divs)
    && p.cells == parent.cells[..f] + divs + parent.cells[f + n - 1..]
    && p.kids == parent.kids[..f] + sibs + parent.kids[f + n..]
    && !p.leaf && p.pgno == parent.pgno && p.lost == parent.lost
  }

  ghost predicate RunSpread(kind: Kind, u: nat, bBulk: bool, parent: Node, f: nat, n: nat, p: Node) {
    exists sibs: seq<Node>, divs: seq<Cell> :: RunAs(kind, u, bBulk, parent, f, n, sibs, divs, p)
  }

  /** What balance_nonroot makes of a parent: the child and its neighbours are spread anew, and a root left without cells takes over the
      content of its only child if that fits. */
  ghost predicate NeighboursSpread(kind: Kind, u: nat, bBulk: bool, parent: Node, idx: nat, isRoot: bool, p: Node) {
    && idx <= |parent.cells|
    && exists m: Node :: CollapsedIf(u, isRoot, m, p)
         && RunSpread(kind, u, bBulk, parent, FirstSibling(|parent.cells|, idx, bBulk), SiblingCount(|parent.cells|, bBulk), m)
  }

  ghost predicate CollapsedIf(u: nat, isRoot: bool, m: Node, p: Node) {
    if isRoot && |m.cells| == m.nOv && |m.kids| == 1 && OvflInRange(m.kids[0]) && HeaderOffset(m) <= NFree(u, m.kids[0])
    then p == Collapsed(m, m.kids[0]) else p == m
  }

  /** Spreads a run of children and puts the result back under the parent. */
  method SpreadRun(kind: Kind, u: nat, ghost h: nat, parent: Node, ghost idx: nat, f: nat, n: nat, bBulk: bool, used: set<nat>)
    returns (p: Node, sibs: seq<Node>, used': set<nat>, ghost gone: set<nat>, ghost taken: set<nat>)
    requires u >= MIN_USABLE && Spreadable(kind, u, h, parent, idx, f, n, used)
    ensures PageFits(kind, u, p, 4) && !p.leaf && p.pgno == parent.pgno && (p.nOv > 0 ==> p.nOv < |p.cells|)
    ensures Regrown(kind, u, h - 1, sibs, parent.kids[f..f + n])
    ensures parent.cells == [] ==> p.nOv == 0
    ensures p.kids == parent.kids[..f] + sibs + parent.kids[f + n..] 
    ensures Redivided(kind, Walk(kind, parent), Walk(kind, p))
    ensures Repaged(PagesOf(parent), used, PagesOf(p), used', gone, taken)
    ensures KeepsLost(parent, p)
    ensures RunSpread(kind, u, bBulk, parent, f, n, p)
  {
    hide LeastSpread, RunSpread;
    hide PageFits, LooseSiblings, DistinctIn, OthersOk, DividersIn, KeepsLost, EachKeeps, Redivided, Regrown, Repaged, Walk, Walks, Weave, PagesOf, PagesOfAll, Pgnos;
    var old_, oldDivs := parent.kids[f..f + n], parent.cells[f..f + n - 1];
    assert GoodCells(kind, u, false, oldDivs);
    var divs;
    sibs, divs, used', gone, taken := SpreadSiblings(kind, u, h - 1, old_, oldDivs, idx - f, bBulk, used);
    assert Regrown(kind, u, h - 1, sibs, parent.kids[f..f + n]);
    var base := Spliced(parent, f, n, sibs);
    GoodCut(kind, u, parent.cells, f, f + n - 1);
    FreeWithoutOverflow(u, base);
    p := InsertDividers(kind, u, base, f, divs);
    RedistributeDone(kind, u, h, parent, f, n, sibs, divs, used, p, used', gone, taken);
    RunKeeps(parent, p, f, n, sibs);
    RunDone(kind, u, bBulk, parent, f, n, sibs, divs, p);
  }

  lemma RunDone(kind: Kind, u: nat, bBulk: bool, parent: Node, f: nat, n: nat, sibs: seq<Node>, divs: seq<Cell>, p: Node)
    requires 0 < n && f + n <= |parent.kids| == |parent.cells| + 1 && !p.leaf && p.pgno == parent.pgno && p.lost == parent.lost
    requires LeastSpread(kind, u, bBulk, parent.kids[f..f + n], parent.cells[f..f + n - 1], sibs, divs)
    requires p.cells == parent.cells[..f] + divs + parent.cells[f + n - 1..] && p.kids == parent.kids[..f] + sibs + parent.kids[f + n..]
    ensures RunSpread(kind, u, bBulk, parent, f, n, p)
  {
    hide LeastSpread;
    assert RunAs(kind, u, bBulk, parent, f, n, sibs, divs, p);
  }

  lemma RunSpreadable(kind: Kind, u: nat, h: nat, parent: Node, idx: nat, f: nat, n: nat, used: set<nat>)
    requires Unbalanced(kind, u, parent, h, idx) && f <= idx < f + n <= |parent.kids| && n <= NB && (n == |parent.kids| || n > 1)
    requires parent.nOv == 1 ==> idx < f + n - 1
    requires OwnPages(PagesOf(parent), used)
    ensures Spreadable(kind, u, h, parent, idx, f, n, used)
  {
    hide PageFits, LooseSiblings, DistinctIn, OthersOk, LooseKid, OwnPages;
    RunReady(kind, u, h, parent, idx, f, n, used);
    RunRoom(kind, u, parent, f, f + n - 1);
  }

  lemma RunRoom(kind: Kind, u: nat, n: Node, a: nat, b: nat)
    requires PageFits(kind, u, n, 1) && !n.leaf && a <= b <= |n.cells| && (n.nOv == 1 ==> a <= n.ovAt < b)
    ensures GoodCells(kind, u, false, n.cells) && Shaped(n) && n.lost <= MayLose(kind, u, false)
    ensures Used(false, n.cells[..a] + n.cells[b..]) + n.lost <= Cap(u, false, n.pgno)
  {
    DroppedFits(u, n, a, b);
  }

  /** Spreads a child and its neighbours and puts the result back under the parent. */
  method Redistribute(kind: Kind, u: nat, ghost h: nat, parent: Node, idx: nat, bBulk: bool, used: set<nat>)
    returns (p: Node, used': set<nat>, ghost gone: set<nat>, ghost taken: set<nat>)
    requires u >= MIN_USABLE && Unbalanced(kind, u, parent, h, idx) && (bBulk ==> parent.nOv == 0)
    requires OwnPages(PagesOf(parent), used)
    ensures PageFits(kind, u, p, 4) && !p.leaf && p.pgno == parent.pgno && (p.nOv > 0 ==> p.nOv < |p.cells|)
    ensures Regrown(kind, u, h - 1, p.kids, parent.kids)
    ensures parent.cells == [] ==> p.nOv == 0
    ensures Redivided(kind, Walk(kind, parent), Walk(kind, p))
    ensures Repaged(PagesOf(parent), used, PagesOf(p), used', gone, taken)
    ensures KeepsLost(parent, p)
    ensures idx <= |parent.cells| && RunSpread(kind, u, bBulk, parent, FirstSibling(|parent.cells|, idx, bBulk), SiblingCount(|parent.cells|, bBulk), p)
  {
    hide PageFits, TreeOk, Regrown, KeepsLost, RunSpread;
    var f, n := FirstSibling(|parent.cells|, idx, bBulk), SiblingCount(|parent.cells|, bBulk);
    SiblingRange(|parent.cells|, idx, bBulk);
    RunSpreadable(kind, u, h, parent, idx, f, n, used);
    var sibs;
    p, sibs, used', gone, taken := SpreadRun(kind, u, h, parent, idx, f, n, bBulk, used);
    RedistributedKids(kind, u, h - 1, parent.kids, idx, f, n, sibs);
  }

  lemma RedistributeDone(kind: Kind, u: nat, h: nat, parent: Node, f: nat, n: nat, sibs: seq<Node>, divs: seq<Cell>,
                         used: set<nat>, p: Node, used': set<nat>, gone: set<nat>, taken: set<nat>)
    requires !parent.leaf && Shaped(parent) && parent.pgno > 0 && h > 0 && 0 < n && f + n <= |parent.kids|
    requires |sibs| == |divs| + 1 <= NB + 2
    requires Redivided(kind, Weave(kind, parent.cells[f..f + n - 1], Walks(kind, parent.kids[f..f + n])),
                       Weave(kind, divs, Walks(kind, sibs)))
    requires PagesOfAll(sibs) + multiset(gone) == PagesOfAll(parent.kids[f..f + n]) + multiset(taken)
    requires taken !! used && gone <= used && used' == used - gone + taken && forall q :: q in gone ==> q in PagesOf(parent)
    requires DividersIn(kind, u, Spliced(parent, f, n, sibs), f, divs, |divs|, p) && |sibs| <= n + 2
    ensures PageFits(kind, u, p, 4) && !p.leaf && p.pgno == parent.pgno && (p.nOv > 0 ==> p.nOv < |p.cells|)
    ensures parent.cells == [] ==> p.nOv == 0
    ensures p.kids == parent.kids[..f] + sibs + parent.kids[f + n..] && p.lost == parent.lost
    ensures p.cells == parent.cells[..f] + divs + parent.cells[f + n - 1..]
    ensures Redivided(kind, Walk(kind, parent), Walk(kind, p))
    ensures Repaged(PagesOf(parent), used, PagesOf(p), used', gone, taken)
  {
    SplicedDone(kind, u, parent, h, f, n, sibs, divs, p);
    SplicedWalk(kind, parent, f, n, sibs, divs, p);
    SplitRun(parent.kids, f, f + n);
    RunRepaged(parent, p, parent.kids[..f], parent.kids[f..f + n], sibs, parent.kids[f + n..], gone, taken);
  }

  function HeaderOffset(n: Node): nat { if n.pgno == 1 then 100 else 0 }

  /** The root takes over the content of its only child. */
  function Collapsed(root: Node, child: Node): Node {
    Node(root.pgno, child.leaf, child.cells, child.kids, 0, 0, child.lost)
  }

  lemma CollapsedSound(kind: Kind, u: nat, root: Node, child: Node, h: nat)
    requires PageTree(kind, u, child, h) && HeaderOffset(root) <= NFree(u, child) && root.pgno > 0
    ensures Rebalanced(kind, u, Collapsed(root, child), h)
  {
    FreeWithoutOverflow(u, child);
    FreeWithoutOverflow(u, Collapsed(root, child));
  }

  lemma CollapsedWalk(kind: Kind, root: Node, child: Node)
    requires !root.leaf && root.cells == [] && root.kids == [child]
    ensures Walk(kind, Collapsed(root, child)) == Walk(kind, root)
  {
    WalksOne(kind, child);
  }

  lemma CollapsedPages(root: Node, child: Node, pages: multiset<nat>, used: set<nat>, used': set<nat>, gone: set<nat>, taken: set<nat>)
    requires root.kids == [child] && Repaged(pages, used, PagesOf(root), used', gone, taken) && OwnPages(pages, used)
    ensures child.pgno !in gone
    ensures Repaged(pages, used, PagesOf(Collapsed(root, child)), used' - {child.pgno}, gone + {child.pgno}, taken)
  {
    var c := child.pgno;
    assert PagesOfAll([child]) == PagesOf(child);
    assert PagesOf(root) == PagesOf(Collapsed(root, child)) + multiset{c};
    assert (PagesOf(root) + multiset(gone))[c] == (pages + multiset(taken))[c];
    assert PagesOf(root)[c] >= 1;
    assert c in taken ==> c !in pages by { assert c in pages ==> c in used; }
    assert multiset(gone + {c}) == multiset(gone) + multiset{c};
    assert PagesOf(Collapsed(root, child)) + multiset(gone + {c}) == PagesOf(root) + multiset(gone);
  }

  /** An empty page, or the lone sibling left, has room to spare for the file header. */
  lemma EmptyPageRoom(u: nat, n: Node)
    requires u >= MIN_USABLE && n.cells == [] && n.pgno > 1 && OvflInRange(n) && n.lost <= MayLose(Index, u, false)
    ensures NFree(u, n) >= 100
  {
    FreeWithoutOverflow(u, n);
    assert Sizes(n.leaf, n.cells) == [];
  }

  /** Spreads the cells of child number idx of the parent, and of its neighbours, over as many pages as they need.  A root
      left without cells takes over the content of its only child if that fits. */
  method BalanceNonroot(kind: Kind, u: nat, ghost h: nat, parent: Node, idx: nat, isRoot: bool, bBulk: bool, used: set<nat>)
    returns (p: Node, used': set<nat>, ghost h': nat, ghost gone: set<nat>, ghost taken: set<nat>)
    requires u >= MIN_USABLE && Unbalanced(kind, u, parent, h, idx) && (bBulk ==> parent.nOv == 0)
    requires OwnPages(PagesOf(parent), used)
    requires if isRoot then parent.cells == [] ==> parent.pgno == 1 || parent.kids[idx].nOv > 0
             else parent.cells != [] && parent.pgno > 1
    ensures Rebalanced(kind, u, p, h') && p.pgno == parent.pgno && (h' == h || (isRoot && h' == h - 1))
    ensures isRoot && !p.leaf && p.cells == [] ==> p.pgno == 1
    ensures parent.cells == [] ==> p.nOv == 0
    ensures Redivided(kind, Walk(kind, parent), Walk(kind, p))
    ensures Repaged(PagesOf(parent), used, PagesOf(p), used', gone, taken)
    ensures KeepsLost(parent, p)
    ensures NeighboursSpread(kind, u, bBulk, parent, idx, isRoot, p)
  {
    hide RunSpread;
    hide PageFits, Regrown, ForestOk, TreeOk, Unbalanced, PageTree, Redivided, Repaged, PagesOf, KeepsLost;
    h' := h;
    p, used', gone, taken := Redistribute(kind, u, h, parent, idx, bBulk, used);
    ParentFacts(kind, u, h, parent, idx, p);
    var collapse := false;
    ghost var m := p;
    if isRoot && |p.cells| - p.nOv == 0 {
      LoneChild(kind, u, h - 1, p, parent.kids);
      collapse := HeaderOffset(p) <= NFree(u, p.kids[0]);
    }
    if collapse {
      CollapsedSound(kind, u, p, p.kids[0], h - 1);
      CollapsedWalk(kind, p, p.kids[0]);
      CollapsedPages(p, p.kids[0], PagesOf(parent), used, used', gone, taken);
      h' := h - 1;
      used', gone := used' - {p.kids[0].pgno}, gone + {p.kids[0].pgno};
      OnlyChildKeeps(p, p.kids[0], Collapsed(p, p.kids[0]));
      KeepsTrans(parent, p, Collapsed(p, p.kids[0]));
      p := Collapsed(p, p.kids[0]);
    } else {
      NotCollapsed(kind, u, h, parent, p, isRoot);
    }
    assert CollapsedIf(u, isRoot, m, p);
  }

  lemma ParentFacts(kind: Kind, u: nat, h: nat, parent: Node, idx: nat, p: Node)
    requires Unbalanced(kind, u, parent, h, idx) && PageFits(kind, u, p, 4)
    ensures h > 0 && Shaped(parent) && !parent.leaf && parent.pgno > 0 && Shaped(p) && OvflInRange(p)
    ensures |parent.kids| == 1 ==> idx == 0 && parent.cells == []
    ensures parent.kids[idx].cells == [] ==> parent.kids[idx].nOv == 0
  {
  }

  lemma LoneChild(kind: Kind, u: nat, h: nat, p: Node, old_: seq<Node>)
    requires u >= MIN_USABLE && Regrown(kind, u, h, p.kids, old_) && !p.leaf && Shaped(p) && p.cells == []
    ensures p.kids == [p.kids[0]] && PageTree(kind, u, p.kids[0], h) && OvflInRange(p.kids[0])
    ensures p.kids[0].cells == [] ==> |old_| == 1 && old_[0].cells == [] && NFree(u, p.kids[0]) >= 100
  {
    if !(|old_| == 1 && old_[0].cells == []) { assert TreeOk(kind, u, p.kids[0], h); }
    if p.kids[0].cells == [] { EmptyPageRoom(u, p.kids[0]); }
  }

  /** Why a root that keeps its child over an empty page of cells is page 1, and why the new children are never empty. */
  lemma NotCollapsed(kind: Kind, u: nat, h: nat, parent: Node, p: Node, isRoot: bool)
    requires u >= MIN_USABLE && h > 0 && Shaped(parent) && !parent.leaf
    requires Regrown(kind, u, h - 1, p.kids, parent.kids) && !p.leaf && Shaped(p) && OvflInRange(p)
    requires !isRoot ==> parent.cells != []
    requires isRoot && p.cells == [] ==> OvflInRange(p.kids[0]) && HeaderOffset(p) > NFree(u, p.kids[0])
    ensures ForestOk(kind, u, p.kids, h - 1) && (isRoot && p.cells == [] ==> p.pgno == 1)
  {
    if p.cells == [] { LoneChild(kind, u, h - 1, p, parent.kids); }
  }

  // ----- balance_quick -----

  /** The rightmost leaf of a table without its last cell, that cell on a page of its own, and the divider between them. */
  function QuickLeft(page: Node): Node
    requires page.cells != []
  {
    page.(cells := page.cells[..|page.cells| - 1], ovAt := 0, nOv := 0)
  }

  function QuickRight(page: Node, pgno: nat): Node
    requires page.cells != []
  {
    Node(pgno, true, [page.cells[|page.cells| - 1]], [], 0, 0, 0)
  }

  function QuickParent(parent: Node, idx: nat, left: Node, right: Node): Node
    requires idx < |parent.kids|
  {
    parent.(kids := parent.kids[..idx] + [left, right] + parent.kids[idx + 1..])
  }

  /** The new entry came last on the last leaf: it gets a page of its own instead of spreading three leaves. */
  ghost predicate QuickCase(kind: Kind, parent: Node, idx: nat) {
    && kind.Table? && !parent.leaf && Shaped(parent) && parent.nOv == 0 && idx == |parent.cells|
    && var page := parent.kids[idx];
       page.leaf && page.kids == [] && page.nOv == 1 && page.ovAt == |page.cells| - 1 && |page.cells| > 1
  }

  /** What balance_quick makes of a parent. */
  ghost predicate QuickAs(parent: Node, idx: nat, pgno: nat, p: Node) {
    && idx < |parent.kids| && |parent.kids[idx].cells| > 1 && pgno > 1 && p.pgno == parent.pgno && p.lost == parent.lost && !p.leaf
    && var page := parent.kids[idx];
       && p.cells == parent.cells + [DividerOf(page.cells[|page.cells| - 2])]
       && p.kids == parent.kids[..idx] + [QuickLeft(page), QuickRight(page, pgno)]
  }

  lemma QuickSound(kind: Kind, u: nat, page: Node, pgno: nat)
    requires u >= MIN_USABLE && kind.Table? && pgno > 1
    requires LooseKid(kind, u, page, 0) && page.nOv == 1 && page.ovAt == |page.cells| - 1 && |page.cells| > 1
    ensures TreeOk(kind, u, QuickLeft(page), 0) && TreeOk(kind, u, QuickRight(page, pgno), 0)
    ensures GoodCell(kind, u, false, DividerOf(page.cells[|page.cells| - 2]))
  {
    var last := |page.cells| - 1;
    FreeWithoutOverflow(u, QuickLeft(page));
    FreeWithoutOverflow(u, QuickRight(page, pgno));
    assert OnPage(page) == page.cells[..last];
    UsedOne(true, page.cells[last]);
    assert GoodCell(kind, u, true, page.cells[last]) && GoodCell(kind, u, true, page.cells[last - 1]);
  }

  lemma QuickWalk(kind: Kind, parent: Node, idx: nat, pgno: nat, p: Node)
    requires QuickCase(kind, parent, idx) && !p.leaf
    requires var page := parent.kids[idx];
             && p.cells == parent.cells + [DividerOf(page.cells[|page.cells| - 2])]
             && p.kids == parent.kids[..idx] + [QuickLeft(page), QuickRight(page, pgno)] + []
    ensures Redivided(kind, Walk(kind, parent), Walk(kind, p))
  {
    var page := parent.kids[idx];
    var l, r, d := QuickLeft(page), QuickRight(page, pgno), DividerOf(page.cells[|page.cells| - 2]);
    var ka := parent.kids[..idx];
    SplitThree(parent.kids, idx);
    assert parent.kids == ka + [page] + [];
    assert parent.cells == parent.cells + [] + [];
    assert p.cells == parent.cells + [d] + [];
    RunWalk(kind, parent, parent.cells, ka, [], [page], [], []);
    RunWalk(kind, p, parent.cells, ka, [d], [l, r], [], []);
    QuickPair(page, pgno);
    RedividedWithin(kind, WeaveLeft(kind, parent.cells, Walks(kind, ka)), Weave(kind, [], Walks(kind, [page])),
                    Weave(kind, [d], Walks(kind, [l, r])), WeaveRight(kind, [], Walks(kind, [])));
  }

  lemma JoinOne(leafData: bool, c: seq<Cell>)
    ensures Join(leafData, [c], []) == c
  {
  }

  lemma QuickPair(page: Node, pgno: nat)
    requires page.leaf && page.kids == [] && |page.cells| > 1
    ensures Redivided(Table, Weave(Table, [], Walks(Table, [page])),
                      Weave(Table, [DividerOf(page.cells[|page.cells| - 2])], Walks(Table, [QuickLeft(page), QuickRight(page, pgno)])))
  {
    hide Weave, Walks, Walk, Entries, Backed, Redivided, Join;
    var l, r, d := QuickLeft(page), QuickRight(page, pgno), DividerOf(page.cells[|page.cells| - 2]);
    JoinOne(true, page.cells);
    JoinEntries([page], []);
    JoinEntries([l, r], [d]);
    JoinTwo(true, l.cells, d, r.cells);
    assert CellsOf([l, r]) == [l.cells, r.cells] && CellsOf([page]) == [page.cells];
    assert l.cells + [] + r.cells == page.cells;
    RepeatsBacked([l, r], [d]);
    RedividedWhole(Weave(Table, [], Walks(Table, [page])), Weave(Table, [d], Walks(Table, [l, r])));
  }

  lemma QuickPages(parent: Node, idx: nat, pgno: nat, p: Node)
    requires idx < |parent.kids| && parent.kids[idx].kids == [] && parent.kids[idx].cells != [] && p.pgno == parent.pgno
    requires p.kids == parent.kids[..idx] + [QuickLeft(parent.kids[idx]), QuickRight(parent.kids[idx], pgno)] + parent.kids[idx + 1..]
    ensures PagesOf(p) == PagesOf(parent) + multiset{pgno}
  {
    var page := parent.kids[idx];
    var l, r := QuickLeft(page), QuickRight(page, pgno);
    SplitThree(parent.kids, idx);
    assert PagesOfAll([page]) == multiset{page.pgno};
    assert PagesOfAll([r]) == multiset{pgno};
    assert [l, r][1..] == [r];
    assert PagesOfAll([l, r]) == multiset{page.pgno} + multiset{pgno};
    var none: set<nat> := {};
    assert multiset({pgno}) == multiset{pgno} && multiset(none) == multiset{};
    RunRepaged(parent, p, parent.kids[..idx], [page], [l, r], parent.kids[idx + 1..], none, {pgno});
  }

  /** Puts the overflow cell of the last leaf on a new page to its right. */
  method BalanceQuick(kind: Kind, u: nat, parent: Node, idx: nat, used: set<nat>)
    returns (p: Node, used': set<nat>, ghost taken: set<nat>)
    requires u >= MIN_USABLE && Unbalanced(kind, u, parent, 1, idx) && QuickCase(kind, parent, idx)
    ensures Rebalanced(kind, u, p, 1) && p.pgno == parent.pgno && p.cells != [] && (parent.cells == [] ==> p.nOv == 0)
    ensures Redivided(kind, Walk(kind, parent), Walk(kind, p))
    ensures Repaged(PagesOf(parent), used, PagesOf(p), used', {}, taken)
    ensures KeepsLost(parent, p)
    ensures exists pgno: nat :: QuickAs(parent, idx, pgno, p)
  {
    hide KeepsLost, QuickAs;
    var page := parent.kids[idx];
    var pgno := AllocatePage(used);
    used', taken := used + {pgno}, {pgno};
    QuickSound(kind, u, page, pgno);
    var divider := DividerOf(page.cells[|page.cells| - 2]);
    var grown := QuickParent(parent, idx, QuickLeft(page), QuickRight(page, pgno));
    p := InsertCell(u, grown, |parent.cells|, divider, Size(false, divider));
    QuickDone(kind, u, parent, idx, pgno, p);
    QuickKeeps(u, parent, idx, pgno, p);
  }

  lemma QuickKeeps(u: nat, parent: Node, idx: nat, pgno: nat, p: Node)
    requires idx == |parent.cells| < |parent.kids| && parent.kids[idx].kids == [] && |parent.kids[idx].cells| > 1 && OvflInRange(parent)
    requires var page := parent.kids[idx];
             var d := DividerOf(page.cells[|page.cells| - 2]);
             var grown := QuickParent(parent, idx, QuickLeft(page), QuickRight(page, pgno));
             !parent.leaf && p == InsertCell(u, grown, |parent.cells|, d, Size(false, d))
    ensures KeepsLost(parent, p)
  {
    hide NFree;
    var page := parent.kids[idx];
    var l, r := QuickLeft(page), QuickRight(page, pgno);
    assert parent.kids[idx..idx + 1] == [page];
    forall k: nat | EachLost([page], k) ensures EachLost([l, r], k) { assert LostAtMost([page][0], k); }
    RunKeeps(parent, p, idx, 1, [l, r]);
  }

  /** The parent with the two leaves in place of the one, before the divider is in. */
  lemma QuickGrown(kind: Kind, u: nat, parent: Node, idx: nat, pgno: nat)
    requires u >= MIN_USABLE && Unbalanced(kind, u, parent, 1, idx) && QuickCase(kind, parent, idx) && pgno > 1
    ensures var page := parent.kids[idx];
            var grown := QuickParent(parent, idx, QuickLeft(page), QuickRight(page, pgno));
      && ForestOk(kind, u, grown.kids, 0) && GoodCell(kind, u, false, DividerOf(page.cells[|page.cells| - 2]))
      && OvflInRange(grown) && NFree(u, grown) == NFree(u, parent) >= 0 && GoodCells(kind, u, false, parent.cells)
      && parent.lost <= MayLose(kind, u, false) && parent.pgno > 0
  {
    hide GoodCells, TreeOk, GoodCell, OthersOk;
    QuickSound(kind, u, parent.kids[idx], pgno);
    QuickForest(kind, u, parent.kids, idx, QuickLeft(parent.kids[idx]), QuickRight(parent.kids[idx], pgno));
    FreeWithoutOverflow(u, parent);
    FreeWithoutOverflow(u, QuickParent(parent, idx, QuickLeft(parent.kids[idx]), QuickRight(parent.kids[idx], pgno)));
  }

  lemma QuickShape(kind: Kind, u: nat, parent: Node, idx: nat, pgno: nat, p: Node)
    requires u >= MIN_USABLE && Unbalanced(kind, u, parent, 1, idx) && QuickCase(kind, parent, idx) && pgno > 1
    requires var page := parent.kids[idx];
             var d := DividerOf(page.cells[|page.cells| - 2]);
             p == InsertCell(u, QuickParent(parent, idx, QuickLeft(page), QuickRight(page, pgno)), |parent.cells|, d, Size(false, d))
    ensures Rebalanced(kind, u, p, 1) && p.pgno == parent.pgno && !p.leaf && (parent.cells == [] ==> p.nOv == 0)
    ensures var page := parent.kids[idx];
      && p.cells == parent.cells + [DividerOf(page.cells[|page.cells| - 2])]
      && p.kids == parent.kids[..idx] + [QuickLeft(page), QuickRight(page, pgno)] + parent.kids[idx + 1..] && parent.kids[idx + 1..] == []
  {
    var page := parent.kids[idx];
    var d := DividerOf(page.cells[|page.cells| - 2]);
    var grown := QuickParent(parent, idx, QuickLeft(page), QuickRight(page, pgno));
    QuickGrown(kind, u, parent, idx, pgno);
    QuickOthers(kind, u, parent, idx);
    hide GoodCells, ForestOk, GoodCell, NFree, OnPage, Unbalanced, Size, MayLose;
    InsertFree(u, grown, |parent.cells|, d);
    InsertGood(kind, u, false, parent.cells, |parent.cells|, d);
    if parent.cells == [] { SecondDividerFits(kind, u, grown, d); }
  }

  lemma QuickOthers(kind: Kind, u: nat, parent: Node, idx: nat)
    requires Unbalanced(kind, u, parent, 1, idx) && QuickCase(kind, parent, idx)
    ensures parent.kids[idx + 1..] == [] && |parent.kids| == |parent.cells| + 1 && parent.nOv == 0
  {
  }

  lemma QuickDone(kind: Kind, u: nat, parent: Node, idx: nat, pgno: nat, p: Node)
    requires u >= MIN_USABLE && Unbalanced(kind, u, parent, 1, idx) && QuickCase(kind, parent, idx) && pgno > 1
    requires var page := parent.kids[idx];
             var d := DividerOf(page.cells[|page.cells| - 2]);
             p == InsertCell(u, QuickParent(parent, idx, QuickLeft(page), QuickRight(page, pgno)), |parent.cells|, d, Size(false, d))
    ensures Rebalanced(kind, u, p, 1) && p.pgno == parent.pgno && p.cells != [] && (parent.cells == [] ==> p.nOv == 0)
    ensures Redivided(kind, Walk(kind, parent), Walk(kind, p))
    ensures PagesOf(p) == PagesOf(parent) + multiset{pgno} && QuickAs(parent, idx, pgno, p)
  {
    QuickShape(kind, u, parent, idx, pgno, p);
    QuickLost(u, parent, idx, pgno, p);
    hide Unbalanced, Rebalanced, Walk, PagesOf, QuickAs, InsertCell;
    QuickIs(parent, idx, pgno, p);
    QuickWalk(kind, parent, idx, pgno, p);
    QuickPages(parent, idx, pgno, p);
  }

  lemma QuickIs(parent: Node, idx: nat, pgno: nat, p: Node)
    requires idx + 1 == |parent.kids| && |parent.kids[idx].cells| > 1 && pgno > 1 && p.pgno == parent.pgno && p.lost == parent.lost && !p.leaf
    requires var page := parent.kids[idx];
      && p.cells == parent.cells + [DividerOf(page.cells[|page.cells| - 2])]
      && p.kids == parent.kids[..idx] + [QuickLeft(page), QuickRight(page, pgno)] + parent.kids[idx + 1..]
    ensures QuickAs(parent, idx, pgno, p)
  {
  }

  lemma QuickLost(u: nat, parent: Node, idx: nat, pgno: nat, p: Node)
    requires idx < |parent.kids| && |parent.kids[idx].cells| > 1 && OvflInRange(parent)
    requires var page := parent.kids[idx];
             var d := DividerOf(page.cells[|page.cells| - 2]);
             p == InsertCell(u, QuickParent(parent, idx, QuickLeft(page), QuickRight(page, pgno)), |parent.cells|, d, Size(false, d)) && !parent.leaf
    ensures p.lost == parent.lost
  {
    hide NFree;
  }

  lemma QuickForest(kind: Kind, u: nat, kids: seq<Node>, idx: nat, l: Node, r: Node)
    requires idx < |kids| && OthersOk(kind, u, 0, kids, idx) && TreeOk(kind, u, l, 0) && TreeOk(kind, u, r, 0)
    ensures ForestOk(kind, u, kids[..idx] + [l, r] + kids[idx + 1..], 0)
  {
    RunOthers(kind, u, kids, 0, idx, idx, 1);
    ForestThree(kind, u, kids[..idx], [l, r], kids[idx + 1..], 0);
  }

  // ----- balance_deeper -----

  /** The content of an overfull root moves to a new child; the root keeps nothing but that child. */
  method BalanceDeeper(kind: Kind, u: nat, ghost h: nat, root: Node, used: set<nat>)
    returns (p: Node, used': set<nat>, ghost taken: set<nat>)
    requires PageFits(kind, u, root, if kind.Table? && root.leaf then 1 else 4) && root.nOv > 0 && root.pgno > 0
    requires (root.leaf <==> h == 0) && (h > 0 ==> ForestOk(kind, u, root.kids, h - 1))
    requires u >= MIN_USABLE
    ensures Unbalanced(kind, u, p, h + 1, 0) && p.pgno == root.pgno && p.cells == [] && p.nOv == 0
    ensures p.kids[0].nOv == root.nOv && p.kids[0].cells == root.cells
    ensures exists pgno: nat :: p == Node(root.pgno, false, [], [root.(pgno := pgno)], 0, 0, 0)
    ensures Walk(kind, p) == Walk(kind, root)
    ensures Repaged(PagesOf(root), used, PagesOf(p), used', {}, taken)
    ensures KeepsLost(root, p)
  {
    hide PageFits, ForestOk, Unbalanced, KeepsLost, PagesOf, Walk;
    var pgno := AllocatePage(used);
    used', taken := used + {pgno}, {pgno};
    var child := Node(pgno, root.leaf, root.cells, root.kids, root.ovAt, root.nOv, root.lost);
    p := Node(root.pgno, false, [], [child], 0, 0, 0);
    DeeperSound(kind, u, h, root, child, p);
    DeeperPages(root, pgno, child, p);
    DeeperWalk(kind, root, child, p);
    NewRootKeeps(root, child, p);
  }

  lemma DeeperWalk(kind: Kind, root: Node, child: Node, p: Node)
    requires child.leaf == root.leaf && child.cells == root.cells && child.kids == root.kids && !p.leaf && p.cells == [] && p.kids == [child]
    ensures Walk(kind, p) == Walk(kind, root)
  {
    WalksOne(kind, child);
  }

  lemma DeeperSound(kind: Kind, u: nat, h: nat, root: Node, child: Node, p: Node)
    requires u >= MIN_USABLE && PageFits(kind, u, root, if kind.Table? && root.leaf then 1 else 4) && root.nOv > 0 && root.pgno > 0
    requires (root.leaf <==> h == 0) && (h > 0 ==> ForestOk(kind, u, root.kids, h - 1))
    requires child == root.(pgno := child.pgno) && child.pgno > 1 && p == Node(root.pgno, false, [], [child], 0, 0, 0)
    ensures Unbalanced(kind, u, p, h + 1, 0)
  {
    hide GoodCells, ForestOk;
    assert OnPage(child) == OnPage(root);
    NoCells(kind, u);
    DeeperRoom(u, p);
  }

  lemma NoCells(kind: Kind, u: nat)
    requires u >= MIN_USABLE
    ensures GoodCells(kind, u, false, []) && MayLose(kind, u, false) >= 0
  {
  }

  lemma DeeperRoom(u: nat, p: Node)
    requires u >= MIN_USABLE && !p.leaf && p.cells == [] && OvflInRange(p) && p.lost == 0
    ensures NFree(u, p) >= 0
  {
    assert Sizes(false, OnPage(p)) == [];
  }

  lemma DeeperPages(root: Node, pgno: nat, child: Node, p: Node)
    requires child.pgno == pgno && child.kids == root.kids && p.pgno == root.pgno && p.kids == [child]
    ensures PagesOf(p) == PagesOf(root) + multiset{pgno}
  {
    assert PagesOfAll([child]) == PagesOf(child);
  }
}
