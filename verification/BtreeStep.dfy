/** One turn of the balancing loop, seen from the root. */
module BtreeStep {
  import opened BtreeNode
  import opened BtreeShape
  import opened BtreePath
  import opened BtreeLost
  import opened BtreeRebalance
  import opened BtreeBalance
  import opened BtreeAlong

  /** A tree that is sound but for the last page of the path, which may be overfull, underfull or empty, and for the page
      cd levels down.  A root without cells is page 1, unless its only child is about to be split. */
  ghost predicate BalanceState(kind: Kind, u: nat, root: Node, h: nat, path: Path, cd: int) {
    && OkAlong(kind, u, root, h, path, cd, true) && ValidPath(root, path)
    && (!root.leaf && root.cells == [] ==> root.pgno == 1 || (|path| == 1 && At(root, path).nOv > 0))
    && (At(root, path).nOv > 0 && At(root, path).nOv == |At(root, path).cells| ==> root.pgno == 1 && |path| <= 1)
  }

  /** The same entries in the same order. */
  ghost predicate SameEntries(kind: Kind, n: Node, n': Node) {
    && Entries(Walk(kind, n)) == Entries(Walk(kind, n'))
    && (Sorted(Walk(kind, n)) ==> Sorted(Walk(kind, n')))
  }

  lemma RedividedSame(kind: Kind, n: Node, path: Path, m: Node)
    requires ValidPath(n, path) && Redivided(kind, Walk(kind, At(n, path)), Walk(kind, m))
    ensures SameEntries(kind, n, SetAt(n, path, m))
  {
    WalkAt(kind, n, path);
    WalkSetAt(kind, n, path, m);
    RedividedWithin(kind, PreAt(kind, n, path), Walk(kind, At(n, path)), Walk(kind, m), PostAt(kind, n, path));
  }

  lemma RepagedWithin(n: Node, path: Path, m: Node, used: set<nat>, used': set<nat>, gone: set<nat>, taken: set<nat>)
    requires ValidPath(n, path) && Repaged(PagesOf(At(n, path)), used, PagesOf(m), used', gone, taken)
    ensures Repaged(PagesOf(n), used, PagesOf(SetAt(n, path, m)), used', gone, taken)
  {
    PagesSetAt(n, path, m);
    PagesAt(n, path);
    BagReplace(PagesOf(n), PagesOf(SetAt(n, path, m)), PagesOf(At(n, path)), PagesOf(m), multiset(gone), multiset(taken));
  }

  lemma BagReplace(all: multiset<nat>, all': multiset<nat>, part: multiset<nat>, part': multiset<nat>, g: multiset<nat>, t: multiset<nat>)
    requires all' + part == all + part' && part' + g == part + t
    ensures all' + g == all + t
  {
    forall p | p in multiset{p} ensures (all' + g)[p] == (all + t)[p] {
      assert (all' + part)[p] == (all + part')[p] && (part' + g)[p] == (part + t)[p];
    }
  }

  lemma OwnPagesAt(n: Node, path: Path, used: set<nat>)
    requires ValidPath(n, path) && OwnPages(PagesOf(n), used)
    ensures OwnPages(PagesOf(At(n, path)), used)
  {
    PagesAt(n, path);
    forall p | p in PagesOf(At(n, path)) ensures PagesOf(At(n, path))[p] == 1 && p in used {
      assert p in PagesOf(n) && PagesOf(At(n, path))[p] <= PagesOf(n)[p];
    }
  }

  /** The parent of the last page, ready for balancing. */
  lemma ParentReady(kind: Kind, u: nat, root: Node, h: nat, path: Path, cd: int, used: set<nat>)
    requires path != [] && BalanceState(kind, u, root, h, path, cd) && OwnPages(PagesOf(root), used)
    ensures var q, i := path[..|path| - 1], path[|path| - 1];
      && ValidPath(root, q) && |path| <= h && i < |At(root, q).kids|
      && Unbalanced(kind, u, At(root, q), h - |q|, i) && At(root, path) == At(root, q).kids[i]
      && OwnPages(PagesOf(At(root, q)), used)
      && (q != [] ==> At(root, q).cells != [] && At(root, q).pgno > 1)
      && (q == [] && At(root, q).cells == [] ==> At(root, q).pgno == 1 || At(root, q).kids[i].nOv > 0)
      && (At(root, q).nOv > 0 ==> cd == |q|)
      && (At(root, q).pgno != 1 ==> var k := At(root, q).kids[i]; k.nOv == 0 || k.nOv < |k.cells|)
  {
    hide OthersOk, PagesOf, NFree, GoodCells;
    var q, i := path[..|path| - 1], path[|path| - 1];
    AlongMid(kind, u, root, h, path, cd, true, |q|);
    PathPush(root, q, i);
    assert q + [i] == path;
    OwnPagesAt(root, q, used);
  }

  lemma {:induction false} SetAtTop(n: Node, path: Path, m: Node)
    requires ValidPath(n, path) && path != []
    ensures var n' := SetAt(n, path, m); n'.leaf == n.leaf && n'.cells == n.cells && n'.pgno == n.pgno
  {
  }

  /** Putting the balanced parent back leaves a tree in which the parent is the page to look at next. */
  lemma ParentBack(kind: Kind, u: nat, root: Node, h: nat, path: Path, cd: int, p: Node, h': nat)
    requires path != [] && BalanceState(kind, u, root, h, path, cd) && |path| <= h
    requires Rebalanced(kind, u, p, h') && (h' == h - (|path| - 1) || (|path| == 1 && h' == h - 1))
    requires ValidPath(root, path[..|path| - 1]) && p.pgno == At(root, path[..|path| - 1]).pgno
    requires |path| == 1 && !p.leaf && p.cells == [] ==> p.pgno == 1
    requires |path| > 1 ==> p.pgno > 1
    ensures BalanceState(kind, u, SetAt(root, path[..|path| - 1], p), h' + (|path| - 1), path[..|path| - 1], cd)
  {
    var q := path[..|path| - 1];
    if q != [] {
      AlongReplace(kind, u, root, h, path, cd, true, |q|, p);
      SetAtTop(root, q, p);
    }
    SetAtValid(root, q, p);
  }

  /** The tree owns exactly the pages in use that belong to no other tree. */
  ghost predicate OwnsRest(root: Node, used: set<nat>, others: set<nat>) {
    others <= used && PagesOf(root) == multiset(used - others)
  }

  lemma OwnsEach(root: Node, used: set<nat>, others: set<nat>)
    requires OwnsRest(root, used, others)
    ensures OwnPages(PagesOf(root), used)
  {
  }

  /** Freeing and allocating pages leaves the other trees alone and loses no page. */
  lemma OwnsRepaged(root: Node, used: set<nat>, others: set<nat>, root': Node, used': set<nat>, gone: set<nat>, taken: set<nat>)
    requires OwnsRest(root, used, others) && Repaged(PagesOf(root), used, PagesOf(root'), used', gone, taken)
    ensures OwnsRest(root', used', others)
  {
    forall p | p in gone ensures p !in others {
      assert p in PagesOf(root) || p in taken;
    }
    forall p | p in multiset{p} ensures PagesOf(root')[p] == multiset(used' - others)[p] {
      assert (PagesOf(root') + multiset(gone))[p] == (PagesOf(root) + multiset(taken))[p];
    }
  }

  /** A parent whose children have been balanced: the same entries, and every page accounted for. */
  ghost predicate BalancedParent(kind: Kind, u: nat, parent: Node, h: nat, isRoot: bool, used: set<nat>, p: Node, h': nat, used': set<nat>,
                                 gone: set<nat>, taken: set<nat>)
  {
    && Rebalanced(kind, u, p, h') && p.pgno == parent.pgno && (h' == h || (isRoot && h' == h - 1))
    && (isRoot && !p.leaf && p.cells == [] ==> p.pgno == 1)
    && (parent.cells == [] ==> p.nOv == 0)
    && Redivided(kind, Walk(kind, parent), Walk(kind, p))
    && Repaged(PagesOf(parent), used, PagesOf(p), used', gone, taken)
    && KeepsLost(parent, p)
  }

  /** The new entry came last on the last leaf of a table. */
  predicate Appended(kind: Kind, parent: Node, idx: nat)
    requires idx < |parent.kids|
  {
    var page := parent.kids[idx];
    kind.Table? && page.leaf && page.nOv == 1 && page.ovAt == |page.cells| - 1 && parent.pgno != 1 && |parent.cells| == idx
  }

  /** What becomes of a parent when its child number idx is balanced. */
  ghost predicate ChildBalanced(kind: Kind, u: nat, bBulk: bool, parent: Node, idx: nat, isRoot: bool, p: Node) {
    && idx < |parent.kids|
    && if Appended(kind, parent, idx) then exists pgno: nat :: QuickAs(parent, idx, pgno, p)
       else NeighboursSpread(kind, u, bBulk, parent, idx, isRoot, p)
  }

  /** Balances child number idx of the parent: the quick way if a table entry was appended at the very end, else by
      spreading neighbours. */
  method BalanceChild(kind: Kind, u: nat, ghost h: nat, parent: Node, idx: nat, isRoot: bool, bBulk: bool, used: set<nat>)
    returns (p: Node, used': set<nat>, ghost h': nat, ghost gone: set<nat>, ghost taken: set<nat>)
    requires u >= MIN_USABLE && Unbalanced(kind, u, parent, h, idx) && OwnPages(PagesOf(parent), used)
    requires kind.Table? || bBulk ==> parent.nOv == 0
    requires if isRoot then parent.cells == [] ==> parent.pgno == 1 || parent.kids[idx].nOv > 0
             else parent.cells != [] && parent.pgno > 1
    requires parent.pgno != 1 ==> parent.kids[idx].nOv == 0 || parent.kids[idx].nOv < |parent.kids[idx].cells|
    ensures BalancedParent(kind, u, parent, h, isRoot, used, p, h', used', gone, taken)
    ensures ChildBalanced(kind, u, bBulk, parent, idx, isRoot, p)
  {
    hide GoodCells, NFree, OthersOk, ForestOk, Repaged, Redivided, OwnPages, KeepsLost, QuickAs, NeighboursSpread;
    var page := parent.kids[idx];
    if kind.Table? && page.leaf && page.nOv == 1 && page.ovAt == |page.cells| - 1 && parent.pgno != 1 && |parent.cells| == idx {
      h', gone := h, {};
      p, used', taken := BalanceQuick(kind, u, parent, idx, used);
    } else {
      p, used', h', gone, taken := BalanceNonroot(kind, u, h, parent, idx, isRoot, bBulk, used);
    }
  }

  lemma StepDone(kind: Kind, u: nat, root: Node, h: nat, path: Path, cd: int, used: set<nat>, others: set<nat>,
                 p: Node, h': nat, used': set<nat>, gone: set<nat>, taken: set<nat>)
    requires path != [] && BalanceState(kind, u, root, h, path, cd) && OwnsRest(root, used, others)
    requires |path| <= h && ValidPath(root, path[..|path| - 1])
    requires |path| > 1 ==> At(root, path[..|path| - 1]).pgno > 1
    requires BalancedParent(kind, u, At(root, path[..|path| - 1]), h - |path| + 1, |path| == 1, used, p, h', used', gone, taken)
    ensures var root' := SetAt(root, path[..|path| - 1], p);
      && BalanceState(kind, u, root', h' + |path| - 1, path[..|path| - 1], cd)
      && OwnsRest(root', used', others) && SameEntries(kind, root, root') && KeepsLost(root, root')
  {
    var q := path[..|path| - 1];
    hide Rebalanced, Redivided, Repaged, BalanceState, OwnsRest, SameEntries, KeepsLost;
    KeepsSetAt(root, q, p);
    ParentBack(kind, u, root, h, path, cd, p, h');
    RedividedSame(kind, root, q, p);
    RepagedWithin(root, q, p, used, used', gone, taken);
    OwnsRepaged(root, used, others, SetAt(root, q, p), used', gone, taken);
  }

  lemma SameEntriesTrans(kind: Kind, a: Node, b: Node, c: Node)
    requires SameEntries(kind, a, b) && SameEntries(kind, b, c)
    ensures SameEntries(kind, a, c)
  {
  }

  /** A page at most two thirds free is not empty. */
  lemma FullEnough(u: nat, n: Node)
    requires u >= MIN_USABLE && OvflInRange(n) && n.pgno > 1 && n.lost <= MayLose(Index, u, false)
    ensures NFree(u, n) <= u * 2 / 3 ==> n.cells != []
  {
    if n.cells == [] { assert Sizes(n.leaf, OnPage(n)) == []; }
  }

  /** The loop stops at an empty interior page exactly if the page has lost too much. */
  lemma EmptyCaught(u: nat, n: Node)
    requires n.cells == [] && n.ovAt == 0 && n.nOv == 0 && n.pgno > 1 && !n.leaf
    ensures NFree(u, n) <= u * 2 / 3 <==> n.lost > MayLose(Index, u, false)
  {
    FreeWithoutOverflow(u, n);
    assert Sizes(false, n.cells) == [];
  }

  /** The loop may stop at a page that is neither overfull nor more than two thirds free. */
  lemma StopHere(kind: Kind, u: nat, root: Node, h: nat, path: Path, cd: int)
    requires u >= MIN_USABLE && BalanceState(kind, u, root, h, path, cd)
    requires At(root, path).nOv == 0 && OvflInRange(At(root, path))
    requires path != [] ==> NFree(u, At(root, path)) <= u * 2 / 3
    ensures cd < 0 || cd >= |path| ==> RootOk(kind, u, root, h)
    ensures 0 <= cd < |path| ==> BalanceState(kind, u, root, h, path[..cd], -1)
  {
    hide ForestOk, OthersOk, GoodCells;
    if path != [] {
      AlongEnd(kind, u, root, h, path, cd, true);
      EndRange(kind, u, At(root, path), h - |path|, false);
      FullEnough(u, At(root, path));
    }
    AlongDone(kind, u, root, h, path, cd, true);
    if 0 <= cd < |path| {
      AlongMid(kind, u, root, h, path, cd, true, cd);
      MidRange(kind, u, At(root, path[..cd]), h - cd, path[cd], cd == 0);
    }
  }

  lemma MidRange(kind: Kind, u: nat, n: Node, h: nat, i: nat, isRoot: bool)
    requires MidOk(kind, u, n, h, i, 0, isRoot)
    ensures n.nOv <= 1 && (n.nOv == |n.cells| && n.nOv > 0 ==> isRoot && n.pgno == 1)
  {
  }

  /** The root's content has moved to a new child. */
  lemma Deepened(kind: Kind, u: nat, root: Node, h: nat, p: Node)
    requires Unbalanced(kind, u, p, h + 1, 0) && p.cells == [] && p.nOv == 0 && p.pgno == root.pgno
    requires p.kids[0].nOv == root.nOv > 0 && p.kids[0].cells == root.cells
    requires root.nOv == |root.cells| ==> root.pgno == 1
    ensures BalanceState(kind, u, p, h + 1, [0], -1) && At(p, [0]).nOv > 0
  {
    assert [0][1..] == [] && At(p, [0]) == p.kids[0];
  }

  lemma SameEntriesSelf(kind: Kind, a: Node)
    ensures SameEntries(kind, a, a)
  {
  }

  lemma EndRange(kind: Kind, u: nat, n: Node, h: nat, isRoot: bool)
    requires EndOk(kind, u, n, h, isRoot)
    ensures OvflInRange(n)
  {
  }
}
