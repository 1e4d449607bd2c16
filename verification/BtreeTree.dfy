/** A b-tree that changes in place. */
module BtreeTree {
  import opened BtreeNode
  import opened BtreeShape
  import opened BtreePath
  import opened BtreeLost
  import opened BtreeRebalance
  import opened BtreeBalance
  import opened BtreeAlong
  import opened BtreeStep
  import opened BtreeRounds

  class Btree {
    const kind: Kind
    const u: nat
    var root: Node
    var used: set<nat>
    ghost var height: nat
    ghost var others: set<nat>
    /** No page has lost more bytes than this. */
    ghost var spill: nat

    /** A well-formed tree in key order that owns exactly the pages in use by no other tree. */
    ghost predicate Sound()
      reads this
    {
      && u >= MIN_USABLE && RootOk(kind, u, root, height) && Sorted(Walk(kind, root)) && OwnsRest(root, used, others)
      && LostAtMost(root, spill)
    }

    /** Whatever entry moves up, its page will be balanced if it comes to be empty. */
    ghost predicate Spare()
      reads this`spill
    {
      kind.Index? ==> spill + 4 <= MayLose(kind, u, false)
    }

    /** What the tree stores, in key order. */
    ghost function Contents(): seq<Cell>
      reads this
    {
      Entries(Walk(kind, root))
    }

    constructor (kind: Kind, u: nat, root: Node, ghost height: nat, used: set<nat>, ghost others: set<nat>, ghost spill: nat)
      requires u >= MIN_USABLE && RootOk(kind, u, root, height) && Sorted(Walk(kind, root)) && OwnsRest(root, used, others)
      requires LostAtMost(root, spill)
      ensures Sound() && this.kind == kind && this.u == u && this.root == root && this.height == height
      ensures this.used == used && this.others == others && this.spill == spill
    {
      this.kind, this.u, this.root, this.height, this.used, this.others, this.spill := kind, u, root, height, used, others, spill;
    }

    /** Balances the last page of the path against its parent, which becomes the page to look at next. */
    method BalanceOnce(path: Path, bBulk: bool, ghost cd: int)
      requires u >= MIN_USABLE && path != [] && BalanceState(kind, u, root, height, path, cd)
      requires OwnsRest(root, used, others)
      requires if kind.Table? then cd < 0 else bBulk ==> cd < 0
      requires OvflInRange(At(root, path)) && (At(root, path).nOv > 0 || NFree(u, At(root, path)) > u * 2 / 3)
      modifies this`root, this`used, this`height
      ensures BalanceState(kind, u, root, height, path[..|path| - 1], cd)
      ensures OwnsRest(root, used, others) && SameEntries(kind, old(root), root) && KeepsLost(old(root), root)
      ensures |path| == 1 && old(root).cells == [] ==> root.nOv == 0
      ensures Round(kind, u, bBulk, old(root), path, root, path[..|path| - 1])
    {
      hide ChildBalanced, Round, NFree;
      hide Unbalanced, OwnPages, OwnsRest, SameEntries, OkAlong, Rebalanced, Redivided, Repaged, KeepsLost;
      OwnsEach(root, used, others);
      ParentReady(kind, u, root, height, path, cd, used);
      var q, idx := path[..|path| - 1], path[|path| - 1];
      var parent := At(root, q);
      var p, used';
      ghost var h', gone, taken;
      p, used', h', gone, taken := BalanceChild(kind, u, height - |q|, parent, idx, |path| == 1, bBulk, used);
      RoundMade(kind, u, bBulk, root, path, p);
      StepDone(kind, u, root, height, path, cd, used, others, p, h', used', gone, taken);
      root, used, height := SetAt(root, q, p), used', h' + |q|;
    }

    /** An overfull root passes its content on to a new child. */
    method Deepen()
      requires u >= MIN_USABLE && EndOk(kind, u, root, height, true) && root.nOv > 0 && OwnsRest(root, used, others)
      requires root.nOv == |root.cells| ==> root.pgno == 1
      modifies this`root, this`used, this`height
      ensures OwnsRest(root, used, others) && SameEntries(kind, old(root), root) && KeepsLost(old(root), root)
      ensures BalanceState(kind, u, root, height, [0], -1) && root.cells == [] && root.nOv == 0 && At(root, [0]).nOv > 0
      ensures exists pgno: nat :: Grown(old(root), root, pgno)
    {
      hide PageFits, ForestOk, OthersOk, KeepsLost;
      OwnsEach(root, used, others);
      var p, used';
      ghost var taken;
      p, used', taken := BalanceDeeper(kind, u, height, root, used);
      Deepened(kind, u, root, height, p);
      OwnsRepaged(root, used, others, p, used', {}, taken);
      assert Grown(root, p, p.kids[0].pgno);
      root, used, height := p, used', height + 1;
    }

    /** Works upwards from the last page of the path until a page needs no balancing.  Where a page cd levels down the path
        carries an overflow cell of its own, either it has been dealt with or the path ends below it. */
    method Balance(start: Path, bBulk: bool, ghost start_cd: int) returns (path: Path)
      requires u >= MIN_USABLE && BalanceState(kind, u, root, height, start, start_cd)
      requires OwnsRest(root, used, others) && LostAtMost(root, spill)
      requires if kind.Table? then start_cd < 0 else bBulk ==> start_cd < 0
      modifies this`root, this`used, this`height
      ensures OwnsRest(root, used, others) && SameEntries(kind, old(root), root) && LostAtMost(root, spill)
      ensures |path| <= |start| || (start == [] && old(root).nOv > 0)
      ensures if 0 <= start_cd < |path|
              then |path| <= |start| && path == start[..|path|] && BalanceState(kind, u, root, height, path[..start_cd], -1)
              else RootOk(kind, u, root, height)
      ensures Steady(u, old(root), start) ==> root == old(root) && path == start
      ensures Reaches(kind, u, bBulk, old(root), start, root, path) && Steady(u, root, path)
    {
      hide ChildBalanced, Round;
      hide PageFits, OthersOk, ForestOk, OwnsRest, SameEntries, Rebalanced, KeepsLost, LostAtMost;
      path := start;
      ghost var roots: seq<Node>, paths: seq<Path> := [root], [start];
      ghost var cd := start_cd;
      ghost var deep := false;
      SameEntriesSelf(kind, root);
      while true
        invariant BalanceState(kind, u, root, height, path, cd) && OwnsRest(root, used, others)
        invariant SameEntries(kind, old(root), root) && LostAtMost(root, spill)
        invariant if kind.Table? then cd < 0 else bBulk ==> cd < 0
        invariant Steady(u, old(root), start) ==> root == old(root) && path == start && !deep
        invariant !deep ==> cd == start_cd && |path| <= |start| && path == start[..|path|]
        invariant start == [] ==> if deep then old(root).nOv > 0 else root == old(root)
        invariant |roots| == |paths| > 0 && roots[0] == old(root) && paths[0] == start && roots[|roots| - 1] == root && paths[|paths| - 1] == path
        invariant forall i :: 0 <= i < |roots| - 1 ==> Round(kind, u, bBulk, roots[i], paths[i], roots[i + 1], paths[i + 1])
        invariant deep && start != [] ==> |path| <= |start|
        invariant deep ==> cd < 0 && |path| <= 1 && root.nOv == 0 && (path != [] ==> root.cells == [] && At(root, path).nOv > 0)
        decreases !deep, |path|
      {
        ghost var before := root;
        AlongEnd(kind, u, root, height, path, cd, true);
        EndRange(kind, u, At(root, path), height - |path|, path == []);
        if path == [] {
          if root.nOv == 0 { break; }
          Deepen();
          DeepRound(kind, u, bBulk, before, root);
          path := [0];
          cd, deep := -1, true;
        } else if At(root, path).nOv == 0 && NFree(u, At(root, path)) <= u * 2 / 3 {
          break;
        } else {
          BalanceOnce(path, bBulk, cd);
          path := path[..|path| - 1];
        }
        RoundsMore(kind, u, bBulk, roots, paths, root, path);
        roots, paths := roots + [root], paths + [path];
        SameEntriesTrans(kind, old(root), before, root);
        KeepsUse(before, root, spill);
      }
      StopHere(kind, u, root, height, path, cd);
      assert LeadsTo(kind, u, bBulk, roots, paths, old(root), start, root, path);
    }
  }
}
