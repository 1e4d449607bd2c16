/** The rounds of the balancing loop: what each does to the tree, and when the loop ends. */
module BtreeRounds {
  import opened BtreeNode
  import opened BtreeShape
  import opened BtreePath
  import opened BtreePacking
  import opened BtreeSiblings
  import opened BtreeRebalance
  import opened BtreeBalance
  import opened BtreeStep

  /** The page needs no balancing. */
  ghost predicate Steady(u: nat, root: Node, path: Path) {
    && ValidPath(root, path) && At(root, path).nOv == 0 && OvflInRange(At(root, path))
    && (path == [] || NFree(u, At(root, path)) <= u * 2 / 3)
  }

  /** An overfull root passes its content on to a new child. */
  ghost predicate Grown(root: Node, root': Node, pgno: nat) {
    root' == Node(root.pgno, false, [], [root.(pgno := pgno)], 0, 0, 0)
  }

  /** The last page of the path has been balanced against its parent, which is now p. */
  ghost predicate ParentChanged(kind: Kind, u: nat, bBulk: bool, root: Node, path: Path, p: Node, root': Node)
    requires path != []
  {
    var q := path[..|path| - 1];
    ValidPath(root, q) && ChildBalanced(kind, u, bBulk, At(root, q), path[|path| - 1], q == [], p) && root' == SetAt(root, q, p)
  }

  /** One round: the last page of the path needs balancing, and is balanced against its parent. */
  ghost predicate Round(kind: Kind, u: nat, bBulk: bool, root: Node, path: Path, root': Node, path': Path) {
    && !Steady(u, root, path)
    && if path == [] then path' == [0] && exists pgno: nat :: Grown(root, root', pgno)
       else path' == path[..|path| - 1] && exists p: Node :: ParentChanged(kind, u, bBulk, root, path, p, root')
  }

  /** A run of the loop: rounds follow each other until a page needs no balancing. */
  ghost predicate Rounds(kind: Kind, u: nat, bBulk: bool, roots: seq<Node>, paths: seq<Path>) {
    && |roots| == |paths| > 0
    && (forall i :: 0 <= i < |roots| - 1 ==> Round(kind, u, bBulk, roots[i], paths[i], roots[i + 1], paths[i + 1]))
    && Steady(u, roots[|roots| - 1], paths[|paths| - 1])
  }

  /** The loop leads from one tree and page to another. */
  ghost predicate Reaches(kind: Kind, u: nat, bBulk: bool, root: Node, path: Path, root': Node, path': Path) {
    exists roots: seq<Node>, paths: seq<Path> :: LeadsTo(kind, u, bBulk, roots, paths, root, path, root', path')
  }

  ghost predicate LeadsTo(kind: Kind, u: nat, bBulk: bool, roots: seq<Node>, paths: seq<Path>, root: Node, path: Path, root': Node, path': Path) {
    && Rounds(kind, u, bBulk, roots, paths)
    && roots[0] == root && paths[0] == path && roots[|roots| - 1] == root' && paths[|paths| - 1] == path'
  }

  /** Where the loop ends nothing needs balancing, and it does nothing else before where it starts does not either. */
  lemma ReachesSteady(kind: Kind, u: nat, bBulk: bool, root: Node, path: Path, root': Node, path': Path)
    requires Reaches(kind, u, bBulk, root, path, root', path')
    ensures Steady(u, root', path')
    ensures if Steady(u, root, path) then root' == root && path' == path
            else exists r: Node, q: Path :: Round(kind, u, bBulk, root, path, r, q) && Reaches(kind, u, bBulk, r, q, root', path')
  {
    hide Round, Steady;
    var roots: seq<Node>, paths: seq<Path> :| LeadsTo(kind, u, bBulk, roots, paths, root, path, root', path');
    if |roots| > 1 {
      assert Round(kind, u, bBulk, roots[0], paths[0], roots[1], paths[1]);
      RoundNotSteady(kind, u, bBulk, roots[0], paths[0], roots[1], paths[1]);
      var r, q := roots[1..], paths[1..];
      assert Rounds(kind, u, bBulk, r, q) by {
        forall i | 0 <= i < |r| - 1 ensures Round(kind, u, bBulk, r[i], q[i], r[i + 1], q[i + 1]) {
          assert Round(kind, u, bBulk, roots[i + 1], paths[i + 1], roots[i + 2], paths[i + 2]);
        }
      }
      assert LeadsTo(kind, u, bBulk, r, q, roots[1], paths[1], root', path');
    }
  }

  lemma RoundNotSteady(kind: Kind, u: nat, bBulk: bool, root: Node, path: Path, root': Node, path': Path)
    requires Round(kind, u, bBulk, root, path, root', path')
    ensures !Steady(u, root, path)
  {
  }

  /** A page that is more than two thirds free and not overfull is spread with its neighbours on as few pages as hold their cells. */
  lemma UnderfullSpread(kind: Kind, u: nat, bBulk: bool, root: Node, path: Path, root': Node, path': Path)
    requires Round(kind, u, bBulk, root, path, root', path') && path != [] && ValidPath(root, path) && At(root, path).nOv == 0 && OvflInRange(At(root, path))
    ensures NFree(u, At(root, path)) > u * 2 / 3 && path' == path[..|path| - 1] && ValidPath(root, path')
    ensures exists p: Node :: NeighboursSpread(kind, u, bBulk, At(root, path'), path[|path| - 1], path' == [], p) && root' == SetAt(root, path', p)
  {
    hide NeighboursSpread, QuickAs;
    var q, i := path[..|path| - 1], path[|path| - 1];
    var p: Node :| ParentChanged(kind, u, bBulk, root, path, p, root');
    PathPush(root, q, i);
    assert path == q + [i];
    assert !Appended(kind, At(root, q), i);
  }

  /** Where one page can hold all cells of the siblings, one page is left. */
  lemma OnePage(kind: Kind, u: nat, bBulk: bool, old_: seq<Node>, oldDivs: seq<Cell>, sibs: seq<Node>, divs: seq<Cell>)
    requires LeastSpread(kind, u, bBulk, old_, oldDivs, sibs, divs) && |old_| == |oldDivs| + 1
    requires var leaf := old_[0].leaf; Used(leaf, Join(kind.Table? && leaf, CellsOf(old_), oldDivs)) <= Room(u, leaf)
    ensures |sibs| == 1 && divs == [] && sibs[0].cells == Join(kind.Table? && old_[0].leaf, CellsOf(old_), oldDivs)
  {
    hide Join, CellsOf, KidsOf, NoEmptyPage, Evened, Partition, Sizes, Used;
    var cnt: seq<nat> :| SpreadAt(kind, u, bBulk, old_, oldDivs, cnt, sibs, divs);
    var leaf := old_[0].leaf;
    var all := Join(kind.Table? && leaf, CellsOf(old_), oldDivs);
    WholePage(leaf, kind.Table? && leaf, all, Room(u, leaf));
    assert CutPage(leaf, kind.Table? && leaf, all, if leaf then [] else KidsOf(old_), cnt, 0, sibs[0]);
  }

  lemma WholePage(leaf: bool, leafData: bool, all: seq<Cell>, room: nat)
    requires Used(leaf, all) <= room
    ensures var w: seq<nat> := [|all|]; Partition(Sizes(leaf, all), room, leafData, w) && |w| == 1
  {
    var w: seq<nat> := [|all|];
    assert PageFitsAt(Sizes(leaf, all), room, leafData, w, 0);
  }

  lemma RoundMade(kind: Kind, u: nat, bBulk: bool, root: Node, path: Path, p: Node)
    requires path != [] && ValidPath(root, path) && ValidPath(root, path[..|path| - 1]) && OvflInRange(At(root, path))
    requires At(root, path).nOv > 0 || NFree(u, At(root, path)) > u * 2 / 3
    requires ChildBalanced(kind, u, bBulk, At(root, path[..|path| - 1]), path[|path| - 1], |path| == 1, p)
    ensures Round(kind, u, bBulk, root, path, SetAt(root, path[..|path| - 1], p), path[..|path| - 1])
  {
    hide ChildBalanced;
    assert ParentChanged(kind, u, bBulk, root, path, p, SetAt(root, path[..|path| - 1], p));
  }

  lemma DeepRound(kind: Kind, u: nat, bBulk: bool, root: Node, root': Node)
    requires root.nOv > 0 && exists pgno: nat :: Grown(root, root', pgno)
    ensures Round(kind, u, bBulk, root, [], root', [0])
  {
  }

  /** One round more. */
  lemma RoundsMore(kind: Kind, u: nat, bBulk: bool, roots: seq<Node>, paths: seq<Path>, root: Node, path: Path)
    requires |roots| == |paths| > 0 && forall i :: 0 <= i < |roots| - 1 ==> Round(kind, u, bBulk, roots[i], paths[i], roots[i + 1], paths[i + 1])
    requires Round(kind, u, bBulk, roots[|roots| - 1], paths[|paths| - 1], root, path)
    ensures var r, q := roots + [root], paths + [path];
      forall i :: 0 <= i < |r| - 1 ==> Round(kind, u, bBulk, r[i], q[i], r[i + 1], q[i + 1])
  {
    hide Round;
  }
}
