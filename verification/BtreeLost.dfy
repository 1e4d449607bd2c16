/** How many bytes the pages of a tree have lost. */
module BtreeLost {
  import opened BtreeNode
  import opened BtreePath
  import opened BtreeSiblings

  /** No page of the tree has lost more than k bytes. */
  ghost predicate LostAtMost(n: Node, k: nat) {
    n.lost <= k && forall i :: 0 <= i < |n.kids| ==> LostAtMost(n.kids[i], k)
  }

  ghost predicate EachLost(kids: seq<Node>, k: nat) {
    forall i :: 0 <= i < |kids| ==> LostAtMost(kids[i], k)
  }

  /** Nothing more is lost in b than in a. */
  ghost predicate KeepsLost(a: Node, b: Node) {
    forall k: nat :: LostAtMost(a, k) ==> LostAtMost(b, k)
  }

  ghost predicate EachKeeps(a: seq<Node>, b: seq<Node>) {
    forall k: nat :: EachLost(a, k) ==> EachLost(b, k)
  }

  lemma KeepsTrans(a: Node, b: Node, c: Node)
    requires KeepsLost(a, b) && KeepsLost(b, c)
    ensures KeepsLost(a, c)
  {
  }

  lemma KeepsUse(a: Node, b: Node, k: nat)
    requires KeepsLost(a, b) && LostAtMost(a, k)
    ensures LostAtMost(b, k)
  {
  }

  lemma {:induction false} LostMore(n: Node, k: nat, k': nat)
    requires LostAtMost(n, k) && k <= k'
    ensures LostAtMost(n, k')
    decreases n
  {
    forall i | 0 <= i < |n.kids| ensures LostAtMost(n.kids[i], k') { LostMore(n.kids[i], k, k'); }
  }

  lemma {:induction false} LostAt(n: Node, path: Path, k: nat)
    requires ValidPath(n, path) && LostAtMost(n, k)
    ensures LostAtMost(At(n, path), k)
    decreases path
  {
    if path != [] { LostAt(n.kids[path[0]], path[1..], k); }
  }

  lemma {:induction false} LostSetAt(n: Node, path: Path, m: Node, k: nat)
    requires ValidPath(n, path) && LostAtMost(n, k) && LostAtMost(m, k)
    ensures LostAtMost(SetAt(n, path, m), k)
    decreases path
  {
    if path != [] { LostSetAt(n.kids[path[0]], path[1..], m, k); }
  }

  /** A page replaced by one that loses nothing. */
  lemma KeepsSetAt(n: Node, path: Path, m: Node)
    requires ValidPath(n, path) && KeepsLost(At(n, path), m)
    ensures KeepsLost(n, SetAt(n, path, m))
  {
    forall k: nat | LostAtMost(n, k) ensures LostAtMost(SetAt(n, path, m), k) {
      LostAt(n, path, k);
      LostSetAt(n, path, m, k);
    }
  }

  lemma {:induction false} LostKidsOf(sibs: seq<Node>, k: nat)
    requires EachLost(sibs, k)
    ensures EachLost(KidsOf(sibs), k)
    decreases |sibs|
  {
    if sibs != [] {
      LostKidsOf(sibs[1..], k);
      assert LostAtMost(sibs[0], k);
    }
  }

  /** New siblings have lost nothing, and their children are the old ones. */
  lemma CutKeeps(leaf: bool, leafData: bool, old_: seq<Node>, all: seq<Cell>, kids: seq<Node>, cnt: seq<nat>, sibs: seq<Node>, divs: seq<Cell>)
    requires kids == (if leaf then [] else KidsOf(old_)) && IsCut(leaf, leafData, all, kids, cnt, sibs, divs)
    ensures EachKeeps(old_, sibs)
  {
    forall k: nat | EachLost(old_, k) ensures EachLost(sibs, k) {
      LostKidsOf(old_, k);
      forall i | 0 <= i < |sibs| ensures LostAtMost(sibs[i], k) {
        assert CutPage(leaf, leafData, all, kids, cnt, i, sibs[i]);
      }
    }
  }

  /** A run of children replaced. */
  lemma RunKeeps(parent: Node, p: Node, f: nat, n: nat, sibs: seq<Node>)
    requires f + n <= |parent.kids| && p.lost <= parent.lost && p.kids == parent.kids[..f] + sibs + parent.kids[f + n..]
    requires EachKeeps(parent.kids[f..f + n], sibs)
    ensures KeepsLost(parent, p)
  {
    forall k: nat | LostAtMost(parent, k) ensures LostAtMost(p, k) {
      assert EachLost(parent.kids[f..f + n], k);
    }
  }

  /** The same children under a page that has lost no more. */
  lemma SameKidsKeeps(a: Node, b: Node)
    requires b.kids == a.kids && b.lost <= a.lost
    ensures KeepsLost(a, b)
  {
  }

  lemma OnlyChildKeeps(parent: Node, child: Node, p: Node)
    requires parent.kids == [child] && p.kids == child.kids && p.lost == child.lost
    ensures KeepsLost(parent, p)
  {
    forall k: nat | LostAtMost(parent, k) ensures LostAtMost(p, k) {
      assert LostAtMost(parent.kids[0], k);
    }
  }

  lemma NewRootKeeps(root: Node, child: Node, p: Node)
    requires p.kids == [child] && child.kids == root.kids && child.lost == root.lost && p.lost == 0
    ensures KeepsLost(root, p)
  {
  }
}
