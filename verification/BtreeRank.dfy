/** Where a cell of a page stands in the walk of the whole tree. */
module BtreeRank {
  import opened BtreeNode
  import opened BtreeShape
  import opened BtreePath

  /** Items of the walk left of child i of a page, or of cell i of a leaf. */
  function LocalStart(kind: Kind, page: Node, i: nat): nat
    requires Shaped(page) && i <= |page.cells|
  {
    if page.leaf then i else |WeaveLeft(kind, page.cells[..i], Walks(kind, page.kids[..i]))|
  }

  /** Items of the walk left of cell i of a page; all of them when i is the number of cells. */
  function LocalRank(kind: Kind, page: Node, i: nat): nat
    requires Shaped(page) && i <= |page.cells|
  {
    LocalStart(kind, page, i) + if page.leaf then 0 else |Walk(kind, page.kids[i])|
  }

  function CellItem(kind: Kind, page: Node, i: nat): Item
    requires i < |page.cells|
  {
    if page.leaf then Ent(page.cells[i]) else Mid(kind, page.cells[i])
  }

  lemma LocalItem(kind: Kind, page: Node, i: nat)
    requires Shaped(page) && i <= |page.cells|
    ensures LocalRank(kind, page, i) <= |Walk(kind, page)|
    ensures if i == |page.cells| then LocalRank(kind, page, i) == |Walk(kind, page)|
            else LocalRank(kind, page, i) < |Walk(kind, page)| && Walk(kind, page)[LocalRank(kind, page, i)] == CellItem(kind, page, i)
  {
    if !page.leaf {
      WalkChild(kind, page, i);
      if i < |page.cells| {
        assert page.cells[i..][0] == page.cells[i];
        assert WeaveRight(kind, page.cells[i..], Walks(kind, page.kids[i + 1..]))[0] == Mid(kind, page.cells[i]);
      }
    }
  }

  /** The next child starts right after the cell that follows this one. */
  lemma NextStart(kind: Kind, page: Node, i: nat)
    requires Shaped(page) && i < |page.cells|
    ensures LocalStart(kind, page, i + 1) == LocalRank(kind, page, i) + 1
    ensures LocalStart(kind, page, 0) == 0
  {
    if !page.leaf {
      var a, ka := page.cells[..i], page.kids[..i];
      assert page.cells[..i + 1] == a + [page.cells[i]];
      assert page.kids[..i + 1] == ka + [page.kids[i]];
      WalksAppend(kind, ka, [page.kids[i]]);
      WalksOne(kind, page.kids[i]);
      WeaveMiddle(kind, a, Walks(kind, ka), [], [Walk(kind, page.kids[i])], [], []);
      assert a + [] + [] == a;
      assert Walks(kind, ka) + [Walk(kind, page.kids[i])] + [] == Walks(kind, page.kids[..i + 1]);
      assert (a + [page.cells[i]])[..i] == a;
    }
  }

  function Start(kind: Kind, n: Node, path: Path, i: nat): nat
    requires ValidPath(n, path) && Shaped(At(n, path)) && i <= |At(n, path).cells|
  {
    |PreAt(kind, n, path)| + LocalStart(kind, At(n, path), i)
  }

  function Rank(kind: Kind, n: Node, path: Path, i: nat): nat
    requires ValidPath(n, path) && Shaped(At(n, path)) && i <= |At(n, path).cells|
  {
    |PreAt(kind, n, path)| + LocalRank(kind, At(n, path), i)
  }

  lemma InMiddle<T>(a: seq<T>, b: seq<T>, c: seq<T>, j: nat)
    requires j < |b|
    ensures (a + b + c)[|a| + j] == b[j]
  {
  }

  /** The cell the path and index name is the item of the walk at its rank. */
  lemma RankItem(kind: Kind, n: Node, path: Path, i: nat)
    requires ValidPath(n, path) && Shaped(At(n, path)) && i < |At(n, path).cells|
    ensures Rank(kind, n, path, i) < |Walk(kind, n)| && Walk(kind, n)[Rank(kind, n, path, i)] == CellItem(kind, At(n, path), i)
  {
    hide Walk, Weave, PreAt, PostAt, At, LocalRank, CellItem;
    WalkAt(kind, n, path);
    LocalItem(kind, At(n, path), i);
    InMiddle(PreAt(kind, n, path), Walk(kind, At(n, path)), PostAt(kind, n, path), LocalRank(kind, At(n, path), i));
  }

  lemma {:induction false} PreAtPush(kind: Kind, n: Node, path: Path, i: nat)
    requires ValidPath(n, path + [i]) && ValidPath(n, path) && Shaped(At(n, path)) && i <= |At(n, path).cells|
    ensures !At(n, path).leaf
    ensures PreAt(kind, n, path + [i])
            == PreAt(kind, n, path) + WeaveLeft(kind, At(n, path).cells[..i], Walks(kind, At(n, path).kids[..i]))
    decreases path
  {
    hide WeaveLeft, Walks;
    if path == [] {
      assert ([] + [i])[1..] == [];
      assert PreAt(kind, n.kids[i], []) == [];
    } else {
      assert (path + [i])[1..] == path[1..] + [i];
      PreAtPush(kind, n.kids[path[0]], path[1..], i);
      Assoc(WeaveLeft(kind, n.cells[..path[0]], Walks(kind, n.kids[..path[0]])), PreAt(kind, n.kids[path[0]], path[1..]),
            WeaveLeft(kind, At(n, path).cells[..i], Walks(kind, At(n, path).kids[..i])));
    }
  }

  /** The walk of child i runs from its start to the cell that follows it. */
  lemma ChildSpan(kind: Kind, n: Node, path: Path, i: nat)
    requires ValidPath(n, path) && ValidPath(n, path + [i]) && Shaped(At(n, path)) && i <= |At(n, path).cells|
    ensures |PreAt(kind, n, path + [i])| == Start(kind, n, path, i)
    ensures |PreAt(kind, n, path + [i])| + |Walk(kind, At(n, path + [i]))| == Rank(kind, n, path, i)
  {
    PreAtPush(kind, n, path, i);
    PathPush(n, path, i);
  }
}
