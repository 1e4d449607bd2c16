/** Pages reached from the root by a path of child indexes, and replacing one of them. */
module BtreePath {
  import opened Arith
  import opened BtreeNode
  import opened BtreeShape

  type Path = seq<nat>

  ghost predicate ValidPath(n: Node, path: Path)
    decreases path
  {
    path != [] ==>
      && !n.leaf && |n.kids| == |n.cells| + 1 && path[0] < |n.kids|
      && ValidPath(n.kids[path[0]], path[1..])
  }

  function At(n: Node, path: Path): Node
    requires ValidPath(n, path)
    decreases path
  {
    if path == [] then n else At(n.kids[path[0]], path[1..])
  }

  function SetAt(n: Node, path: Path, m: Node): Node
    requires ValidPath(n, path)
    decreases path
  {
    if path == [] then m else n.(kids := n.kids[path[0] := SetAt(n.kids[path[0]], path[1..], m)])
  }

  /** A path that goes one level further down. */
  lemma {:induction false} PathPush(n: Node, path: Path, i: nat)
    requires ValidPath(n, path)
    ensures var p := At(n, path);
            (!p.leaf && |p.kids| == |p.cells| + 1 && i < |p.kids|) <==> ValidPath(n, path + [i])
    ensures ValidPath(n, path + [i]) ==> At(n, path + [i]) == At(n, path).kids[i]
    decreases path
  {
    if path == [] {
      assert ([] + [i])[1..] == [];
    } else {
      PathPush(n.kids[path[0]], path[1..], i);
      assert (path + [i])[1..] == path[1..] + [i];
    }
  }

  lemma {:induction false} PathPrefix(n: Node, path: Path, d: nat)
    requires ValidPath(n, path) && d <= |path|
    ensures ValidPath(n, path[..d])
    ensures ValidPath(At(n, path[..d]), path[d..]) && At(At(n, path[..d]), path[d..]) == At(n, path)
    decreases path
  {
    if d == 0 {
      assert path[0..] == path;
    } else {
      PathPrefix(n.kids[path[0]], path[1..], d - 1);
      assert path[..d][1..] == path[1..][..d - 1];
      assert path[d..] == path[1..][d - 1..];
    }
  }

  lemma {:induction false} SetAtValid(n: Node, path: Path, m: Node)
    requires ValidPath(n, path)
    ensures ValidPath(SetAt(n, path, m), path) && At(SetAt(n, path, m), path) == m
    decreases path
  {
    if path != [] { SetAtValid(n.kids[path[0]], path[1..], m); }
  }

  // ----- the walk around a page -----

  function PreAt(kind: Kind, n: Node, path: Path): seq<Item>
    requires ValidPath(n, path)
    decreases path
  {
    if path == [] then []
    else WeaveLeft(kind, n.cells[..path[0]], Walks(kind, n.kids[..path[0]])) + PreAt(kind, n.kids[path[0]], path[1..])
  }

  function PostAt(kind: Kind, n: Node, path: Path): seq<Item>
    requires ValidPath(n, path)
    decreases path
  {
    if path == [] then []
    else PostAt(kind, n.kids[path[0]], path[1..]) + WeaveRight(kind, n.cells[path[0]..], Walks(kind, n.kids[path[0] + 1..]))
  }

  /** A child's walk is a stretch of its parent's. */
  lemma WalkChild(kind: Kind, n: Node, i: nat)
    requires !n.leaf && |n.kids| == |n.cells| + 1 && i < |n.kids|
    ensures Walk(kind, n) == WeaveLeft(kind, n.cells[..i], Walks(kind, n.kids[..i])) + Walk(kind, n.kids[i])
                             + WeaveRight(kind, n.cells[i..], Walks(kind, n.kids[i + 1..]))
  {
    var kl, kr := n.kids[..i], n.kids[i + 1..];
    SplitThree(n.kids, i);
    SplitAt(n.cells, i);
    WalksAppend(kind, kl + [n.kids[i]], kr);
    WalksAppend(kind, kl, [n.kids[i]]);
    WalksOne(kind, n.kids[i]);
    WeaveMiddle(kind, n.cells[..i], Walks(kind, kl), [], [Walk(kind, n.kids[i])], n.cells[i..], Walks(kind, kr));
    Assoc(n.cells[..i], [], n.cells[i..]);
    assert n.cells[..i] + [] == n.cells[..i];
  }

  lemma WalksOne(kind: Kind, n: Node)
    ensures Walks(kind, [n]) == [Walk(kind, n)]
  {
  }

  lemma SplitThree<T>(s: seq<T>, i: nat)
    requires i < |s|
    ensures s[..i] + [s[i]] + s[i + 1..] == s
  {
  }

  /** The walk of a tree is the walk of any of its pages with what lies left and right of it. */
  lemma {:induction false} WalkAt(kind: Kind, n: Node, path: Path)
    requires ValidPath(n, path)
    ensures Walk(kind, n) == PreAt(kind, n, path) + Walk(kind, At(n, path)) + PostAt(kind, n, path)
    decreases path
  {
    if path != [] {
      WalkAt(kind, n.kids[path[0]], path[1..]);
      WalkChild(kind, n, path[0]);
      Nest(WeaveLeft(kind, n.cells[..path[0]], Walks(kind, n.kids[..path[0]])), PreAt(kind, n.kids[path[0]], path[1..]),
           Walk(kind, At(n, path)), PostAt(kind, n.kids[path[0]], path[1..]),
           WeaveRight(kind, n.cells[path[0]..], Walks(kind, n.kids[path[0] + 1..])));
    }
  }

  lemma Nest<T>(a: seq<T>, b: seq<T>, c: seq<T>, d: seq<T>, e: seq<T>)
    ensures a + (b + c + d) + e == (a + b) + c + (d + e)
  {
  }

  /** Replacing a page leaves what lies around it alone. */
  lemma {:induction false} SetAtAround(kind: Kind, n: Node, path: Path, m: Node)
    requires ValidPath(n, path)
    ensures ValidPath(SetAt(n, path, m), path)
    ensures PreAt(kind, SetAt(n, path, m), path) == PreAt(kind, n, path)
    ensures PostAt(kind, SetAt(n, path, m), path) == PostAt(kind, n, path)
    decreases path
  {
    if path != [] {
      SetAtAround(kind, n.kids[path[0]], path[1..], m);
      UpdateAround(n.kids, path[0], SetAt(n.kids[path[0]], path[1..], m));
    }
  }

  lemma UpdateAround<T>(s: seq<T>, i: nat, x: T)
    requires i < |s|
    ensures s[i := x][..i] == s[..i] && s[i := x][i + 1..] == s[i + 1..] && s[i := x][i] == x
  {
  }

  /** The walk of a tree in which one page has been replaced. */
  lemma WalkSetAt(kind: Kind, n: Node, path: Path, m: Node)
    requires ValidPath(n, path)
    ensures Walk(kind, SetAt(n, path, m)) == PreAt(kind, n, path) + Walk(kind, m) + PostAt(kind, n, path)
  {
    SetAtValid(n, path, m);
    SetAtAround(kind, n, path, m);
    WalkAt(kind, SetAt(n, path, m), path);
  }

  // ----- the page numbers of a tree -----

  function PagesOf(n: Node): multiset<nat> { multiset{n.pgno} + PagesOfAll(n.kids) }

  function PagesOfAll(kids: seq<Node>): multiset<nat> {
    if kids == [] then multiset{} else PagesOf(kids[0]) + PagesOfAll(kids[1..])
  }

  lemma {:induction false} PagesAppend(a: seq<Node>, b: seq<Node>)
    ensures PagesOfAll(a + b) == PagesOfAll(a) + PagesOfAll(b)
    decreases |a|
  {
    if a == [] {
      assert a + b == b;
    } else {
      PagesAppend(a[1..], b);
      ConsAppend(a, b);
      BagAssoc(PagesOf(a[0]), PagesOfAll(a[1..]), PagesOfAll(b));
    }
  }

  lemma ConsAppend<T>(a: seq<T>, b: seq<T>)
    requires a != []
    ensures (a + b)[0] == a[0] && (a + b)[1..] == a[1..] + b
  {
  }

  lemma BagExchange(r: multiset<nat>, all: multiset<nat>, all': multiset<nat>, s: multiset<nat>, s': multiset<nat>,
                    old_: multiset<nat>, new_: multiset<nat>)
    requires s' + old_ == s + new_ && all' + s == all + s'
    ensures (r + all') + old_ == (r + all) + new_
  {
    forall p | p in multiset{p} ensures ((r + all') + old_)[p] == ((r + all) + new_)[p] {
      assert (s' + old_)[p] == (s + new_)[p] && (all' + s)[p] == (all + s')[p];
    }
  }

  lemma PagesUpdate(kids: seq<Node>, i: nat, m: Node)
    requires i < |kids|
    ensures PagesOfAll(kids[i := m]) + PagesOf(kids[i]) == PagesOfAll(kids) + PagesOf(m)
  {
    UpdateAround(kids, i, m);
    SplitThree(kids, i);
    SplitThree(kids[i := m], i);
    PagesAppend(kids[..i] + [kids[i]], kids[i + 1..]);
    PagesAppend(kids[..i], [kids[i]]);
    PagesAppend(kids[..i] + [m], kids[i + 1..]);
    PagesAppend(kids[..i], [m]);
    assert PagesOfAll([m]) == PagesOf(m) && PagesOfAll([kids[i]]) == PagesOf(kids[i]);
  }

  lemma {:induction false} PagesSetAt(n: Node, path: Path, m: Node)
    requires ValidPath(n, path)
    ensures PagesOf(SetAt(n, path, m)) + PagesOf(At(n, path)) == PagesOf(n) + PagesOf(m)
    decreases path
  {
    if path != [] {
      PagesSetAt(n.kids[path[0]], path[1..], m);
      var k, k' := n.kids[path[0]], SetAt(n.kids[path[0]], path[1..], m);
      PagesUpdate(n.kids, path[0], k');
      BagExchange(multiset{n.pgno}, PagesOfAll(n.kids), PagesOfAll(n.kids[path[0] := k']), PagesOf(k), PagesOf(k'),
                  PagesOf(At(n, path)), PagesOf(m));
    }
  }

  lemma {:induction false} PagesAt(n: Node, path: Path)
    requires ValidPath(n, path)
    ensures PagesOf(At(n, path)) <= PagesOf(n)
    decreases path
  {
    if path != [] {
      PagesAt(n.kids[path[0]], path[1..]);
      PagesKid(n.kids, path[0]);
    }
  }

  lemma {:induction false} PagesKid(kids: seq<Node>, i: nat)
    requires i < |kids|
    ensures PagesOf(kids[i]) <= PagesOfAll(kids)
    decreases |kids|
  {
    if i > 0 { PagesKid(kids[1..], i - 1); }
  }
}
