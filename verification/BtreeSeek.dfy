/** Where a key belongs in the walk of a tree, and how walk positions change as a cursor moves between pages. */
module BtreeSeek {
  import opened BtreeNode
  import opened BtreeShape
  import opened BtreePath
  import opened BtreeRank

  // ----- the place of a key in a walk -----

  predicate Less(x: Item, k: Key) { x.cell.key < k }

  /** A divider repeats the largest key on its left, so one equal to k lies beyond k. */
  predicate More(x: Item, k: Key) { k < x.cell.key || (k == x.cell.key && x.Div?) }

  /** Only the items lo .. hi-1 remain to be compared with k. */
  ghost predicate Bounds(w: seq<Item>, lo: nat, hi: nat, k: Key) {
    && hi <= |w| && lo <= |w|
    && (forall i :: 0 <= i < lo ==> Less(w[i], k))
    && (forall i :: hi <= i < |w| ==> More(w[i], k))
  }

  lemma RaiseLower(w: seq<Item>, lo: nat, hi: nat, r: nat, k: Key)
    requires Sorted(w) && Bounds(w, lo, hi, k) && r < |w| && Less(w[r], k)
    ensures Bounds(w, r + 1, hi, k)
  {
    forall i | 0 <= i < r ensures Less(w[i], k) { assert Before(w[i], w[r]); }
  }

  lemma DropUpper(w: seq<Item>, lo: nat, hi: nat, r: nat, k: Key)
    requires Sorted(w) && Bounds(w, lo, hi, k) && r < |w| && More(w[r], k)
    ensures Bounds(w, lo, r, k)
  {
    forall i | r < i < |w| ensures More(w[i], k) { assert Before(w[r], w[i]); }
  }

  lemma NoBounds(w: seq<Item>, k: Key)
    ensures Bounds(w, 0, |w|, k)
  {
  }

  /** The first p entries are smaller than k, the others larger. */
  ghost predicate Gap(e: seq<Cell>, p: nat, k: Key) {
    p <= |e| && (forall i :: 0 <= i < p ==> e[i].key < k) && (forall i :: p <= i < |e| ==> k < e[i].key)
  }

  lemma GapInEntries(w: seq<Item>, r: nat, k: Key)
    requires Bounds(w, r, r, k)
    ensures Gap(Entries(w), |Entries(w[..r])|, k)
  {
    var e, p := Entries(w), |Entries(w[..r])|;
    SplitAt(w, r);
    EntriesAppend(w[..r], w[r..]);
    forall i | 0 <= i < p ensures e[i].key < k {
      var j := EntryOrigin(w[..r], i);
      assert Less(w[j], k);
    }
    forall i | p <= i < |e| ensures k < e[i].key {
      var j := EntryOrigin(w[r..], i - p);
      assert w[r..][j] == w[r + j] && More(w[r + j], k);
    }
  }

  lemma EntriesStep(w: seq<Item>, r: nat)
    requires r < |w|
    ensures |Entries(w[..r + 1])| == |Entries(w[..r])| + if w[r].Ent? then 1 else 0
  {
    assert w[..r + 1][..r] == w[..r];
  }

  lemma EntriesEnds(w: seq<Item>, r: nat)
    requires r <= |w|
    ensures |Entries(w[..r])| <= |Entries(w)|
    ensures w[..|w|] == w && w[..0] == []
  {
    SplitAt(w, r);
    EntriesAppend(w[..r], w[r..]);
  }

  // ----- moving between pages -----

  /** Items of the walk up to the end of a page's subtree. */
  function EndOf(kind: Kind, n: Node, path: Path): nat
    requires ValidPath(n, path)
  {
    |PreAt(kind, n, path)| + |Walk(kind, At(n, path))|
  }

  lemma EndInWalk(kind: Kind, n: Node, path: Path)
    requires ValidPath(n, path)
    ensures EndOf(kind, n, path) <= |Walk(kind, n)|
    ensures path == [] ==> PreAt(kind, n, path) == [] && EndOf(kind, n, path) == |Walk(kind, n)|
  {
    WalkAt(kind, n, path);
  }

  lemma Edges(kind: Kind, n: Node, path: Path)
    requires ValidPath(n, path) && Shaped(At(n, path))
    ensures Start(kind, n, path, 0) == |PreAt(kind, n, path)|
    ensures Rank(kind, n, path, |At(n, path).cells|) == EndOf(kind, n, path)
  {
    LocalItem(kind, At(n, path), |At(n, path).cells|);
  }

  lemma LeafRank(kind: Kind, n: Node, path: Path, i: nat)
    requires ValidPath(n, path) && Shaped(At(n, path)) && i <= |At(n, path).cells| && At(n, path).leaf
    ensures Rank(kind, n, path, i) == Start(kind, n, path, i)
    ensures i > 0 ==> Rank(kind, n, path, i) == Rank(kind, n, path, i - 1) + 1
  {
  }

  lemma NextCell(kind: Kind, n: Node, path: Path, i: nat)
    requires ValidPath(n, path) && Shaped(At(n, path)) && i < |At(n, path).cells|
    ensures Start(kind, n, path, i + 1) == Rank(kind, n, path, i) + 1
  {
    NextStart(kind, At(n, path), i);
  }

  lemma Child(kind: Kind, n: Node, path: Path, i: nat)
    requires ValidPath(n, path) && Shaped(At(n, path)) && i <= |At(n, path).cells| && !At(n, path).leaf
    ensures ValidPath(n, path + [i]) && At(n, path + [i]) == At(n, path).kids[i]
    ensures |PreAt(kind, n, path + [i])| == Start(kind, n, path, i)
    ensures EndOf(kind, n, path + [i]) == Rank(kind, n, path, i)
  {
    PathPush(n, path, i);
    ChildSpan(kind, n, path, i);
  }

  lemma Parent(kind: Kind, n: Node, path: Path)
    requires ValidPath(n, path) && path != []
    ensures var q, j := path[..|path| - 1], path[|path| - 1];
      && ValidPath(n, q) && !At(n, q).leaf && Shaped(At(n, q)) && j <= |At(n, q).cells| && At(n, path) == At(n, q).kids[j]
      && |PreAt(kind, n, path)| == Start(kind, n, q, j)
      && EndOf(kind, n, path) == Rank(kind, n, q, j)
  {
    hide Walk, PreAt, At, Start, Rank, EndOf;
    var q, j := path[..|path| - 1], path[|path| - 1];
    PathPrefix(n, path, |path| - 1);
    assert path == q + [j];
    PathPush(n, q, j);
    Child(kind, n, q, j);
  }

  /** The pages of a sound tree: leaves at one depth, only the root may be empty. */
  lemma {:induction false} PageIn(kind: Kind, u: nat, n: Node, h: nat, path: Path)
    requires RootOk(kind, u, n, h) && ValidPath(n, path)
    ensures Shaped(At(n, path)) && At(n, path).nOv == 0 && |path| <= h && (At(n, path).leaf <==> |path| == h)
    ensures path != [] ==> At(n, path).cells != []
    ensures !n.leaf && n.cells == [] ==> n.pgno == 1
  {
    if path != [] {
      assert TreeOk(kind, u, n.kids[path[0]], h - 1);
      PageInTree(kind, u, n.kids[path[0]], h - 1, path[1..]);
    }
  }

  lemma {:induction false} PageInTree(kind: Kind, u: nat, n: Node, h: nat, path: Path)
    requires TreeOk(kind, u, n, h) && ValidPath(n, path)
    ensures |path| <= h && TreeOk(kind, u, At(n, path), h - |path|)
    decreases path
  {
    if path != [] { PageInTree(kind, u, n.kids[path[0]], h - 1, path[1..]); }
  }

  /** The last cell of the last leaf under the child left of cell ix: the entry just before that cell. */
  ghost predicate DownBefore(kind: Kind, n: Node, path: Path, ix: nat, path': Path, ix': nat) {
    && ValidPath(n, path) && Shaped(At(n, path)) && ix <= |At(n, path).cells|
    && path + [ix] <= path'
    && ValidPath(n, path') && At(n, path').leaf && Shaped(At(n, path')) && ix' + 1 == |At(n, path').cells|
    && Rank(kind, n, path', ix') + 1 == Rank(kind, n, path, ix)
  }

  // ----- counting page by page -----

  /** Entries among the cells of one page. */
  function Own(kind: Kind, page: Node): nat {
    if kind.Index? || page.leaf then |page.cells| else 0
  }

  /** Entries right of a place that lie on its page or on the pages above it. */
  function Pending(kind: Kind, n: Node, path: Path, ix: nat): int
    requires ValidPath(n, path)
    decreases path
  {
    if path == [] then (if kind.Index? || n.leaf then |n.cells| - ix else 0)
    else (if kind.Index? then |n.cells| - path[0] else 0) + Pending(kind, n.kids[path[0]], path[1..], ix)
  }

  lemma {:induction false} PendingChild(kind: Kind, n: Node, path: Path, i: nat, ix: nat)
    requires ValidPath(n, path) && ValidPath(n, path + [i])
    requires !At(n, path).leaf
    ensures Pending(kind, n, path + [i], ix)
            == Pending(kind, n, path, i) + if kind.Index? || At(n, path + [i]).leaf then |At(n, path + [i]).cells| - ix else 0
    decreases path
  {
    if path == [] {
      assert ([] + [i])[1..] == [];
    } else {
      assert (path + [i])[1..] == path[1..] + [i];
      PendingChild(kind, n.kids[path[0]], path[1..], i, ix);
    }
  }

  lemma {:induction false} PendingStep(kind: Kind, n: Node, path: Path, ix: nat)
    requires ValidPath(n, path)
    ensures Pending(kind, n, path, ix + 1) == Pending(kind, n, path, ix) - if kind.Index? || At(n, path).leaf then 1 else 0
    decreases path
  {
    if path != [] { PendingStep(kind, n.kids[path[0]], path[1..], ix); }
  }

  lemma LeafEntries(kind: Kind, n: Node, path: Path)
    requires ValidPath(n, path) && At(n, path).leaf
    ensures EndOf(kind, n, path) <= |Walk(kind, n)|
    ensures |Entries(Walk(kind, n)[..EndOf(kind, n, path)])|
            == |Entries(Walk(kind, n)[..|PreAt(kind, n, path)|])| + |At(n, path).cells|
  {
    hide PreAt, PostAt;
    WalkAt(kind, n, path);
    EntriesAppend(PreAt(kind, n, path), Walk(kind, At(n, path)));
    EntriesOfEnts(At(n, path).cells);
    PrefixOfSum(PreAt(kind, n, path), Walk(kind, At(n, path)), PostAt(kind, n, path));
  }

  lemma PrefixOfSum<T>(a: seq<T>, b: seq<T>, c: seq<T>)
    ensures (a + b + c)[..|a|] == a && (a + b + c)[..|a| + |b|] == a + b
  {
  }
}
