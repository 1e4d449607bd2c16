/** Putting a cell into a tree, replacing one, taking one out: the walk, the entries and the map they stand for. */
module BtreeEdit {
  import opened BtreeNode
  import opened BtreeShape
  import opened BtreePath
  import opened BtreeRank
  import opened BtreeSeek
  import opened BtreeRebalance
  import opened BtreeBalance
  import opened BtreeAlong
  import opened BtreeStep

  // ----- sequences -----

  /** a with the elements from p up to q replaced by b. */
  function Put<T>(a: seq<T>, p: nat, q: nat, b: seq<T>): seq<T>
    requires p <= q <= |a|
  {
    a[..p] + b + a[q..]
  }

  lemma PutMiddle<T>(a: seq<T>, b: seq<T>, c: seq<T>, p: nat, q: nat, d: seq<T>)
    requires p <= q <= |b|
    ensures a + Put(b, p, q, d) + c == Put(a + b + c, |a| + p, |a| + q, d)
  {
  }

  // ----- walks -----

  lemma WalkPut(kind: Kind, n: Node, path: Path, m: Node, p: nat, q: nat, d: seq<Item>)
    requires ValidPath(n, path) && p <= q <= |Walk(kind, At(n, path))| && Walk(kind, m) == Put(Walk(kind, At(n, path)), p, q, d)
    ensures |PreAt(kind, n, path)| + q <= |Walk(kind, n)|
    ensures Walk(kind, SetAt(n, path, m)) == Put(Walk(kind, n), |PreAt(kind, n, path)| + p, |PreAt(kind, n, path)| + q, d)
  {
    hide Walk, PreAt, PostAt, At, SetAt, Put;
    WalkAt(kind, n, path);
    WalkSetAt(kind, n, path, m);
    PutMiddle(PreAt(kind, n, path), Walk(kind, At(n, path)), PostAt(kind, n, path), p, q, d);
  }

  lemma EntsPut(cells: seq<Cell>, p: nat, q: nat, d: seq<Cell>)
    requires p <= q <= |cells|
    ensures Ents(Put(cells, p, q, d)) == Put(Ents(cells), p, q, Ents(d))
  {
  }

  /** Replacing cells p .. q-1 of a leaf. */
  lemma LeafPut(kind: Kind, n: Node, path: Path, m: Node, p: nat, q: nat, d: seq<Cell>)
    requires ValidPath(n, path) && At(n, path).leaf && m.leaf && p <= q <= |At(n, path).cells|
    requires m.cells == Put(At(n, path).cells, p, q, d)
    ensures |PreAt(kind, n, path)| + q <= |Walk(kind, n)|
    ensures Walk(kind, SetAt(n, path, m)) == Put(Walk(kind, n), |PreAt(kind, n, path)| + p, |PreAt(kind, n, path)| + q, Ents(d))
  {
    hide PreAt, At, SetAt, Put;
    EntsPut(At(n, path).cells, p, q, d);
    WalkPut(kind, n, path, m, p, q, Ents(d));
  }

  /** Replacing cell i of an interior page. */
  lemma MidPut(kind: Kind, n: Node, path: Path, m: Node, i: nat, c: Cell)
    requires ValidPath(n, path) && !At(n, path).leaf && Shaped(At(n, path)) && i < |At(n, path).cells|
    requires !m.leaf && m.kids == At(n, path).kids && m.cells == Put(At(n, path).cells, i, i + 1, [c])
    ensures Rank(kind, n, path, i) < |Walk(kind, n)|
    ensures Walk(kind, SetAt(n, path, m))
            == Put(Walk(kind, n), Rank(kind, n, path, i), Rank(kind, n, path, i) + 1, [Mid(kind, c)])
  {
    hide PreAt, At, SetAt;
    var page := At(n, path);
    RankItem(kind, n, path, i);
    PageMidPut(kind, page, m, i, c);
    WalkPut(kind, n, path, m, LocalRank(kind, page, i), LocalRank(kind, page, i) + 1, [Mid(kind, c)]);
  }

  lemma PageMidPut(kind: Kind, page: Node, m: Node, i: nat, c: Cell)
    requires !page.leaf && Shaped(page) && i < |page.cells|
    requires !m.leaf && m.kids == page.kids && m.cells == Put(page.cells, i, i + 1, [c])
    ensures LocalRank(kind, page, i) < |Walk(kind, page)|
    ensures Walk(kind, m) == Put(Walk(kind, page), LocalRank(kind, page, i), LocalRank(kind, page, i) + 1, [Mid(kind, c)])
  {
    hide Weave, WeaveLeft, Walks, Walk;
    var ks := Walks(kind, page.kids[i + 1..]);
    WalkChild(kind, page, i);
    WalkChild(kind, m, i);
    PutSlices(page.cells, i, c);
    RightOf(kind, page.cells, i, ks);
    RightOf(kind, m.cells, i, ks);
    PutAfter(WeaveLeft(kind, page.cells[..i], Walks(kind, page.kids[..i])), Walk(kind, page.kids[i]),
             Mid(kind, page.cells[i]), Weave(kind, page.cells[i + 1..], ks), Mid(kind, c));
  }

  lemma PutSlices<T>(s: seq<T>, i: nat, c: T)
    requires i < |s|
    ensures var s' := Put(s, i, i + 1, [c]); |s'| == |s| && s'[..i] == s[..i] && s'[i] == c && s'[i + 1..] == s[i + 1..]
  {
  }

  lemma RightOf(kind: Kind, cells: seq<Cell>, i: nat, ks: seq<seq<Item>>)
    requires i < |cells|
    ensures WeaveRight(kind, cells[i..], ks) == [Mid(kind, cells[i])] + Weave(kind, cells[i + 1..], ks)
  {
    assert cells[i..][1..] == cells[i + 1..];
  }

  lemma PutAfter<T>(a: seq<T>, b: seq<T>, x: T, e: seq<T>, y: T)
    ensures a + b + ([y] + e) == Put(a + b + ([x] + e), |a| + |b|, |a| + |b| + 1, [y])
  {
  }

  // ----- entries and order -----

  lemma Thirds<T>(w: seq<T>, p: nat, q: nat)
    requires p <= q <= |w|
    ensures w == w[..p] + w[p..q] + w[q..] && w[..q] == w[..p] + w[p..q]
  {
  }

  lemma PutThird<T>(a: seq<T>, m: seq<T>, b: seq<T>, d: seq<T>)
    ensures Put(a + m + b, |a|, |a| + |m|, d) == a + d + b
  {
  }

  lemma EntriesPut(w: seq<Item>, p: nat, q: nat, d: seq<Item>)
    requires p <= q <= |w|
    ensures |Entries(w[..p])| <= |Entries(w[..q])| <= |Entries(w)|
    ensures Entries(Put(w, p, q, d)) == Put(Entries(w), |Entries(w[..p])|, |Entries(w[..q])|, Entries(d))
  {
    hide Entries;
    EntriesAround(w[..p], d, w[q..]);
    EntriesAround(w[..p], w[p..q], w[q..]);
    Thirds(w, p, q);
    EntriesAppend(w[..p], w[p..q]);
    PutThird(Entries(w[..p]), Entries(w[p..q]), Entries(w[q..]), Entries(d));
  }

  lemma EntriesOne(c: Cell)
    ensures Entries([Ent(c)]) == [c]
  {
    assert [Ent(c)][..0] == [];
  }

  lemma SortedInsert(w: seq<Item>, r: nat, c: Cell)
    requires Sorted(w) && Bounds(w, r, r, c.key)
    ensures Sorted(Put(w, r, r, [Ent(c)]))
  {
    assert w == w[..r] + w[r..];
    SortedConcat(w[..r], w[r..]);
    SortedConcat(w[..r], [Ent(c)]);
    SortedConcat(w[..r] + [Ent(c)], w[r..]);
  }

  lemma SortedSame(w: seq<Item>, r: nat, c: Cell)
    requires Sorted(w) && r < |w| && w[r].Ent? && w[r].cell.key == c.key
    ensures Sorted(Put(w, r, r + 1, [Ent(c)]))
  {
    var v := Put(w, r, r + 1, [Ent(c)]);
    forall i, j | 0 <= i < j < |v| ensures Before(v[i], v[j]) { assert Before(w[i], w[j]); }
  }

  lemma SortedWithout(w: seq<Item>, p: nat, q: nat)
    requires Sorted(w) && p <= q <= |w|
    ensures Sorted(Put(w, p, q, []))
  {
    var v := Put(w, p, q, []);
    forall i, j | 0 <= i < j < |v| ensures Before(v[i], v[j]) {
      assert Before(w[if i < p then i else i + q - p], w[if j < p then j else j + q - p]);
    }
  }

  // ----- the map -----

  lemma {:induction false} MapAppend(a: seq<Cell>, b: seq<Cell>)
    ensures MapOf(a + b) == MapOf(a) + MapOf(b)
    decreases |b|
  {
    if b == [] {
      assert a + b == a;
    } else {
      MapAppend(a, b[..|b| - 1]);
      assert (a + b)[..|a + b| - 1] == a + b[..|b| - 1];
    }
  }

  lemma MapOne(c: Cell)
    ensures MapOf([c]) == map[c.key := c.data]
  {
    assert [c][..0] == [];
  }

  lemma {:induction false} MapMissing(e: seq<Cell>, k: Key)
    requires forall i :: 0 <= i < |e| ==> e[i].key != k
    ensures k !in MapOf(e)
    decreases |e|
  {
    if e != [] { MapMissing(e[..|e| - 1], k); }
  }

  lemma MapAround(a: seq<Cell>, c: Cell, b: seq<Cell>)
    requires forall i :: 0 <= i < |b| ==> b[i].key != c.key
    ensures MapOf(a + [c] + b) == (MapOf(a) + MapOf(b))[c.key := c.data]
  {
    MapAppend(a + [c], b);
    MapAppend(a, [c]);
    MapOne(c);
    MapMissing(b, c.key);
  }

  /** Every entry is found under its key. */
  lemma MapLookup(e: seq<Cell>, p: nat)
    requires Increasing(e) && p < |e|
    ensures e[p].key in MapOf(e) && MapOf(e)[e[p].key] == e[p].data
  {
    SplitThree(e, p);
    MapAround(e[..p], e[p], e[p + 1..]);
  }

  /** Storing under a key that was missing. */
  lemma MapInsert(e: seq<Cell>, p: nat, c: Cell)
    requires Gap(e, p, c.key)
    ensures MapOf(Put(e, p, p, [c])) == MapOf(e)[c.key := c.data]
    ensures c.key !in MapOf(e)
  {
    MapAround(e[..p], c, e[p..]);
    SplitAt(e, p);
    MapAppend(e[..p], e[p..]);
    MapMissing(e, c.key);
  }

  /** Storing under a key that was there. */
  lemma MapReplace(e: seq<Cell>, p: nat, c: Cell)
    requires Increasing(e) && p < |e| && e[p].key == c.key
    ensures MapOf(Put(e, p, p + 1, [c])) == MapOf(e)[c.key := c.data]
  {
    SplitThree(e, p);
    MapAround(e[..p], c, e[p + 1..]);
    MapAround(e[..p], e[p], e[p + 1..]);
    MapAgain(MapOf(e[..p]) + MapOf(e[p + 1..]), c.key, e[p].data, c.data);
  }

  lemma MapAgain(m: map<Key, Data>, k: Key, d: Data, d': Data)
    ensures m[k := d][k := d'] == m[k := d']
  {
  }

  /** Removing a key. */
  lemma MapRemove(e: seq<Cell>, p: nat)
    requires Increasing(e) && p < |e|
    ensures MapOf(Put(e, p, p + 1, [])) == MapOf(e) - {e[p].key}
  {
    SplitThree(e, p);
    assert Put(e, p, p + 1, []) == e[..p] + e[p + 1..];
    MapAround(e[..p], e[p], e[p + 1..]);
    MapAppend(e[..p], e[p + 1..]);
    MapMissing(e[..p], e[p].key);
    MapMissing(e[p + 1..], e[p].key);
    MapWithout(MapOf(e[..p]) + MapOf(e[p + 1..]), e[p].key, e[p].data);
  }

  lemma MapWithout(m: map<Key, Data>, k: Key, d: Data)
    requires k !in m
    ensures m[k := d] - {k} == m
  {
  }

  // ----- one page of a sound tree replaced -----

  lemma SamePages(n: Node, path: Path, m: Node)
    requires ValidPath(n, path) && m.kids == At(n, path).kids && m.pgno == At(n, path).pgno
    ensures PagesOf(SetAt(n, path, m)) == PagesOf(n)
  {
    PagesSetAt(n, path, m);
    assert PagesOf(m) == PagesOf(At(n, path));
    BagCancel(PagesOf(SetAt(n, path, m)), PagesOf(n), PagesOf(m));
  }

  lemma BagCancel(a: multiset<nat>, b: multiset<nat>, c: multiset<nat>)
    requires a + c == b + c
    ensures a == b
  {
    forall p | p in multiset{p} ensures a[p] == b[p] { assert (a + c)[p] == (b + c)[p]; }
  }

  /** The page m may take the place of a page of a sound tree until the tree is balanced. */
  ghost predicate Edits(kind: Kind, u: nat, page: Node, m: Node, isRoot: bool) {
    && m.kids == page.kids && m.leaf == page.leaf && m.pgno == page.pgno && PageFits(kind, u, m, 1)
    && (m.leaf || m.cells != [])
    && (m.nOv > 0 && m.nOv == |m.cells| ==> isRoot && m.pgno == 1)
  }

  lemma PageOf(kind: Kind, u: nat, root: Node, h: nat, path: Path)
    requires RootOk(kind, u, root, h) && ValidPath(root, path)
    ensures |path| <= h && EndOk(kind, u, At(root, path), h - |path|, path == [])
    ensures PageFits(kind, u, At(root, path), 0)
    ensures path != [] ==> At(root, path).pgno > 1 && At(root, path).cells != []
  {
    RootAlong(kind, u, root, h, path);
    AlongEnd(kind, u, root, h, path, -1, true);
    PageIn(kind, u, root, h, path);
  }

  lemma EditedState(kind: Kind, u: nat, root: Node, h: nat, path: Path, m: Node)
    requires RootOk(kind, u, root, h) && ValidPath(root, path) && Edits(kind, u, At(root, path), m, path == [])
    ensures BalanceState(kind, u, SetAt(root, path, m), h, path, -1) && At(SetAt(root, path, m), path) == m
    ensures PagesOf(SetAt(root, path, m)) == PagesOf(root)
  {
    hide PageFits, ForestOk, OthersOk, PagesOf;
    RootAlong(kind, u, root, h, path);
    PageOf(kind, u, root, h, path);
    EditedEnd(kind, u, At(root, path), h - |path|, m, path == []);
    SetAtValid(root, path, m);
    SamePages(root, path, m);
    if path != [] {
      AlongReplace(kind, u, root, h, path, -1, true, |path|, m);
      assert path[..|path|] == path;
      SetAtTop(root, path, m);
    }
  }

  lemma EditedEnd(kind: Kind, u: nat, page: Node, h: nat, m: Node, isRoot: bool)
    requires EndOk(kind, u, page, h, isRoot) && Edits(kind, u, page, m, isRoot)
    ensures EndOk(kind, u, m, h, isRoot)
  {
  }

  /** An edited page without overflow that is not empty leaves the tree sound. */
  lemma EditedSound(kind: Kind, u: nat, root: Node, h: nat, path: Path)
    requires BalanceState(kind, u, root, h, path, -1) && At(root, path).nOv == 0 && (path != [] ==> At(root, path).cells != [])
    ensures RootOk(kind, u, root, h)
  {
    AlongDone(kind, u, root, h, path, -1, true);
  }

  lemma RoomOnEmpty(kind: Kind, u: nat, n: Node, c: Cell)
    requires u >= MIN_USABLE && n.cells == [] && n.nOv == 0 && n.pgno != 1 && OvflInRange(n) && GoodCell(kind, u, n.leaf, c)
    requires n.lost <= MayLose(kind, u, n.leaf)
    ensures Size(n.leaf, c) + (if kind.Index? then 5 else 2) <= NFree(u, n)
  {
    OnPageAll(n);
    assert Sizes(n.leaf, n.cells) == [];
  }

  /** A leaf with one more cell. */
  lemma InsertEdits(kind: Kind, u: nat, page: Node, i: nat, c: Cell, isRoot: bool)
    requires u >= MIN_USABLE && PageFits(kind, u, page, 0) && page.leaf && i <= |page.cells| && GoodCell(kind, u, true, c)
    requires page.cells == [] ==> isRoot
    ensures var m := InsertCell(u, page, i, c, Size(true, c));
            Edits(kind, u, page, m, isRoot) && m.cells == Put(page.cells, i, i, [c])
  {
    InsertFits(kind, u, page, i, c, 0);
    if page.cells == [] && page.pgno != 1 { RoomOnEmpty(kind, u, page, c); }
  }

  /** Reserving more bytes than the cell takes does no harm. */
  lemma InsertFreeWide(u: nat, n: Node, i: nat, c: Cell, sz: nat)
    requires OvflInRange(n) && n.nOv == 0 && i <= |n.cells| && NFree(u, n) >= 0 && Size(n.leaf, c) <= sz
    ensures var n' := InsertCell(u, n, i, c, sz); OvflInRange(n') && NFree(u, n') >= 0
  {
    hide OnPage;
    InsertOnPage(u, n, i, c, sz);
    OnPageAll(n);
    SplitAt(n.cells, i);
    UsedWithCell(n.leaf, n.cells[..i], c, n.cells[i..]);
  }

  /** A page with a cell replaced: the old one dropped, the new one put in its place.  A cell that moves up from a leaf of an
      index may be given up to 3 bytes more than it takes. */
  lemma ReplaceEdits(kind: Kind, u: nat, page: Node, i: nat, c: Cell, sz: nat, isRoot: bool)
    requires u >= MIN_USABLE && PageFits(kind, u, page, 0) && i < |page.cells| && GoodCell(kind, u, page.leaf, c)
    requires !isRoot ==> page.pgno > 1
    requires Size(page.leaf, c) <= sz && (sz == Size(page.leaf, c) || (kind.Index? && sz <= Size(page.leaf, c) + 3))
    requires page.lost + sz - Size(page.leaf, c) <= MayLose(kind, u, page.leaf)
    ensures OvflInRange(DropCell(page, i))
    ensures var m := InsertCell(u, DropCell(page, i), i, c, sz);
            Edits(kind, u, page, m, isRoot) && m.cells == Put(page.cells, i, i + 1, [c]) && (m.nOv == 1 ==> m.ovAt == i)
  {
    hide GoodCell, NFree, OnPage, Size;
    var d := DropCell(page, i);
    DropFree(u, page, i);
    DropSlices(page.cells, i);
    GoodDropped(kind, u, page.leaf, page.cells, i);
    InsertFreeWide(u, d, i, c, sz);
    InsertGood(kind, u, page.leaf, d.cells, i, c);
    if |page.cells| == 1 && page.pgno != 1 { RoomOnEmpty(kind, u, d, c); }
  }

  lemma GoodDropped(kind: Kind, u: nat, leaf: bool, cells: seq<Cell>, i: nat)
    requires GoodCells(kind, u, leaf, cells) && i < |cells|
    ensures GoodCells(kind, u, leaf, cells[..i] + cells[i + 1..])
  {
  }

  lemma DropSlices<T>(s: seq<T>, i: nat)
    requires i < |s|
    ensures var s' := s[..i] + s[i + 1..]; s'[..i] == s[..i] && s'[i..] == s[i + 1..]
  {
  }

  /** A leaf with one cell fewer. */
  lemma DropEdits(kind: Kind, u: nat, page: Node, i: nat, isRoot: bool)
    requires PageFits(kind, u, page, 0) && page.leaf && i < |page.cells|
    ensures var m := DropCell(page, i); Edits(kind, u, page, m, isRoot) && m.cells == Put(page.cells, i, i + 1, [])
  {
    DropFree(u, page, i);
    assert DropCell(page, i).cells == Put(page.cells, i, i + 1, []);
  }

  // ----- storing an entry -----

  /** The page with a new cell in place i, or with the cell in place i replaced. */
  function WithCell(u: nat, page: Node, i: nat, c: Cell, found: bool): Node
    requires OvflInRange(page) && if found then i < |page.cells| && page.nOv == 0 && OvflInRange(DropCell(page, i)) else i <= |page.cells|
  {
    InsertCell(u, if found then DropCell(page, i) else page, i, c, Size(page.leaf, c))
  }

  lemma WithCellEdits(kind: Kind, u: nat, page: Node, i: nat, c: Cell, found: bool, isRoot: bool)
    requires u >= MIN_USABLE && PageFits(kind, u, page, 0) && GoodCell(kind, u, true, c)
    requires if found then i < |page.cells| && (kind.Index? || page.leaf) else i <= |page.cells| && page.leaf
    requires !isRoot ==> page.pgno > 1 && page.cells != []
    ensures found ==> OvflInRange(DropCell(page, i))
    ensures var m := WithCell(u, page, i, c, found);
            Edits(kind, u, page, m, isRoot) && m.cells == Put(page.cells, i, if found then i + 1 else i, [c])
  {
    if found { ReplaceEdits(kind, u, page, i, c, Size(page.leaf, c), isRoot); } else { InsertEdits(kind, u, page, i, c, isRoot); }
  }

  /** Where the new cell goes: onto the entry with its key, or into the gap where its key belongs. */
  ghost predicate Target(kind: Kind, n: Node, path: Path, i: nat, k: Key, found: bool) {
    && ValidPath(n, path) && Shaped(At(n, path))
    && (if found then i < |At(n, path).cells| && (kind.Index? || At(n, path).leaf) && At(n, path).cells[i].key == k
        else At(n, path).leaf && i <= |At(n, path).cells|
             && Bounds(Walk(kind, n), Rank(kind, n, path, i), Rank(kind, n, path, i), k))
  }

  lemma RankInWalk(kind: Kind, n: Node, path: Path, i: nat)
    requires ValidPath(n, path) && Shaped(At(n, path)) && i <= |At(n, path).cells|
    ensures Rank(kind, n, path, i) <= |Walk(kind, n)|
  {
    LocalItem(kind, At(n, path), i);
    WalkAt(kind, n, path);
  }

  /** The walk of the tree with the cell stored in its page. */
  lemma WalkWithCell(kind: Kind, n: Node, path: Path, i: nat, c: Cell, found: bool, m: Node)
    requires Target(kind, n, path, i, c.key, found)
    requires m.leaf == At(n, path).leaf && m.kids == At(n, path).kids
    requires m.cells == Put(At(n, path).cells, i, if found then i + 1 else i, [c])
    ensures var r := Rank(kind, n, path, i);
      && r + (if found then 1 else 0) <= |Walk(kind, n)|
      && (found ==> Walk(kind, n)[r] == Ent(At(n, path).cells[i]))
      && Walk(kind, SetAt(n, path, m)) == Put(Walk(kind, n), r, if found then r + 1 else r, [Ent(c)])
  {
    hide Walk, PreAt, SetAt, At, Put, Sorted, Bounds;
    if found { RankItem(kind, n, path, i); }
    if At(n, path).leaf {
      LeafRank(kind, n, path, i);
      assert Ents([c]) == [Ent(c)];
      LeafPut(kind, n, path, m, i, if found then i + 1 else i, [c]);
    } else {
      MidPut(kind, n, path, m, i, c);
    }
  }

  /** The entries with c stored: in place p, over the one with its key if there is one. */
  ghost predicate Stored(e: seq<Cell>, e': seq<Cell>, p: nat, c: Cell, found: bool) {
    && p + (if found then 1 else 0) <= |e| && e' == Put(e, p, if found then p + 1 else p, [c])
    && (found <==> c.key in MapOf(e))
    && MapOf(e') == MapOf(e)[c.key := c.data]
  }

  lemma StoredInWalk(w: seq<Item>, r: nat, c: Cell, found: bool)
    requires Sorted(w) && r <= |w|
    requires if found then r < |w| && w[r].Ent? && w[r].cell.key == c.key else Bounds(w, r, r, c.key)
    ensures var w' := Put(w, r, if found then r + 1 else r, [Ent(c)]);
      Sorted(w') && Stored(Entries(w), Entries(w'), |Entries(w[..r])|, c, found)
  {
    hide Sorted, Put, Entries, MapOf, Bounds, Gap, Increasing;
    EntriesPut(w, r, if found then r + 1 else r, [Ent(c)]);
    EntriesOne(c);
    SortedEntries(w);
    if found {
      SortedSame(w, r, c);
      EntryAt(w, r);
      EntriesStep(w, r);
      MapReplace(Entries(w), |Entries(w[..r])|, c);
      MapLookup(Entries(w), |Entries(w[..r])|);
    } else {
      SortedInsert(w, r, c);
      GapInEntries(w, r, c.key);
      MapInsert(Entries(w), |Entries(w[..r])|, c);
    }
  }

  /** The place i on the page at path names the cell c, as far into the walk as it was. */
  ghost predicate PlaceKept(kind: Kind, n: Node, n': Node, path: Path, i: nat, c: Cell, found: bool) {
    && ValidPath(n, path) && Shaped(At(n, path)) && i <= |At(n, path).cells|
    && ValidPath(n', path) && Shaped(At(n', path)) && i < |At(n', path).cells| && At(n', path).cells[i] == c
    && At(n', path).leaf == At(n, path).leaf
    && Rank(kind, n', path, i) == Rank(kind, n, path, i)
    && |Walk(kind, n')| == |Walk(kind, n)| + if found then 0 else 1
  }

  lemma PlaceAfter(kind: Kind, n: Node, path: Path, i: nat, c: Cell, found: bool, m: Node)
    requires Target(kind, n, path, i, c.key, found)
    requires m.leaf == At(n, path).leaf && m.kids == At(n, path).kids
    requires m.cells == Put(At(n, path).cells, i, if found then i + 1 else i, [c])
    ensures PlaceKept(kind, n, SetAt(n, path, m), path, i, c, found)
  {
    SetAtValid(n, path, m);
    SetAtAround(kind, n, path, m);
    WalkWithCell(kind, n, path, i, c, found, m);
    PutPrefix(At(n, path).cells, i, if found then i + 1 else i, c);
    hide Walk, Weave, WeaveLeft, PreAt, Put;
  }

  lemma PutPrefix<T>(s: seq<T>, p: nat, q: nat, c: T)
    requires p <= q <= |s|
    ensures var s' := Put(s, p, q, [c]); |s'| == |s| + 1 - (q - p) && s'[..p] == s[..p] && s'[p] == c
  {
  }

  /** The tree right after the cell has been put into its page. */
  lemma TreeWithCell(kind: Kind, u: nat, root: Node, h: nat, path: Path, i: nat, c: Cell, found: bool)
    requires u >= MIN_USABLE && RootOk(kind, u, root, h) && Sorted(Walk(kind, root)) && GoodCell(kind, u, true, c)
    requires Target(kind, root, path, i, c.key, found)
    ensures var page := At(root, path);
            OvflInRange(page) && page.nOv == 0 && (found ==> OvflInRange(DropCell(page, i)))
    ensures Rank(kind, root, path, i) <= |Walk(kind, root)|
    ensures var root' := SetAt(root, path, WithCell(u, At(root, path), i, c, found));
      && BalanceState(kind, u, root', h, path, -1) && PagesOf(root') == PagesOf(root)
      && Sorted(Walk(kind, root'))
      && Stored(Entries(Walk(kind, root)), Entries(Walk(kind, root')), |Entries(Walk(kind, root)[..Rank(kind, root, path, i)])|, c, found)
      && (At(root', path).nOv == 0 ==> RootOk(kind, u, root', h))
      && PlaceKept(kind, root, root', path, i, c, found)
      && At(root', path) == WithCell(u, At(root, path), i, c, found)
  {
    hide PlaceKept, Edits, Shaped, WithCell, Walk, Rank, GoodCells, NFree, RootOk, Sorted, Bounds, Put, PagesOf, BalanceState, Stored, GoodCell;
    PageOf(kind, u, root, h, path);
    WithCellEdits(kind, u, At(root, path), i, c, found, path == []);
    var m := WithCell(u, At(root, path), i, c, found);
    EditedState(kind, u, root, h, path, m);
    WalkWithCell(kind, root, path, i, c, found, m);
    PlaceAfter(kind, root, path, i, c, found, m);
    RankInWalk(kind, root, path, i);
    StoredInWalk(Walk(kind, root), Rank(kind, root, path, i), c, found);
    if m.nOv == 0 {
      assert m.cells != [] by { PutNotEmpty(At(root, path).cells, i, if found then i + 1 else i, c); }
      EditedSound(kind, u, SetAt(root, path, m), h, path);
    }
  }

  lemma PutNotEmpty<T>(s: seq<T>, p: nat, q: nat, c: T)
    requires p <= q <= |s|
    ensures Put(s, p, q, [c]) != []
  {
  }

  // ----- removing an entry -----

  /** The entries without entry p. */
  ghost predicate Removed(e: seq<Cell>, e': seq<Cell>, p: nat) {
    p < |e| && e' == Put(e, p, p + 1, []) && e[p].key in MapOf(e) && MapOf(e') == MapOf(e) - {e[p].key}
  }

  lemma RemovedInWalk(w: seq<Item>, r: nat)
    requires Sorted(w) && r < |w| && w[r].Ent?
    ensures var w' := Put(w, r, r + 1, []); Sorted(w') && Removed(Entries(w), Entries(w'), |Entries(w[..r])|)
  {
    hide Sorted, Put, MapOf, Increasing;
    EntriesPut(w, r, r + 1, []);
    SortedEntries(w);
    SortedWithout(w, r, r + 1);
    EntryAt(w, r);
    EntriesStep(w, r);
    MapRemove(Entries(w), |Entries(w[..r])|);
    MapLookup(Entries(w), |Entries(w[..r])|);
  }

  lemma WalkWithout(kind: Kind, n: Node, path: Path, i: nat)
    requires ValidPath(n, path) && At(n, path).leaf && At(n, path).nOv == 0 && Shaped(At(n, path)) && i < |At(n, path).cells|
    ensures var r, n' := Rank(kind, n, path, i), SetAt(n, path, DropCell(At(n, path), i));
            r < |Walk(kind, n)| && Walk(kind, n)[r] == Ent(At(n, path).cells[i]) && Walk(kind, n') == Put(Walk(kind, n), r, r + 1, [])
  {
    hide Walk, PreAt, SetAt, At;
    RankItem(kind, n, path, i);
    LeafRank(kind, n, path, i);
    var m := DropCell(At(n, path), i);
    assert m.cells == Put(At(n, path).cells, i, i + 1, []);
    assert Ents([]) == [];
    LeafPut(kind, n, path, m, i, i + 1, []);
  }

  /** The tree right after a cell has been taken off a leaf. */
  lemma TreeWithout(kind: Kind, u: nat, root: Node, h: nat, path: Path, i: nat)
    requires RootOk(kind, u, root, h) && Sorted(Walk(kind, root))
    requires ValidPath(root, path) && Shaped(At(root, path)) && At(root, path).leaf && i < |At(root, path).cells|
    ensures At(root, path).nOv == 0 && Rank(kind, root, path, i) < |Walk(kind, root)|
    ensures var root' := SetAt(root, path, DropCell(At(root, path), i));
      && BalanceState(kind, u, root', h, path, -1) && PagesOf(root') == PagesOf(root) && Sorted(Walk(kind, root'))
      && At(root', path).nOv == 0
      && Removed(Entries(Walk(kind, root)), Entries(Walk(kind, root')), |Entries(Walk(kind, root)[..Rank(kind, root, path, i)])|)
  {
    hide Walk, Rank, Edits, RootOk, Sorted, Put, PagesOf, BalanceState, Removed, NFree, GoodCells;
    PageOf(kind, u, root, h, path);
    DropEdits(kind, u, At(root, path), i, path == []);
    EditedState(kind, u, root, h, path, DropCell(At(root, path), i));
    WalkWithout(kind, root, path, i);
    RemovedInWalk(Walk(kind, root), Rank(kind, root, path, i));
  }
}
