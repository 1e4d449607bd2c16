/** What a skipNext that is still pending does: a restore that misses its key leaves one, and only Next and Previous take it away. */
module BtreeSkip {
  import opened BtreeNode
  import opened BtreeShape
  import opened BtreePath
  import opened BtreeRank
  import opened BtreeSeek
  import opened BtreeStep
  import opened BtreeRounds
  import opened BtreeLost
  import opened BtreeTree
  import opened BtreeEdit
  import opened BtreeCursor
  import opened BtreeScan

  /** The cursor is on entry p of the tree. */
  ghost predicate On(cur: BtCursor, p: int)
    reads cur, cur.bt
  {
    cur.Ok() && cur.eState.Valid? && Place(cur) == p
  }

  /** Two cursors of one tree that may delete from any page, twice. */
  ghost predicate Pair(cur: BtCursor, del: BtCursor)
    reads cur, del, cur.bt, del.bt
  {
    && cur != del && cur.bt == del.bt && cur.bt.Sound() && cur.Ok() && del.Ok() && !cur.bulk && !del.bulk && del.skipNext == 0
    && (cur.bt.kind.Index? ==> cur.bt.spill + 7 <= MayLose(cur.bt.kind, cur.bt.u, false))
  }

  // ----- a seek and then a step -----

  /** The step after a seek goes on from where the seek ended, unless a skipNext > 0 is pending; then it stays. */
  method SeekThenNext(cur: BtCursor, k: Key, bias: bool) returns (res: int, ghost p: nat)
    requires cur.bt.Sound() && cur.Ok()
    modifies cur
    ensures cur.bt.Contents() == [] ==> cur.eState.Invalid?
    ensures var e := cur.bt.Contents(); e != [] ==>
      && p < |e| && FirstBeyond(e, if res > 0 then p else p + 1, k) && (res == 0 ==> e[p].key == k)
      && if old(cur.skipNext) > 0 then On(cur, p) else if p + 1 < |e| then On(cur, p + 1) else cur.eState.Invalid?
  {
    hide RootOk, Sorted, Walk, Entries, Pos, OnEntry, Rank, FirstBeyond, LastBefore, Sought;
    p := 0;
    res := cur.MovetoUnpacked(k, bias);
    if cur.eState.Valid? {
      SoughtGap(cur.bt.kind, cur.bt.root, cur.path, cur.ix, res, k);
      p := Place(cur);
    } else {
      NothingStored(cur.bt);
    }
    var _ := cur.Next();
  }

  method SeekThenPrevious(cur: BtCursor, k: Key, bias: bool) returns (res: int, ghost p: nat)
    requires cur.bt.Sound() && cur.Ok()
    modifies cur
    ensures cur.bt.Contents() == [] ==> cur.eState.Invalid?
    ensures var e := cur.bt.Contents(); e != [] ==>
      && p < |e| && LastBefore(e, if res < 0 then p else p - 1, k) && (res == 0 ==> e[p].key == k)
      && if old(cur.skipNext) < 0 then On(cur, p) else if p > 0 then On(cur, p - 1) else cur.eState.Invalid?
  {
    hide RootOk, Sorted, Walk, Entries, Pos, OnEntry, Rank, FirstBeyond, LastBefore, Sought;
    p := 0;
    res := cur.MovetoUnpacked(k, bias);
    if cur.eState.Valid? {
      SoughtGap(cur.bt.kind, cur.bt.root, cur.path, cur.ix, res, k);
      p := Place(cur);
    } else {
      NothingStored(cur.bt);
    }
    var _ := cur.Previous();
  }

  lemma NothingStored(bt: Btree)
    requires Walk(bt.kind, bt.root) == []
    ensures bt.Contents() == []
  {
  }

  // ----- how a pending skipNext comes about -----

  /** What is found next to an entry that has been taken out. */
  lemma BesideGap(e: seq<Cell>, e': seq<Cell>, p: nat, q: nat, side: int)
    requires Increasing(e) && Removed(e, e', p) && q < |e'|
    requires FirstBeyond(e', if side > 0 then q else q + 1, e[p].key) && (side == 0 ==> e'[q].key == e[p].key)
    ensures side != 0 && q == if side > 0 then p else p - 1
  {
    var b := if side > 0 then q else q + 1;
    forall i | 0 <= i < |e'| ensures e'[i] == e[if i < p then i else i + 1] {}
    assert b < |e'| ==> e'[b] == e[if b < p then b else b + 1];
    assert p < |e'| ==> e'[p] == e[p + 1];
  }

  lemma SpareSpares(cur: BtCursor)
    requires cur.bt.Sound() && cur.Ok() && cur.eState.Valid? && cur.bt.Spare()
    ensures !At(cur.bt.root, cur.path).leaf ==> Spared(cur.bt.kind, cur.bt.u, cur.bt.root, cur.path, cur.ix)
  {
    hide RootOk, Walk, Pos, MayLose, LostAtMost;
    if cur.bt.kind.Index? {
      LittleLost(cur.bt.kind, cur.bt.u, cur.bt.root, cur.path, cur.ix, cur.bt.spill);
    }
  }

  /** A cursor is saved, another one deletes the entry, and the first is restored: skipNext is pending exactly when anything is left, and
      says on which side of the gap the cursor is. */
  method LoseEntry(cur: BtCursor, del: BtCursor)
    requires Pair(cur, del) && cur.eState.Valid? && del.eState.Valid? && Place(del) == Place(cur)
    modifies cur, del, cur.bt`root, cur.bt`used, cur.bt`height, cur.bt`spill
    ensures cur.bt.Sound() && Removed(old(cur.bt.Contents()), cur.bt.Contents(), old(Place(cur))) && cur.bt.Spare()
    ensures if cur.bt.Contents() == [] then cur.eState.Invalid?
            else cur.skipNext != 0 && On(cur, if cur.skipNext > 0 then old(Place(cur)) else old(Place(cur)) - 1)
  {
    hide RootOk, Sorted, Walk, Entries, Pos, OnEntry, Rank, FirstBeyond, LastBefore, Sought, Removed;
    ghost var e, p := cur.bt.Contents(), Place(cur);
    SortedEntries(Walk(cur.bt.kind, cur.bt.root));
    cur.Save();
    SpareSpares(del);
    var ok, _ := del.Delete();
    cur.Restore();
    if cur.eState.Valid? {
      SoughtGap(cur.bt.kind, cur.bt.root, cur.path, cur.ix, cur.skipNext, cur.savedKey);
      BesideGap(e, cur.bt.Contents(), p, Place(cur), cur.skipNext);
    }
  }

  /** Saving such a cursor again, before it has stepped, forgets what was pending; so the round trip works exactly if nothing was. */
  method SaveAgain(cur: BtCursor)
    requires cur.bt.Sound() && cur.Ok() && cur.eState.Valid?
    modifies cur
    ensures On(cur, old(Place(cur))) && cur.skipNext == 0
  {
    hide RootOk, Sorted, Walk, Entries, Pos, OnEntry, Rank, FirstBeyond, LastBefore, Sought;
    ghost var e, p := cur.bt.Contents(), Place(cur);
    SortedEntries(Walk(cur.bt.kind, cur.bt.root));
    cur.Save();
    cur.Restore();
    if cur.eState.Valid? {
      SoughtGap(cur.bt.kind, cur.bt.root, cur.path, cur.ix, cur.skipNext, cur.savedKey);
      AtKey(e, p, Place(cur), cur.skipNext);
    }
  }

  lemma AtKey(e: seq<Cell>, p: nat, q: nat, side: int)
    requires Increasing(e) && p < |e| && q < |e| && FirstBeyond(e, if side > 0 then q else q + 1, e[p].key)
    requires LastBefore(e, if side < 0 then q else q - 1, e[p].key)
    requires side != 0 ==> Gap(e, if side < 0 then q + 1 else q, e[p].key)
    ensures side == 0 && q == p
  {
  }

  // ----- what it spoils -----

  /** The first entry is lost, and the cursor is saved once more: the entry that came next is passed over. */
  method EntrySkipped(cur: BtCursor, del: BtCursor)
    requires Pair(cur, del) && On(cur, 0) && On(del, 0) && |cur.bt.Contents()| > 2
    modifies cur, del, cur.bt`root, cur.bt`used, cur.bt`height, cur.bt`spill
    ensures cur.bt.Sound() && Removed(old(cur.bt.Contents()), cur.bt.Contents(), 0) && On(cur, 1)
  {
    hide RootOk, Sorted, Walk, Entries, Pos, OnEntry, Rank, FirstBeyond, LastBefore, Sought, MayLose, LostAtMost;
    LoseEntry(cur, del);
    SaveAgain(cur);
    var _ := cur.Next();
  }

  /** The first entry is lost while two or more are stored: the step after First does not move. */
  method FirstStays(cur: BtCursor, del: BtCursor) returns (before: Cell, after: Cell)
    requires Pair(cur, del) && On(cur, 0) && On(del, 0) && |cur.bt.Contents()| > 1
    modifies cur, del, cur.bt`root, cur.bt`used, cur.bt`height, cur.bt`spill
    ensures cur.bt.Sound() && Removed(old(cur.bt.Contents()), cur.bt.Contents(), 0)
    ensures On(cur, 0) && before == after == cur.bt.Contents()[0]
  {
    hide RootOk, Sorted, Walk, Entries, Pos, OnEntry, Rank, FirstBeyond, LastBefore, Sought, MayLose, LostAtMost, Removed;
    LoseEntry(cur, del);
    LeftOver(old(cur.bt.Contents()), cur.bt.Contents(), 0);
    var _ := cur.First();
    before := Fetch(cur);
    var _ := cur.Next();
    after := Fetch(cur);
  }

  /** The last entry is lost: the step back from Last does not move. */
  method LastStays(cur: BtCursor, del: BtCursor) returns (before: Cell, after: Cell)
    requires Pair(cur, del) && |cur.bt.Contents()| > 1
    requires On(cur, |cur.bt.Contents()| - 1) && On(del, |cur.bt.Contents()| - 1)
    modifies cur, del, cur.bt`root, cur.bt`used, cur.bt`height, cur.bt`spill
    ensures cur.bt.Sound() && Removed(old(cur.bt.Contents()), cur.bt.Contents(), |old(cur.bt.Contents())| - 1)
    ensures On(cur, |cur.bt.Contents()| - 1) && before == after == cur.bt.Contents()[|cur.bt.Contents()| - 1]
  {
    hide RootOk, Sorted, Walk, Entries, Pos, OnEntry, Rank, FirstBeyond, LastBefore, Sought, MayLose, LostAtMost;
    LoseEntry(cur, del);
    var _ := cur.Last(0);
    before := Fetch(cur);
    var _ := cur.Previous();
    after := Fetch(cur);
  }

  /** The first entry is lost, and the cursor then seeks: the step after the seek does not move. */
  method SeekStays(cur: BtCursor, del: BtCursor, k: Key) returns (res: int, ghost p: nat)
    requires Pair(cur, del) && On(cur, 0) && On(del, 0) && |cur.bt.Contents()| > 1
    modifies cur, del, cur.bt`root, cur.bt`used, cur.bt`height, cur.bt`spill
    ensures cur.bt.Sound() && Removed(old(cur.bt.Contents()), cur.bt.Contents(), 0)
    ensures On(cur, p) && FirstBeyond(cur.bt.Contents(), if res > 0 then p else p + 1, k)
  {
    hide RootOk, Sorted, Walk, Entries, Pos, OnEntry, Rank, FirstBeyond, LastBefore, Sought, Removed;
    LoseEntry(cur, del);
    LeftOver(old(cur.bt.Contents()), cur.bt.Contents(), 0);
    res, p := SeekThenNext(cur, k, false);
  }

  /** The last entry is lost, and the cursor then seeks an entry and deletes it: that works exactly if the entry is on a leaf. */
  method DeleteStays(cur: BtCursor, del: BtCursor, k: Key) returns (found: bool, ok: bool, leaf: bool)
    requires Pair(cur, del) && |cur.bt.Contents()| > 1
    requires On(cur, |cur.bt.Contents()| - 1) && On(del, |cur.bt.Contents()| - 1)
    modifies cur, del, cur.bt`root, cur.bt`used, cur.bt`height, cur.bt`spill
    ensures cur.bt.Sound() && (found ==> (ok <==> leaf))
    ensures found <==> k in MapOf(old(cur.bt.Contents())) && k != old(cur.bt.Contents()[|cur.bt.Contents()| - 1].key)
    ensures MapOf(cur.bt.Contents()) == MapOf(old(cur.bt.Contents())) - {old(cur.bt.Contents()[|cur.bt.Contents()| - 1].key)} - if found && ok then {k} else {}
  {
    hide RootOk, Sorted, Walk, Entries, Pos, Rank, FirstBeyond, LastBefore, Sought, MapOf;
    ghost var e := cur.bt.Contents();
    LoseEntry(cur, del);
    LeftOver(e, cur.bt.Contents(), |e| - 1);
    var res := cur.MovetoUnpacked(k, false);
    found, ok, leaf := res == 0, false, true;
    if cur.eState.Invalid? { NothingStored(cur.bt); }
    InMap(cur.bt.kind, cur.bt.root, cur.path, cur.ix, res, k);
    if found {
      leaf := At(cur.bt.root, cur.path).leaf;
      SpareSpares(cur);
      ghost var p;
      ok, p := cur.Delete();
    }
  }

  lemma InMap(kind: Kind, n: Node, path: Path, ix: nat, res: int, k: Key)
    requires Sought(kind, n, path, ix, res, k) && Sorted(Walk(kind, n))
    ensures res == 0 <==> k in MapOf(Entries(Walk(kind, n)))
    ensures res == 0 ==> Entries(Walk(kind, n))[Pos(kind, n, path, ix)].key == k
  {
    hide Walk, Rank, Sorted, Bounds, FirstBeyond, LastBefore, MapOf;
    SoughtGap(kind, n, path, ix, res, k);
    SortedEntries(Walk(kind, n));
    if res == 0 { MapLookup(Entries(Walk(kind, n)), Pos(kind, n, path, ix)); } else { MapMissing(Entries(Walk(kind, n)), k); }
  }

  lemma LeftOver(e: seq<Cell>, e': seq<Cell>, p: nat)
    requires Removed(e, e', p)
    ensures |e'| == |e| - 1
  {
  }

  // ----- from an empty index -----

  const EMPTY := Node(2, true, [], [], 0, 0, 0)

  function Small(k: Key): Cell { Cell(k, 1, 100, []) }

  lemma EmptyIndex()
    ensures RootOk(Index, 512, EMPTY, 0) && Walk(Index, EMPTY) == [] && OwnsRest(EMPTY, {2}, {})
  {
  }

  lemma FirstStored(e: seq<Cell>, p: nat, c: Cell, found: bool)
    requires Stored([], e, p, c, found)
    ensures e == [c]
  {
  }

  lemma SecondStored(e: seq<Cell>, p: nat, b: Cell, c: Cell, found: bool)
    requires Stored([b], e, p, c, found) && b.key != c.key
    ensures |e| == 2
  {
    MapOne(b);
  }

  /** An index with two entries. */
  method TwoEntries() returns (bt: Btree)
    ensures fresh(bt) && bt.Sound() && |bt.Contents()| == 2 && bt.u == 512 && bt.spill == 0
  {
    hide RootOk, Sorted, Walk, Entries, OwnsRest, Stored;
    EmptyIndex();
    bt := new Btree(Index, 512, EMPTY, 0, {2}, {}, 0);
    NothingStored(bt);
    var cur := new BtCursor(bt, false);
    ghost var p, found;
    p, found := cur.Insert(Small(1.0), false, 0);
    FirstStored(bt.Contents(), p, Small(1.0), found);
    p, found := cur.Insert(Small(2.0), false, 0);
    SecondStored(bt.Contents(), p, Small(1.0), Small(2.0), found);
  }

  /** Two cursors on its first entry, which one of them deletes: the other one then finds the same entry twice. */
  method FirstTwice() returns (before: Cell, after: Cell)
    ensures before == after
  {
    hide RootOk, Sorted, Walk, Entries, Pos, OnEntry, Rank;
    var bt := TwoEntries();
    var cur := new BtCursor(bt, false);
    var del := new BtCursor(bt, false);
    var _ := cur.First();
    var _ := del.First();
    before, after := FirstStays(cur, del);
  }

  // ----- an entry on an interior page -----

  function Leaf(pgno: nat, keys: seq<Key>): Node {
    Node(pgno, true, seq(|keys|, i requires 0 <= i < |keys| => Small(keys[i])), [], 0, 0, 0)
  }

  function TwoLevels(right: seq<Key>): Node {
    Node(2, false, [Small(2.0)], [Leaf(3, [1.0]), Leaf(4, right)], 0, 0, 0)
  }

  lemma {:induction false} SmallSpan(sz: seq<nat>, n: nat)
    requires n <= |sz| && forall i :: 0 <= i < n ==> sz[i] == 100
    ensures Span(sz, 0, n) == 102 * n
  {
    if n > 0 { SmallSpan(sz, n - 1); }
  }

  lemma LeafOk(pgno: nat, keys: seq<Key>)
    requires 1 <= |keys| <= 3 && pgno > 1
    ensures TreeOk(Index, 512, Leaf(pgno, keys), 0) && NFree(512, Leaf(pgno, keys)) == 504 - 102 * |keys|
  {
    LeafRoom(pgno, keys);
    LeafCells(pgno, keys);
    hide NFree, GoodCells;
  }

  lemma LeafRoom(pgno: nat, keys: seq<Key>)
    requires 1 <= |keys| <= 3 && pgno > 1
    ensures NFree(512, Leaf(pgno, keys)) == 504 - 102 * |keys|
  {
    var n := Leaf(pgno, keys);
    FreeWithoutOverflow(512, n);
    SmallSpan(Sizes(true, n.cells), |keys|);
    hide Span, Sizes;
  }

  lemma LeafCells(pgno: nat, keys: seq<Key>)
    ensures GoodCells(Index, 512, true, Leaf(pgno, keys).cells)
  {
  }

  lemma RootFits(right: seq<Key>)
    ensures PageFits(Index, 512, TwoLevels(right), 0)
  {
    var n := TwoLevels(right);
    assert OnPage(n) == n.cells;
  }

  lemma TwoLevelsWalk(right: seq<Key>)
    ensures Walk(Index, TwoLevels(right)) == [Ent(Small(1.0)), Ent(Small(2.0))] + Ents(Leaf(4, right).cells)
  {
    var n := TwoLevels(right);
    assert Ents(Leaf(3, [1.0]).cells) == [Ent(Small(1.0))];
    var ws := Walks(Index, n.kids);
    assert Weave(Index, [], ws[1..]) == ws[1];
    assert n.cells[1..] == [];
  }

  lemma TwoLevelsPages(right: seq<Key>)
    ensures PagesOf(TwoLevels(right)) == multiset({2, 3, 4} - {})
  {
    var n := TwoLevels(right);
    assert PagesOf(n.kids[0]) == multiset{3} && PagesOf(n.kids[1]) == multiset{4};
    assert PagesOfAll(n.kids[1..]) == PagesOf(n.kids[1]) + PagesOfAll(n.kids[1..][1..]);
    assert {2, 3, 4} - {} == {2, 3, 4};
    assert multiset({2, 3, 4}) == multiset{2, 3, 4};
  }

  lemma TwoLevelsOk(right: seq<Key>)
    requires 1 <= |right| <= 3 && (forall i :: 0 <= i < |right| ==> 2.0 < right[i]) && forall i, j :: 0 <= i < j < |right| ==> right[i] < right[j]
    ensures RootOk(Index, 512, TwoLevels(right), 1) && Sorted(Walk(Index, TwoLevels(right))) && OwnsRest(TwoLevels(right), {2, 3, 4}, {})
    ensures LostAtMost(TwoLevels(right), 0)
  {
    hide PagesOf, Walk, PageFits;
    LeafOk(3, [1.0]);
    LeafOk(4, right);
    RootFits(right);
    TwoLevelsWalk(right);
    TwoLevelsPages(right);
  }

  lemma TwoLevelsContents(right: seq<Key>)
    ensures var e := Entries(Walk(Index, TwoLevels(right)));
      |e| == |right| + 2 && e[0].key == 1.0 && e[1].key == 2.0 && forall i :: 2 <= i < |e| ==> e[i].key == right[i - 2]
  {
    hide Walk;
    TwoLevelsWalk(right);
    EntriesAppend([Ent(Small(1.0)), Ent(Small(2.0))], Ents(Leaf(4, right).cells));
    EntriesOfEnts(Leaf(4, right).cells);
    EntriesOfEnts([Small(1.0), Small(2.0)]);
    assert Ents([Small(1.0), Small(2.0)]) == [Ent(Small(1.0)), Ent(Small(2.0))];
  }

  /** A key beyond all others leaves the cursor before it. */
  lemma BelowKey(e: seq<Cell>, p: nat, side: int, k: Key)
    requires p < |e| && (forall i :: 0 <= i < |e| ==> e[i].key < k)
    requires FirstBeyond(e, if side > 0 then p else p + 1, k) && (side == 0 ==> e[p].key == k)
    ensures side < 0
  {
    assert e[p].key < k;
  }

  /** The entry 2.0 is on the root, and nowhere else. */
  lemma OnRoot(right: seq<Key>, path: Path, ix: nat)
    requires Placed(TwoLevels(right), path, ix) && 2.0 !in right
    ensures At(TwoLevels(right), path).cells[ix].key == 2.0 <==> path == []
  {
    var n := TwoLevels(right);
    if path != [] {
      var kid := n.kids[path[0]];
      assert kid == Leaf(3, [1.0]) || kid == Leaf(4, right);
      assert ValidPath(kid, path[1..]) && path[1..] == [];
    }
  }

  lemma Found(right: seq<Key>, path: Path, ix: nat, res: int)
    requires Sought(Index, TwoLevels(right), path, ix, res, 2.0) && Sorted(Walk(Index, TwoLevels(right)))
    ensures res == 0
  {
    hide TwoLevels, Walk, Entries;
    SortedEntries(Walk(Index, TwoLevels(right)));
    TwoLevelsContents(right);
    InMap(Index, TwoLevels(right), path, ix, res, 2.0);
    MapLookup(Entries(Walk(Index, TwoLevels(right))), 1);
  }

  /** The last entry is on the right leaf. */
  lemma OnRight(right: seq<Key>, path: Path, ix: nat, k: Key)
    requires Placed(TwoLevels(right), path, ix) && 2.0 < k && At(TwoLevels(right), path).cells[ix].key == k
    ensures path == [1] && ix < |right| && right[ix] == k
  {
    var n := TwoLevels(right);
    if path != [] {
      var kid := n.kids[path[0]];
      assert kid == Leaf(3, [1.0]) || kid == Leaf(4, right);
      assert ValidPath(kid, path[1..]) && path[1..] == [];
      assert path == [path[0]];
    }
  }

  /** Taking 5.0 off its leaf leaves that full enough. */
  lemma LastTakenOff()
    ensures TakenOff(TwoLevels([3.0, 4.0, 5.0]), [1], 2, TwoLevels([3.0, 4.0]))
    ensures Steady(512, TwoLevels([3.0, 4.0]), [1])
  {
    var n, n' := TwoLevels([3.0, 4.0, 5.0]), TwoLevels([3.0, 4.0]);
    assert [1][1..] == [];
    assert DropCell(Leaf(4, [3.0, 4.0, 5.0]), 2) == Leaf(4, [3.0, 4.0]) by {
      assert Leaf(4, [3.0, 4.0, 5.0]).cells[..2] + Leaf(4, [3.0, 4.0, 5.0]).cells[3..] == Leaf(4, [3.0, 4.0]).cells;
    }
    assert n.kids[1 := Leaf(4, [3.0, 4.0])] == n'.kids;
    LeafOk(4, [3.0, 4.0]);
  }

  /** Two cursors on the last entry of an index of two levels. */
  method BothOnLast() returns (cur: BtCursor, del: BtCursor)
    ensures fresh(cur) && fresh(del) && fresh(cur.bt) && Pair(cur, del) && cur.bt.root == TwoLevels([3.0, 4.0, 5.0])
    ensures cur.bt.kind == Index && cur.bt.u == 512 && cur.eState.Valid? && del.eState.Valid? && del.path == [1] && del.ix == 2
    ensures cur.bt.Contents()[Place(cur)].key == 5.0
  {
    hide RootOk, Walk, Pos, OnEntry, Rank, Sought, OwnsRest, TwoLevels, Entries, Leaf, Sorted, LostAtMost;
    TwoLevelsOk([3.0, 4.0, 5.0]);
    var bt := new Btree(Index, 512, TwoLevels([3.0, 4.0, 5.0]), 1, {2, 3, 4}, {}, 0);
    cur := new BtCursor(bt, false);
    del := new BtCursor(bt, false);
    TwoLevelsContents([3.0, 4.0, 5.0]);
    var _ := cur.Last(0);
    var _ := del.Last(0);
    var c := Fetch(del);
    CursorPlaced(del);
    OnRight([3.0, 4.0, 5.0], del.path, del.ix, 5.0);
  }

  lemma CursorPlaced(cur: BtCursor)
    requires cur.Ok() && cur.eState.Valid?
    ensures Placed(cur.bt.root, cur.path, cur.ix)
    ensures At(cur.bt.root, cur.path).cells[cur.ix] == cur.bt.Contents()[Place(cur)]
  {
  }

  /** A cursor on the last entry is saved, and another one deletes that entry from its leaf, which stays full enough not to be balanced;
      the first is restored to the entry before. */
  method LastLost() returns (cur: BtCursor)
    ensures fresh(cur) && fresh(cur.bt) && cur.bt.Sound() && cur.bt.kind == Index && cur.bt.root == TwoLevels([3.0, 4.0])
    ensures cur.Ok() && cur.eState.Valid? && cur.skipNext < 0 && !cur.bulk && cur.bt.Spare()
  {
    hide RootOk, Walk, Pos, OnEntry, Rank, Sought, FirstBeyond, LastBefore, OwnsRest, TwoLevels, Entries, Leaf, Sorted, LostAtMost, Steady, TakenOff;
    var del;
    cur, del := BothOnLast();
    LastTakenOff();
    cur.Save();
    assert At(del.bt.root, del.path).leaf by { RightLeaf([3.0, 4.0, 5.0]); }
    var ok, _ := del.Delete();
    cur.Restore();
    TwoLevelsContents([3.0, 4.0]);
    SoughtGap(Index, cur.bt.root, cur.path, cur.ix, cur.skipNext, 5.0);
    BelowKey(cur.bt.Contents(), Place(cur), cur.skipNext, 5.0);
  }

  lemma RightLeaf(right: seq<Key>)
    ensures ValidPath(TwoLevels(right), [1]) && At(TwoLevels(right), [1]).leaf
  {
    assert [1][1..] == [];
  }

  /** Such a cursor seeks an entry of the root and deletes it: the step back to the leaf does not move. */
  method InteriorStays() returns (ok: bool)
    ensures !ok
  {
    hide RootOk, Walk, Pos, Rank, FirstBeyond, LastBefore, TwoLevels, Entries, Sorted;
    var cur := LastLost();
    var res := cur.MovetoUnpacked(2.0, false);
    assert cur.eState.Valid? by { TwoLevelsWalk([3.0, 4.0]); }
    Found([3.0, 4.0], cur.path, cur.ix, res);
    OnRoot([3.0, 4.0], cur.path, cur.ix);
    assert !cur.bt.root.leaf by { TwoLevelsRoot([3.0, 4.0]); }
    SpareSpares(cur);
    ghost var p;
    ok, p := cur.Delete();
  }

  lemma TwoLevelsRoot(right: seq<Key>)
    ensures !TwoLevels(right).leaf
  {
  }
}
