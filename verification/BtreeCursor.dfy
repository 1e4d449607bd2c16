/** Cursors: positions in a tree that seek, step and survive changes to the tree. */
module BtreeCursor {
  import opened BtreeNode
  import opened BtreeShape
  import opened BtreePath
  import opened BtreeRank
  import opened BtreeSeek
  import opened BtreeStep
  import opened BtreeRounds
  import opened BtreeLost
  import opened BtreeTree
  import opened BtreeEdit
  import opened BtreeDelete

  datatype CursorState = Invalid | Valid | RequireSeek

  /** The path and index name a cell. */
  ghost predicate Placed(n: Node, path: Path, ix: nat) {
    ValidPath(n, path) && Shaped(At(n, path)) && ix < |At(n, path).cells|
  }

  /** The cell is an entry, not the divider of an interior table page. */
  ghost predicate OnEntry(kind: Kind, n: Node, path: Path, ix: nat) {
    Placed(n, path, ix) && (kind.Index? || At(n, path).leaf)
  }

  /** Entries left of item r of a walk. */
  function EntriesLeft(w: seq<Item>, r: nat): nat
    requires r <= |w|
  {
    |Entries(w[..r])|
  }

  /** The number of the entry at a place. */
  ghost function Pos(kind: Kind, n: Node, path: Path, ix: nat): (p: nat)
    requires OnEntry(kind, n, path, ix)
    ensures p < |Entries(Walk(kind, n))| && Entries(Walk(kind, n))[p] == At(n, path).cells[ix]
  {
    RankItem(kind, n, path, ix);
    EntryAt(Walk(kind, n), Rank(kind, n, path, ix));
    EntriesLeft(Walk(kind, n), Rank(kind, n, path, ix))
  }

  /** Entries left of a cell, and those up to and including it. */
  ghost function Below(kind: Kind, n: Node, path: Path, ix: nat): nat
    requires Placed(n, path, ix)
  {
    RankItem(kind, n, path, ix);
    EntriesLeft(Walk(kind, n), Rank(kind, n, path, ix))
  }

  ghost function Upto(kind: Kind, n: Node, path: Path, ix: nat): nat
    requires Placed(n, path, ix)
  {
    RankItem(kind, n, path, ix);
    EntriesLeft(Walk(kind, n), Rank(kind, n, path, ix) + 1)
  }

  /** The outcome of a search: on the entry with key k, or on a leaf next to where k belongs. */
  ghost predicate Sought(kind: Kind, n: Node, path: Path, ix: nat, res: int, k: Key) {
    && OnEntry(kind, n, path, ix)
    && if res == 0 then At(n, path).cells[ix].key == k
       else At(n, path).leaf && var r := Rank(kind, n, path, ix) + if res < 0 then 1 else 0; Bounds(Walk(kind, n), r, r, k)
  }

  /** The tree with a cell taken off a page. */
  ghost predicate TakenOff(n: Node, path: Path, ix: nat, n': Node) {
    && ValidPath(n, path) && ix < |At(n, path).cells| && At(n, path).nOv == 0
    && n' == SetAt(n, path, DropCell(At(n, path), ix))
  }

  /** The entry before the one at a place takes 4 bytes or more. */
  ghost predicate LongBefore(kind: Kind, n: Node, path: Path, ix: nat) {
    OnEntry(kind, n, path, ix) && Pos(kind, n, path, ix) > 0 ==> Entries(Walk(kind, n))[Pos(kind, n, path, ix) - 1].body >= 4
  }

  /** The entry before a place can move up without its page losing so much that it would not be balanced if it came to be empty. */
  ghost predicate Spared(kind: Kind, u: nat, n: Node, path: Path, ix: nat) {
    OnEntry(kind, n, path, ix) && Pos(kind, n, path, ix) > 0 ==>
      At(n, path).lost + ShortBy(Entries(Walk(kind, n))[Pos(kind, n, path, ix) - 1]) <= MayLose(kind, u, false)
  }

  /** Where all cells take 4 bytes or more, as in every database file, nothing is ever spared. */
  lemma LongSpared(kind: Kind, u: nat, n: Node, h: nat, path: Path, ix: nat)
    requires u >= MIN_USABLE && RootOk(kind, u, n, h) && LongBefore(kind, n, path, ix) && ValidPath(n, path) && !At(n, path).leaf
    ensures Spared(kind, u, n, path, ix)
  {
    hide RootOk, Walk, Pos;
    PageOf(kind, u, n, h, path);
  }

  lemma LittleLost(kind: Kind, u: nat, n: Node, path: Path, ix: nat, k: nat)
    requires ValidPath(n, path) && LostAtMost(n, k) && k + 4 <= MayLose(kind, u, false)
    ensures Spared(kind, u, n, path, ix)
  {
    hide MayLose, Walk, Pos, LostAtMost;
    LostAt(n, path, k);
    LostHere(At(n, path), k);
  }

  /** The entry before has moved up to the page: what that page has lost. */
  ghost predicate TakenUp(kind: Kind, n: Node, path: Path, ix: nat, n': Node) {
    && OnEntry(kind, n, path, ix) && Pos(kind, n, path, ix) > 0 && ValidPath(n', path)
    && Lifted(At(n, path).lost, At(n', path), Entries(Walk(kind, n))[Pos(kind, n, path, ix) - 1])
  }

  /** The last cell of a leaf has moved up in place of cell ix of a page above it. */
  ghost predicate MovedUp(u: nat, n: Node, path: Path, ix: nat, leaf: Path, n': Node) {
    && path + [ix] <= leaf && ValidPath(n, leaf) && At(n, leaf).leaf && At(n, leaf).cells != [] && At(n, leaf).nOv == 0
    && var i := |At(n, leaf).cells| - 1;
       var c, nL := At(n, leaf).cells[i], SetAt(n, leaf, DropCell(At(n, leaf), i));
       && ValidPath(nL, path) && At(nL, path).nOv == 0 && ix < |At(nL, path).cells| && OvflInRange(DropCell(At(nL, path), ix))
       && n' == SetAt(nL, path, InsertCell(u, DropCell(At(nL, path), ix), ix, c, Size(true, c) + 4))
  }

  /** A cell taken off a leaf, and the tree balanced from there up. */
  ghost predicate LeafBalanced(kind: Kind, u: nat, bBulk: bool, n: Node, path: Path, ix: nat, n': Node) {
    exists m: Node, q: Path :: TakenOff(n, path, ix, m) && Reaches(kind, u, bBulk, m, path, n', q)
  }

  /** A cell moved up, and the tree balanced from its leaf up, and if that ended below the page it moved to, from that page up as well. */
  ghost predicate BothBalanced(kind: Kind, u: nat, bBulk: bool, n: Node, path: Path, ix: nat, n': Node) {
    exists m: Node, leaf: Path, mid: Node, q: Path ::
      && MovedUp(u, n, path, ix, leaf, m) && Reaches(kind, u, bBulk, m, leaf, mid, q)
      && if |q| > |path| then exists q': Path :: Reaches(kind, u, bBulk, mid, path, n', q') else n' == mid
  }

  /** A cell put in, or in place of another, and the tree balanced from there up if it did not fit. */
  ghost predicate CellBalanced(kind: Kind, u: nat, bBulk: bool, n: Node, path: Path, idx: nat, c: Cell, found: bool, n': Node) {
    && ValidPath(n, path) && idx <= |At(n, path).cells| && (found ==> idx < |At(n, path).cells| && At(n, path).nOv == 0)
    && OvflInRange(At(n, path)) && (found ==> OvflInRange(DropCell(At(n, path), idx)))
    && var m := WithCell(u, At(n, path), idx, c, found);
       if m.nOv > 0 then exists q: Path :: Reaches(kind, u, bBulk, SetAt(n, path, m), path, n', q) else n' == SetAt(n, path, m)
  }

  class BtCursor {
    const bt: Btree
    const bulk: bool
    var eState: CursorState
    var path: Path
    var ix: nat
    var atLast: bool
    var validNKey: bool
    var nKey: Key
    var skipNext: int
    var savedKey: Key

    constructor (tree: Btree, bulkLoad: bool)
      ensures bt == tree && bulk == bulkLoad && eState == Invalid && skipNext == 0 && Ok()
    {
      bt, bulk := tree, bulkLoad;
      eState, path, ix, atLast, validNKey, nKey, skipNext, savedKey := Invalid, [], 0, false, false, 0.0, 0, 0.0;
    }

    ghost predicate Ok()
      reads this, bt
    {
      eState.Valid? ==>
        && OnEntry(bt.kind, bt.root, path, ix)
        && (validNKey ==> nKey == At(bt.root, path).cells[ix].key)
        && (atLast ==> Rank(bt.kind, bt.root, path, ix) + 1 == |Walk(bt.kind, bt.root)|)
    }

    method MoveToChild(i: nat)
      requires ValidPath(bt.root, path) && Shaped(At(bt.root, path)) && i <= |At(bt.root, path).cells| && !At(bt.root, path).leaf
      modifies this`path, this`ix, this`validNKey
      ensures path == old(path) + [i] && ix == 0 && !validNKey
      ensures ValidPath(bt.root, path) && At(bt.root, path) == At(bt.root, old(path)).kids[i]
      ensures |PreAt(bt.kind, bt.root, path)| == Start(bt.kind, bt.root, old(path), i)
      ensures EndOf(bt.kind, bt.root, path) == Rank(bt.kind, bt.root, old(path), i)
    {
      Child(bt.kind, bt.root, path, i);
      path, ix, validNKey := path + [i], 0, false;
    }

    method MoveToParent()
      requires ValidPath(bt.root, path) && path != []
      modifies this`path, this`ix, this`validNKey
      ensures path == old(path[..|path| - 1]) && ix == old(path[|path| - 1]) && !validNKey
      ensures ValidPath(bt.root, path) && !At(bt.root, path).leaf && Shaped(At(bt.root, path)) && ix <= |At(bt.root, path).cells|
      ensures At(bt.root, old(path)) == At(bt.root, path).kids[ix]
      ensures |PreAt(bt.kind, bt.root, old(path))| == Start(bt.kind, bt.root, path, ix)
      ensures EndOf(bt.kind, bt.root, old(path)) == Rank(bt.kind, bt.root, path, ix)
    {
      hide PreAt, Walk, Weave, WeaveLeft, Start, Rank, EndOf;
      Parent(bt.kind, bt.root, path);
      path, ix, validNKey := path[..|path| - 1], path[|path| - 1], false;
    }

    /** Moves to the root, or to its only child where page 1 holds no cells. */
    method MoveToRoot()
      requires bt.Sound()
      modifies this`eState, this`path, this`ix, this`validNKey, this`atLast
      ensures ix == 0 && !validNKey && !atLast && ValidPath(bt.root, path)
      ensures eState == if Walk(bt.kind, bt.root) == [] then Invalid else Valid
      ensures path == [] || (path == [0] && bt.root.cells == [])
      ensures PreAt(bt.kind, bt.root, path) == []
      ensures if eState.Invalid? then path == [] && bt.root.leaf && bt.root.cells == []
              else Placed(bt.root, path, 0) && EndOf(bt.kind, bt.root, path) == |Walk(bt.kind, bt.root)|
    {
      hide RootOk, Sorted, Walk, PreAt, Start, Rank, EndOf;
      path, ix, validNKey, atLast := [], 0, false, false;
      PageIn(bt.kind, bt.u, bt.root, bt.height, []);
      Edges(bt.kind, bt.root, []);
      EndInWalk(bt.kind, bt.root, []);
      if |bt.root.cells| == 0 && !bt.root.leaf {
        eState := Valid;
        MoveToChild(0);
        PageIn(bt.kind, bt.u, bt.root, bt.height, path);
        RankItem(bt.kind, bt.root, path, 0);
      } else {
        eState := if |bt.root.cells| > 0 then Valid else Invalid;
        if |bt.root.cells| > 0 { RankItem(bt.kind, bt.root, [], 0); } else { EmptyWalk(bt.kind, bt.root); }
      }
    }

    /** Moves to the first entry under the cell the cursor is on. */
    method MoveToLeftmost()
      requires bt.Sound() && Placed(bt.root, path, ix)
      modifies this`path, this`ix, this`validNKey
      ensures Placed(bt.root, path, ix) && At(bt.root, path).leaf
      ensures Rank(bt.kind, bt.root, path, ix) == old(Start(bt.kind, bt.root, path, ix))
      ensures validNKey ==> old(validNKey) && path == old(path) && ix == old(ix)
    {
      hide PreAt, Walk, Weave, RootOk, WeaveLeft;
      PageIn(bt.kind, bt.u, bt.root, bt.height, path);
      while !At(bt.root, path).leaf
        invariant Placed(bt.root, path, ix) && |path| <= bt.height
        invariant Start(bt.kind, bt.root, path, ix) == old(Start(bt.kind, bt.root, path, ix))
        invariant validNKey ==> old(validNKey) && path == old(path) && ix == old(ix)
        decreases bt.height - |path|
      {
        MoveToChild(ix);
        PageIn(bt.kind, bt.u, bt.root, bt.height, path);
        Edges(bt.kind, bt.root, path);
      }
    }

    /** Moves to the last entry under the page the cursor is on. */
    method MoveToRightmost()
      requires bt.Sound() && ValidPath(bt.root, path) && At(bt.root, path).cells != []
      modifies this`path, this`ix, this`validNKey
      ensures Placed(bt.root, path, ix) && At(bt.root, path).leaf && !validNKey
      ensures ix + 1 == |At(bt.root, path).cells| && old(path) <= path
      ensures Rank(bt.kind, bt.root, path, ix) + 1 == old(EndOf(bt.kind, bt.root, path))
    {
      hide PreAt, Walk, Weave, RootOk, WeaveLeft;
      PageIn(bt.kind, bt.u, bt.root, bt.height, path);
      Edges(bt.kind, bt.root, path);
      while !At(bt.root, path).leaf
        invariant ValidPath(bt.root, path) && Shaped(At(bt.root, path)) && |path| <= bt.height && At(bt.root, path).cells != []
        invariant old(path) <= path
        invariant EndOf(bt.kind, bt.root, path) == old(EndOf(bt.kind, bt.root, path))
        decreases bt.height - |path|
      {
        ix := |At(bt.root, path).cells|;
        Edges(bt.kind, bt.root, path);
        MoveToChild(ix);
        PageIn(bt.kind, bt.u, bt.root, bt.height, path);
      }
      Edges(bt.kind, bt.root, path);
      ix, validNKey := |At(bt.root, path).cells| - 1, false;
      LeafRank(bt.kind, bt.root, path, ix + 1);
    }

    method First() returns (res: int)
      requires bt.Sound()
      modifies this`eState, this`path, this`ix, this`validNKey, this`atLast
      ensures Ok() && !eState.RequireSeek? && res == if eState.Valid? then 0 else 1
      ensures eState.Invalid? <==> bt.Contents() == []
      ensures eState.Valid? ==> Pos(bt.kind, bt.root, path, ix) == 0
    {
      hide RootOk, Sorted, Walk, PreAt, Rank, Start, EndOf;
      MoveToRoot();
      if eState.Invalid? {
        res := 1;
      } else {
        Edges(bt.kind, bt.root, path);
        MoveToLeftmost();
        FirstPos(bt.kind, bt.root, path, ix);
        res := 0;
      }
    }

    /** res0 is what the caller's result variable held before; nothing is stored there if the cursor is on the last entry already. */
    method Last(res0: int) returns (res: int)
      requires bt.Sound() && Ok()
      modifies this`eState, this`path, this`ix, this`validNKey, this`atLast
      ensures Ok() && !eState.RequireSeek?
      ensures if old(eState.Valid? && atLast) then eState.Valid? && res == res0 else res == if eState.Valid? then 0 else 1
      ensures eState.Invalid? <==> bt.Contents() == []
      ensures eState.Valid? ==> atLast && Pos(bt.kind, bt.root, path, ix) + 1 == |bt.Contents()|
    {
      if eState.Valid? && atLast {
        LastPos(bt.kind, bt.root, path, ix);
        return res0;
      }
      MoveToRoot();
      if eState.Invalid? {
        res := 1;
      } else {
        MoveToRightmost();
        LastPos(bt.kind, bt.root, path, ix);
        atLast := true;
        res := 0;
      }
    }

    /** Binary search for k among the cells of one page.  Ends between two cells, at an equal entry, or at an equal divider;
        ix is left on the cell compared last and c says how that cell compares with k. */
    method SearchPage(k: Key, biasRight: bool) returns (lwr: nat, c: int)
      requires bt.Sound() && Placed(bt.root, path, 0)
      requires Bounds(Walk(bt.kind, bt.root), |PreAt(bt.kind, bt.root, path)|, EndOf(bt.kind, bt.root, path), k)
      modifies this`ix, this`validNKey, this`nKey
      ensures Placed(bt.root, path, ix) && lwr <= |At(bt.root, path).cells|
      ensures validNKey && bt.kind.Table? ==> nKey == At(bt.root, path).cells[ix].key
      ensures bt.kind.Index? ==> validNKey == old(validNKey)
      ensures c == 0 ==> At(bt.root, path).cells[ix].key == k
      ensures c != 0 || !OnEntry(bt.kind, bt.root, path, ix) ==>
        Bounds(Walk(bt.kind, bt.root), Start(bt.kind, bt.root, path, lwr), Rank(bt.kind, bt.root, path, lwr), k)
      ensures c != 0 ==> lwr == ix + if c < 0 then 1 else 0
    {
      hide RootOk, Sorted, Walk, PreAt, Start, Rank, EndOf, Bounds;
      var page := At(bt.root, path);
      ghost var w := Walk(bt.kind, bt.root);
      Edges(bt.kind, bt.root, path);
      lwr := 0;
      var upr: int := |page.cells| - 1;
      var idx := if biasRight then upr else (upr + lwr) / 2;
      while true
        invariant 0 <= lwr <= idx <= upr < |page.cells|
        invariant Bounds(w, Start(bt.kind, bt.root, path, lwr), Rank(bt.kind, bt.root, path, upr + 1), k)
        invariant bt.kind.Index? ==> validNKey == old(validNKey)
        decreases upr - lwr
      {
        ix := idx;
        var key := page.cells[idx].key;
        c := if key == k then 0 else if key < k then -1 else 1;
        if bt.kind.Table? { validNKey, nKey := true, key; }
        Compared(bt.kind, bt.root, path, idx, Start(bt.kind, bt.root, path, lwr), Rank(bt.kind, bt.root, path, upr + 1), k);
        if c == 0 {
          lwr := idx;
          break;
        }
        if c < 0 { lwr := idx + 1; } else { upr := idx - 1; }
        if lwr > upr { break; }
        idx := (lwr + upr) / 2;
      }
    }

    /** Seeks the key k. */
    method MovetoUnpacked(k: Key, biasRight: bool) returns (res: int)
      requires bt.Sound() && Ok()
      modifies this`eState, this`path, this`ix, this`validNKey, this`nKey, this`atLast
      ensures Ok() && !eState.RequireSeek?
      ensures if eState.Invalid? then res < 0 && Walk(bt.kind, bt.root) == [] && path == [] && ix == 0 && bt.root.leaf
              else Sought(bt.kind, bt.root, path, ix, res, k)
      ensures res > 0 ==> !atLast
    {
      hide RootOk, Sorted, Walk, PreAt, Start, Rank, EndOf, Bounds;
      if eState.Valid? && validNKey && bt.kind.Table? {
        if nKey == k { return 0; }
        if atLast && nKey < k {
          PastLast(bt.kind, bt.u, bt.root, bt.height, path, ix, k);
          return -1;
        }
      }
      MoveToRoot();
      if eState.Invalid? { return -1; }
      NoBounds(Walk(bt.kind, bt.root), k);
      PageIn(bt.kind, bt.u, bt.root, bt.height, path);
      while true
        invariant eState.Valid? && !atLast && Placed(bt.root, path, 0) && |path| <= bt.height && (bt.kind.Index? ==> !validNKey)
        invariant Bounds(Walk(bt.kind, bt.root), |PreAt(bt.kind, bt.root, path)|, EndOf(bt.kind, bt.root, path), k)
        decreases bt.height - |path|
      {
        var lwr, c := SearchPage(k, biasRight);
        if c == 0 && (bt.kind.Index? || At(bt.root, path).leaf) { return 0; }
        if At(bt.root, path).leaf {
          OnLeaf(bt.kind, bt.root, path, lwr, ix, c);
          return c;
        }
        ix, validNKey := lwr, false;
        MoveToChild(lwr);
        PageIn(bt.kind, bt.u, bt.root, bt.height, path);
      }
    }

    /** From the cell the cursor is on to the next entry of the tree. */
    method Forward() returns (res: int)
      requires bt.Sound() && eState.Valid? && Placed(bt.root, path, ix)
      modifies this`eState, this`path, this`ix, this`validNKey
      ensures !validNKey && res == if eState.Valid? then 0 else 1
      ensures match eState
              case Valid => OnEntry(bt.kind, bt.root, path, ix) && Pos(bt.kind, bt.root, path, ix) == old(Upto(bt.kind, bt.root, path, ix))
              case Invalid => old(Upto(bt.kind, bt.root, path, ix)) == |bt.Contents()|
              case RequireSeek => false
      decreases if At(bt.root, path).leaf then 1 else 0
    {
      hide RootOk, Sorted, Walk, PreAt, Start, Rank, EndOf, EntriesLeft;
      ghost var r := Rank(bt.kind, bt.root, path, ix);
      PageIn(bt.kind, bt.u, bt.root, bt.height, path);
      NextCell(bt.kind, bt.root, path, ix);
      ix, validNKey := ix + 1, false;
      var page := At(bt.root, path);
      if ix >= |page.cells| {
        if !page.leaf {
          MoveToChild(ix);
          PageIn(bt.kind, bt.u, bt.root, bt.height, path);
          Edges(bt.kind, bt.root, path);
          MoveToLeftmost();
          return 0;
        }
        Edges(bt.kind, bt.root, path);
        LeafRank(bt.kind, bt.root, path, ix);
        while true
          invariant ValidPath(bt.root, path) && EndOf(bt.kind, bt.root, path) == r + 1 && eState.Valid? && !validNKey
          decreases |path|
        {
          if path == [] {
            EndInWalk(bt.kind, bt.root, path);
            EntriesAll(Walk(bt.kind, bt.root));
            eState := Invalid;
            return 1;
          }
          MoveToParent();
          if ix < |At(bt.root, path).cells| { break; }
          Edges(bt.kind, bt.root, path);
        }
        if bt.kind.Table? {
          DividerAdds(bt.kind, bt.root, path, ix);
          res := Forward();
          return;
        }
        return 0;
      }
      if page.leaf {
        LeafRank(bt.kind, bt.root, path, ix);
        return 0;
      }
      MoveToLeftmost();
      return 0;
    }

    /** From the cell the cursor is on to the previous entry of the tree. */
    method Back() returns (res: int)
      requires bt.Sound() && eState.Valid? && Placed(bt.root, path, ix)
      modifies this`eState, this`path, this`ix, this`validNKey
      ensures res == if eState.Valid? then 0 else 1
      ensures match eState
              case Valid => !validNKey && OnEntry(bt.kind, bt.root, path, ix)
                            && Pos(bt.kind, bt.root, path, ix) + 1 == old(Below(bt.kind, bt.root, path, ix))
              case Invalid => old(Below(bt.kind, bt.root, path, ix)) == 0
              case RequireSeek => false
      ensures old(!At(bt.root, path).leaf) ==> eState.Valid? && DownBefore(bt.kind, bt.root, old(path), old(ix), path, ix)
      decreases if At(bt.root, path).leaf then 1 else 0
    {
      hide RootOk, Sorted, Walk, PreAt, Start, Rank, EndOf, EntriesLeft;
      ghost var r := Rank(bt.kind, bt.root, path, ix);
      PageIn(bt.kind, bt.u, bt.root, bt.height, path);
      if !At(bt.root, path).leaf {
        MoveToChild(ix);
        PageIn(bt.kind, bt.u, bt.root, bt.height, path);
        MoveToRightmost();
        DividerAdds(bt.kind, bt.root, path, ix);
        return 0;
      }
      LeafRank(bt.kind, bt.root, path, ix);
      while ix == 0
        invariant ValidPath(bt.root, path) && Shaped(At(bt.root, path)) && ix <= |At(bt.root, path).cells| && eState.Valid?
        invariant Start(bt.kind, bt.root, path, ix) == r
        decreases |path|
      {
        Edges(bt.kind, bt.root, path);
        if path == [] {
          EndInWalk(bt.kind, bt.root, path);
          NoEntriesLeft(Walk(bt.kind, bt.root));
          eState := Invalid;
          return 1;
        }
        MoveToParent();
      }
      ix, validNKey := ix - 1, false;
      NextCell(bt.kind, bt.root, path, ix);
      DividerAdds(bt.kind, bt.root, path, ix);
      if bt.kind.Table? && !At(bt.root, path).leaf {
        res := Back();
        return;
      }
      return 0;
    }

    /** Remembers the entry by its key and lets go of the pages. */
    method Save()
      requires bt.Sound() && Ok() && eState.Valid?
      modifies this
      ensures eState.RequireSeek? && skipNext == old(skipNext)
      ensures savedKey == old(bt.Contents()[Pos(bt.kind, bt.root, path, ix)].key)
    {
      savedKey := At(bt.root, path).cells[ix].key;
      path, ix, eState := [], 0, RequireSeek;
    }

    /** Goes back to the remembered key, or next to where it was.  skipNext tells on which side. */
    method Restore()
      requires bt.Sound() && eState.RequireSeek?
      modifies this
      ensures Ok() && !eState.RequireSeek? && savedKey == old(savedKey)
      ensures if eState.Invalid? then bt.Contents() == []
              else Sought(bt.kind, bt.root, path, ix, skipNext, savedKey)
    {
      eState := Invalid;
      skipNext := MovetoUnpacked(savedKey, false);
    }

    /** Steps to the next entry.  A cursor whose entry may have gone goes to the first entry beyond the remembered key. */
    method Next() returns (res: int)
      requires bt.Sound() && Ok()
      modifies this
      ensures Ok() && !eState.RequireSeek? && res == if eState.Valid? then 0 else 1
      ensures old(eState.Invalid?) ==> eState.Invalid?
      ensures old(eState.Valid? && skipNext <= 0) ==>
        if eState.Valid? then Pos(bt.kind, bt.root, path, ix) == old(Pos(bt.kind, bt.root, path, ix)) + 1
        else old(Pos(bt.kind, bt.root, path, ix)) + 1 == |bt.Contents()|
      ensures old(eState.Valid? && skipNext > 0) ==> eState.Valid? && path == old(path) && ix == old(ix)
      ensures old(eState.RequireSeek?) ==>
        FirstBeyond(bt.Contents(), if eState.Valid? then Pos(bt.kind, bt.root, path, ix) else |bt.Contents()|, old(savedKey))
      ensures eState.Valid? ==> skipNext == 0
    {
      hide RootOk, Walk, Rank, Entries, Sought, EntriesLeft, Pos;
      ghost var sought := eState.RequireSeek?;
      if eState.RequireSeek? {
        Restore();
        if eState.Valid? { SoughtGap(bt.kind, bt.root, path, ix, skipNext, savedKey); }
      }
      if eState.Invalid? { return 1; }
      if skipNext > 0 {
        skipNext := 0;
        return 0;
      }
      skipNext := 0;
      AtEntry(bt.kind, bt.root, path, ix);
      res := Forward();
      if eState.Valid? { AtEntry(bt.kind, bt.root, path, ix); }
    }

    /** Steps to the previous entry, or to the last entry before a remembered key. */
    method Previous() returns (res: int)
      requires bt.Sound() && Ok()
      modifies this
      ensures Ok() && !eState.RequireSeek? && res == if eState.Valid? then 0 else 1
      ensures old(eState.Invalid?) ==> eState.Invalid?
      ensures old(eState.Valid? && skipNext >= 0) ==>
        if eState.Valid? then Pos(bt.kind, bt.root, path, ix) + 1 == old(Pos(bt.kind, bt.root, path, ix))
        else old(Pos(bt.kind, bt.root, path, ix)) == 0
      ensures old(eState.Valid? && skipNext >= 0 && !At(bt.root, path).leaf) ==>
        eState.Valid? && DownBefore(bt.kind, bt.root, old(path), old(ix), path, ix)
      ensures old(eState.Valid? && skipNext < 0) ==> eState.Valid? && path == old(path) && ix == old(ix)
      ensures old(eState.RequireSeek?) ==>
        LastBefore(bt.Contents(), if eState.Valid? then Pos(bt.kind, bt.root, path, ix) as int else -1, old(savedKey))
      ensures eState.Valid? ==> skipNext == 0
      ensures eState.Valid? ==> !atLast
    {
      hide RootOk, Walk, Rank, Entries, Sought, EntriesLeft, Pos;
      if eState.RequireSeek? {
        Restore();
        if eState.Valid? { SoughtGap(bt.kind, bt.root, path, ix, skipNext, savedKey); }
      }
      atLast := false;
      if eState.Invalid? { return 1; }
      if skipNext < 0 {
        skipNext := 0;
        return 0;
      }
      skipNext := 0;
      AtEntry(bt.kind, bt.root, path, ix);
      res := Back();
      if eState.Valid? { AtEntry(bt.kind, bt.root, path, ix); }
    }

    /** From a leaf to the parent of the next page to visit, with ix the number of that child; none when done. */
    method Ascend(ghost nEntry: int) returns (done: bool)
      requires ValidPath(bt.root, path) && Shaped(At(bt.root, path))
      requires EndOf(bt.kind, bt.root, path) <= |Walk(bt.kind, bt.root)|
      requires nEntry == EntriesLeft(Walk(bt.kind, bt.root), EndOf(bt.kind, bt.root, path))
                         + Pending(bt.kind, bt.root, path, |At(bt.root, path).cells|)
      modifies this`path, this`ix, this`validNKey
      ensures done ==> nEntry == |bt.Contents()|
      ensures !done ==> CountingAt(bt.kind, bt.root, path, ix, nEntry)
      ensures !done ==> Start(bt.kind, bt.root, path, ix) > old(EndOf(bt.kind, bt.root, path))
    {
      hide Walk, PreAt, Start, Rank, EndOf, EntriesLeft, Pending;
      while true
        invariant ValidPath(bt.root, path) && Shaped(At(bt.root, path))
        invariant old(EndOf(bt.kind, bt.root, path)) <= EndOf(bt.kind, bt.root, path) <= |Walk(bt.kind, bt.root)|
        invariant nEntry == EntriesLeft(Walk(bt.kind, bt.root), EndOf(bt.kind, bt.root, path))
                            + Pending(bt.kind, bt.root, path, |At(bt.root, path).cells|)
        decreases |path|
      {
        if path == [] {
          CountAll(bt.kind, bt.root);
          return true;
        }
        ghost var from := path;
        MoveToParent();
        CountUp(bt.kind, bt.root, path, ix, from);
        if ix < |At(bt.root, path).cells| { break; }
        Edges(bt.kind, bt.root, path);
      }
      CountCell(bt.kind, bt.root, path, ix);
      ix := ix + 1;
      return false;
    }

    /** Counts the entries, visiting every page once. */
    method Count() returns (nEntry: int)
      requires bt.Sound()
      modifies this`eState, this`path, this`ix, this`validNKey, this`atLast
      ensures nEntry == |bt.Contents()|
    {
      hide RootOk, Sorted, Walk, PreAt, Start, Rank, EndOf, EntriesLeft, Pending;
      nEntry := 0;
      MoveToRoot();
      PageIn(bt.kind, bt.u, bt.root, bt.height, path);
      CountStart(bt.kind, bt.root, path);
      while true
        invariant ValidPath(bt.root, path) && Shaped(At(bt.root, path)) && ix == 0
        invariant |PreAt(bt.kind, bt.root, path)| <= |Walk(bt.kind, bt.root)|
        invariant nEntry + Own(bt.kind, At(bt.root, path))
               == EntriesLeft(Walk(bt.kind, bt.root), |PreAt(bt.kind, bt.root, path)|) + Pending(bt.kind, bt.root, path, 0)
        decreases |Walk(bt.kind, bt.root)| - |PreAt(bt.kind, bt.root, path)|, bt.height - |path|
      {
        var page := At(bt.root, path);
        if page.leaf || bt.kind.Index? { nEntry := nEntry + |page.cells|; }
        PageIn(bt.kind, bt.u, bt.root, bt.height, path);
        if page.leaf {
          CountLeaf(bt.kind, bt.root, path);
          var done := Ascend(nEntry);
          if done { return; }
        } else {
          Edges(bt.kind, bt.root, path);
        }
        ghost var above := path;
        MoveToChild(ix);
        PageIn(bt.kind, bt.u, bt.root, bt.height, path);
        CountDown(bt.kind, bt.root, above, path);
      }
    }

    /** Where a search for k left the cursor. */
    ghost predicate SoughtHere(res: int, k: Key)
      reads this, bt
    {
      && (if eState.Valid? then Sought(bt.kind, bt.root, path, ix, res, k)
          else eState.Invalid? && res < 0 && Walk(bt.kind, bt.root) == [] && path == [] && ix == 0 && bt.root.leaf)
      && (res > 0 ==> !atLast)
    }

    /** Stores the entry c, in place of one with the same key if there is one. */
    method Insert(c: Cell, appendBias: bool, seekResult: int) returns (ghost p: nat, ghost found: bool)
      requires bt.Sound() && Ok() && GoodCell(bt.kind, bt.u, true, c)
      requires seekResult != 0 ==> SoughtHere(seekResult, c.key)
      modifies this, bt`root, bt`used, bt`height
      ensures bt.Sound() && Ok() && !eState.RequireSeek?
      ensures Stored(old(bt.Contents()), bt.Contents(), p, c, found)
      ensures eState.Valid? ==> OnEntry(bt.kind, bt.root, path, ix) && At(bt.root, path).cells[ix] == c
      ensures exists at: Path, idx: nat :: CellBalanced(bt.kind, bt.u, bulk, old(bt.root), at, idx, c, found, bt.root)
    {
      hide RootOk, Sorted, Walk, Rank, Bounds, Entries, Pos, GoodCell, Sought, Stored, LostAtMost, CellBalanced;
      var loc := seekResult;
      if loc == 0 { loc := MovetoUnpacked(c.key, appendBias); }
      p, found := PutIn(c, loc);
    }

    /** Insert, once the cursor is where the cell belongs. */
    method PutIn(c: Cell, loc: int) returns (ghost p: nat, ghost found: bool)
      requires bt.Sound() && Ok() && GoodCell(bt.kind, bt.u, true, c) && !eState.RequireSeek?
      requires if eState.Valid? then Sought(bt.kind, bt.root, path, ix, loc, c.key)
               else loc < 0 && Walk(bt.kind, bt.root) == [] && path == [] && ix == 0 && bt.root.leaf
      requires atLast ==> loc <= 0
      modifies this`path, this`ix, this`validNKey, this`eState, bt`root, bt`used, bt`height
      ensures bt.Sound() && Ok() && !eState.RequireSeek?
      ensures Stored(old(bt.Contents()), bt.Contents(), p, c, found)
      ensures eState.Valid? ==> OnEntry(bt.kind, bt.root, path, ix) && At(bt.root, path).cells[ix] == c
      ensures exists at: Path, idx: nat :: CellBalanced(bt.kind, bt.u, bulk, old(bt.root), at, idx, c, found, bt.root)
    {
      hide RootOk, Sorted, Walk, Rank, Bounds, Entries, MapOf, Put, PagesOf, BalanceState, SetAt, Pos, GoodCell, WithCell, PageFits, OvflInRange, Target, Sought, Stored, LostAtMost, CellBalanced, Reaches, Steady;
      Aim(bt.kind, bt.u, bt.root, bt.height, path, ix, loc, c.key, eState);
      var idx := if loc < 0 && |At(bt.root, path).cells| > 0 then ix + 1 else ix;
      found := loc == 0;
      TreeWithCell(bt.kind, bt.u, bt.root, bt.height, path, idx, c, found);
      p := |Entries(Walk(bt.kind, bt.root)[..Rank(bt.kind, bt.root, path, idx)])|;
      var m := WithCell(bt.u, At(bt.root, path), idx, c, loc == 0);
      ix, validNKey := idx, false;
      WithCellLost(bt.u, bt.root, path, idx, c, loc == 0, bt.spill);
      ghost var at := path;
      bt.root := SetAt(bt.root, path, m);
      if m.nOv > 0 {
        path := bt.Balance(path, bulk, -1);
        eState := Invalid;
      }
      CellIn(bt.kind, bt.u, bulk, old(bt.root), at, idx, c, found, path, bt.root);
    }

    /** Takes the cell the cursor is on off its page; on an interior page the entry before it moves up in its place.  The cursor
        ends on the leaf that lost a cell, and that leaf and the interior page, if any, need balancing.  The step back to the leaf
        does not move a cursor with a pending skipNext < 0; the model stops there, where the code takes the interior page for the
        leaf and a page the cursor does not hold for the child. */
    method TakeOut() returns (ok: bool)
      requires bt.Sound() && Ok() && eState.Valid?
      requires !At(bt.root, path).leaf ==> Spared(bt.kind, bt.u, bt.root, path, ix)
      modifies this, bt`root, bt`spill
      ensures ok <==> old(At(bt.root, path).leaf || skipNext >= 0)
      ensures !ok ==> bt.root == old(bt.root) && bt.spill == old(bt.spill) && Ok() && eState.Valid? && path == old(path) && ix == old(ix)
      ensures !ok ==> skipNext == 0
      ensures ok ==> BalanceState(bt.kind, bt.u, bt.root, bt.height, path, if old(At(bt.root, path).leaf) then -1 else |old(path)|)
      ensures ok && old(At(bt.root, path).leaf) ==>
        path == old(path) && TakenOff(old(bt.root), path, old(ix), bt.root) && bt.spill == old(bt.spill)
      ensures ok && path == [] ==> bt.root.nOv == 0
      ensures ok ==> OwnsRest(bt.root, bt.used, bt.others) && Sorted(Walk(bt.kind, bt.root))
      ensures ok ==> Removed(old(bt.Contents()), bt.Contents(), old(Pos(bt.kind, bt.root, path, ix)))
      ensures ok && old(!At(bt.root, path).leaf) ==> TakenUp(bt.kind, old(bt.root), old(path), old(ix), bt.root)
      ensures ok && old(!At(bt.root, path).leaf) ==> MovedUp(bt.u, old(bt.root), old(path), old(ix), path, bt.root)
      ensures LostAtMost(bt.root, bt.spill) && bt.spill <= old(bt.spill) + 3
      ensures ok && old(At(bt.root, path).leaf || LongBefore(bt.kind, bt.root, path, ix)) ==> bt.spill == old(bt.spill)
    {
      hide RootOk, Walk, Rank, Entries, PagesOf, BalanceState, SetAt, Removed, Sorted, OvflInRange, InsertCell, EntriesLeft, Lifted, MayLose, LostAtMost;
      var depth, cellIdx := |path|, ix;
      ghost var e := bt.Contents();
      if !At(bt.root, path).leaf {
        ghost var page := path;
        var _ := Previous();
        if |path| <= depth { return false; }
        PosIsRank(bt.kind, bt.root, page, cellIdx);
        LostAt(bt.root, page, bt.spill);
        LostHere(At(bt.root, page), bt.spill);
        TreeTakenUp(bt.kind, bt.u, bt.root, bt.height, page, cellIdx, path, ix);
        LeafOf(bt.kind, bt.root, page, cellIdx, path, ix);
        var leaf := At(bt.root, path);
        var c := leaf.cells[|leaf.cells| - 1];
        assert c == e[Pos(bt.kind, bt.root, path, ix)];
        LiftLost(bt.u, bt.root, page, cellIdx, path, ix, bt.spill);
        bt.spill := bt.spill + ShortBy(c);
        bt.root := SetAt(bt.root, path, DropCell(leaf, |leaf.cells| - 1));
        var above := At(bt.root, path[..depth]);
        bt.root := SetAt(bt.root, path[..depth], InsertCell(bt.u, DropCell(above, cellIdx), cellIdx, c, Size(true, c) + 4));
      } else {
        PosIsRank(bt.kind, bt.root, path, cellIdx);
        TreeWithout(bt.kind, bt.u, bt.root, bt.height, path, cellIdx);
        DropLost(bt.root, path, cellIdx, bt.spill);
        bt.root := SetAt(bt.root, path, DropCell(At(bt.root, path), cellIdx));
      }
      ok := true;
    }

    /** Deletes the entry the cursor is on, unless that is an entry of an interior page and a skipNext < 0 is pending. */
    method Delete() returns (ok: bool, ghost p: nat)
      requires bt.Sound() && Ok() && eState.Valid?
      requires !At(bt.root, path).leaf ==> !bulk && Spared(bt.kind, bt.u, bt.root, path, ix)
      modifies this, bt`root, bt`used, bt`height, bt`spill
      ensures bt.Sound() && !eState.RequireSeek? && p == old(Pos(bt.kind, bt.root, path, ix))
      ensures ok <==> old(At(bt.root, path).leaf || skipNext >= 0)
      ensures ok ==> !validNKey && !atLast && (eState.Valid? ==> Placed(bt.root, path, ix)) && Removed(old(bt.Contents()), bt.Contents(), p)
      ensures !ok ==> bt.root == old(bt.root) && path == old(path) && ix == old(ix)
      ensures bt.spill <= old(bt.spill) + 3 && (!ok ==> bt.spill == old(bt.spill))
      ensures ok && old(At(bt.root, path).leaf || LongBefore(bt.kind, bt.root, path, ix)) ==> bt.spill == old(bt.spill)
      ensures ok ==> if old(At(bt.root, path).leaf) then LeafBalanced(bt.kind, bt.u, bulk, old(bt.root), old(path), old(ix), bt.root)
                     else BothBalanced(bt.kind, bt.u, bulk, old(bt.root), old(path), old(ix), bt.root)
      ensures old(At(bt.root, path).leaf) ==> forall n :: TakenOff(old(bt.root), old(path), old(ix), n) && Steady(bt.u, n, old(path)) ==> bt.root == n
    {
      hide RootOk, Walk, Rank, Entries, PagesOf, BalanceState, SetAt, Removed, Sorted, OwnsRest, Lifted, LostAtMost, Steady;
      hide LeafBalanced, BothBalanced, MovedUp, Reaches;
      p := Pos(bt.kind, bt.root, path, ix);
      var iCellDepth := |path|;
      ghost var cd := if At(bt.root, path).leaf then -1 else iCellDepth;
      ok := TakeOut();
      if !ok { return; }
      ghost var taken, leaf := bt.root, path;
      path := bt.Balance(path, bulk, cd);
      ghost var mid, q := bt.root, path;
      if |path| > iCellDepth {
        ghost var once := bt.root;
        MovedBelow(bt.u, old(bt.root), old(path), old(ix), leaf, taken);
        assert path[..iCellDepth] == leaf[..iCellDepth];
        path := bt.Balance(path[..iCellDepth], bulk, -1);
        SameEntriesTrans(bt.kind, taken, once, bt.root);
      }
      if cd < 0 {
        LeafDone(bt.kind, bt.u, bulk, old(bt.root), leaf, old(ix), taken, mid, q);
      } else {
        BothDone(bt.kind, bt.u, bulk, old(bt.root), old(path), old(ix), taken, leaf, mid, q, bt.root, path);
      }
      MoveToRoot();
    }
  }

  lemma CellIn(kind: Kind, u: nat, bBulk: bool, n: Node, path: Path, idx: nat, c: Cell, found: bool, q: Path, n': Node)
    requires ValidPath(n, path) && idx <= |At(n, path).cells| && (found ==> idx < |At(n, path).cells| && At(n, path).nOv == 0)
    requires OvflInRange(At(n, path)) && (found ==> OvflInRange(DropCell(At(n, path), idx)))
    requires var m := WithCell(u, At(n, path), idx, c, found);
             if m.nOv > 0 then Reaches(kind, u, bBulk, SetAt(n, path, m), path, n', q) else n' == SetAt(n, path, m)
    ensures CellBalanced(kind, u, bBulk, n, path, idx, c, found, n')
  {
    hide Reaches, WithCell, SetAt;
  }

  lemma LeafDone(kind: Kind, u: nat, bBulk: bool, n: Node, path: Path, ix: nat, m: Node, n': Node, q: Path)
    requires TakenOff(n, path, ix, m) && Reaches(kind, u, bBulk, m, path, n', q)
    ensures LeafBalanced(kind, u, bBulk, n, path, ix, n')
  {
    hide TakenOff, Reaches;
  }

  lemma MovedBelow(u: nat, n: Node, path: Path, ix: nat, leaf: Path, m: Node)
    requires MovedUp(u, n, path, ix, leaf, m)
    ensures |path| < |leaf| && leaf[..|path|] == path
  {
  }

  lemma BothDone(kind: Kind, u: nat, bBulk: bool, n: Node, path: Path, ix: nat, m: Node, leaf: Path, mid: Node, q: Path, n': Node, q': Path)
    requires MovedUp(u, n, path, ix, leaf, m) && Reaches(kind, u, bBulk, m, leaf, mid, q)
    requires if |q| > |path| then Reaches(kind, u, bBulk, mid, path, n', q') else n' == mid
    ensures BothBalanced(kind, u, bBulk, n, path, ix, n')
  {
    hide MovedUp, Reaches;
  }

  lemma PosIsRank(kind: Kind, n: Node, path: Path, ix: nat)
    requires OnEntry(kind, n, path, ix)
    ensures Rank(kind, n, path, ix) < |Walk(kind, n)|
    ensures Pos(kind, n, path, ix) == |Entries(Walk(kind, n)[..Rank(kind, n, path, ix)])|
  {
    RankItem(kind, n, path, ix);
  }

  lemma LostHere(n: Node, k: nat)
    requires LostAtMost(n, k)
    ensures n.lost <= k
  {
  }

  lemma WithCellLost(u: nat, n: Node, path: Path, i: nat, c: Cell, found: bool, k: nat)
    requires ValidPath(n, path) && LostAtMost(n, k) && OvflInRange(At(n, path))
    requires if found then i < |At(n, path).cells| && At(n, path).nOv == 0 && OvflInRange(DropCell(At(n, path), i)) else i <= |At(n, path).cells|
    ensures LostAtMost(SetAt(n, path, WithCell(u, At(n, path), i, c, found)), k)
  {
    hide NFree;
    LostAt(n, path, k);
    LostSetAt(n, path, WithCell(u, At(n, path), i, c, found), k);
  }

  lemma DropLost(n: Node, path: Path, i: nat, k: nat)
    requires ValidPath(n, path) && LostAtMost(n, k) && i < |At(n, path).cells| && At(n, path).nOv == 0
    ensures LostAtMost(SetAt(n, path, DropCell(At(n, path), i)), k)
  {
    LostAt(n, path, k);
    LostSetAt(n, path, DropCell(At(n, path), i), k);
  }

  /** The bytes lost when the leaf's last cell moves up. */
  lemma LiftLost(u: nat, n: Node, path: Path, ix: nat, path': Path, ix': nat, k: nat)
    requires ValidPath(n, path') && LostAtMost(n, k) && ix' < |At(n, path').cells| && At(n, path').nOv == 0
    requires var nL := SetAt(n, path', DropCell(At(n, path'), ix'));
      ValidPath(nL, path) && !At(nL, path).leaf && At(nL, path).nOv == 0 && ix < |At(nL, path).cells| && OvflInRange(DropCell(At(nL, path), ix))
    ensures var nL, c := SetAt(n, path', DropCell(At(n, path'), ix')), At(n, path').cells[ix'];
            var m := InsertCell(u, DropCell(At(nL, path), ix), ix, c, Size(true, c) + 4);
      LostAtMost(SetAt(nL, path, m), k + ShortBy(c))
  {
    hide NFree;
    DropLost(n, path', ix', k);
    var nL, c := SetAt(n, path', DropCell(At(n, path'), ix')), At(n, path').cells[ix'];
    LostMore(nL, k, k + ShortBy(c));
    LostAt(nL, path, k);
    LostAt(nL, path, k + ShortBy(c));
    LostSetAt(nL, path, InsertCell(u, DropCell(At(nL, path), ix), ix, c, Size(true, c) + 4), k + ShortBy(c));
  }

  lemma LeafOf(kind: Kind, n: Node, path: Path, ix: nat, path': Path, ix': nat)
    requires DownBefore(kind, n, path, ix, path', ix')
    ensures path'[..|path|] == path && |path| < |path'| && ValidPath(n, path') && |At(n, path').cells| == ix' + 1
  {
  }

  /** A finished search says where a new cell goes. */
  lemma Aim(kind: Kind, u: nat, n: Node, h: nat, path: Path, ix: nat, loc: int, k: Key, eState: CursorState)
    requires RootOk(kind, u, n, h) && !eState.RequireSeek?
    requires if eState.Valid? then Sought(kind, n, path, ix, loc, k)
             else loc < 0 && Walk(kind, n) == [] && path == [] && ix == 0 && n.leaf
    ensures var idx := if loc < 0 && |At(n, path).cells| > 0 then ix + 1 else ix;
      && Target(kind, n, path, idx, k, loc == 0)
      && (eState.Valid? && loc < 0 ==> ix < idx && Rank(kind, n, path, idx) == Rank(kind, n, path, ix) + 1)
  {
    hide RootOk, PreAt, Walk, Rank, Bounds;
    PageIn(kind, u, n, h, path);
    if eState.Invalid? {
      RankInWalk(kind, n, path, 0);
      EmptyLeafCells(kind, n);
      NoBounds(Walk(kind, n), k);
    } else if loc != 0 {
      LeafRank(kind, n, path, if loc < 0 then ix + 1 else ix);
    }
  }

  lemma EmptyLeafCells(kind: Kind, n: Node)
    requires n.leaf && Walk(kind, n) == []
    ensures n.cells == []
  {
    assert |Ents(n.cells)| == |n.cells|;
  }

  /** Child ix of the page is the next to visit, and nEntry counts the entries of all pages visited. */
  ghost predicate CountingAt(kind: Kind, n: Node, path: Path, ix: nat, nEntry: int) {
    && ValidPath(n, path) && Shaped(At(n, path)) && !At(n, path).leaf && ix <= |At(n, path).cells|
    && Start(kind, n, path, ix) <= |Walk(kind, n)|
    && nEntry == EntriesLeft(Walk(kind, n), Start(kind, n, path, ix)) + Pending(kind, n, path, ix)
  }

  /** Entry p is the first with a key larger than k; there is none when p is the number of entries. */
  ghost predicate FirstBeyond(e: seq<Cell>, p: nat, k: Key) {
    p <= |e| && (forall i :: 0 <= i < p ==> e[i].key <= k) && (forall i :: p <= i < |e| ==> k < e[i].key)
  }

  /** Entry p is the last with a key smaller than k; there is none when p is -1. */
  ghost predicate LastBefore(e: seq<Cell>, p: int, k: Key) {
    -1 <= p < |e| && (forall i :: 0 <= i <= p ==> e[i].key < k) && (forall i :: p < i < |e| ==> k <= e[i].key)
  }

  /** A search ends at the key, just before its place, or just after it. */
  lemma SoughtGap(kind: Kind, n: Node, path: Path, ix: nat, res: int, k: Key)
    requires Sought(kind, n, path, ix, res, k) && Sorted(Walk(kind, n))
    ensures var e, p := Entries(Walk(kind, n)), Pos(kind, n, path, ix);
      && p < |e| && FirstBeyond(e, if res > 0 then p else p + 1, k) && LastBefore(e, if res < 0 then p else p - 1, k)
      && (res == 0 ==> e[p].key == k)
      && (res != 0 ==> Gap(e, if res < 0 then p + 1 else p, k))
  {
    hide Walk, Rank, Sorted, FirstBeyond, LastBefore, Gap, Below, Upto;
    var w := Walk(kind, n);
    AtEntry(kind, n, path, ix);
    if res == 0 {
      SortedEntries(w);
      GapAtEntry(Entries(w), Pos(kind, n, path, ix));
    } else {
      RankItem(kind, n, path, ix);
      GapInEntries(w, Rank(kind, n, path, ix) + if res < 0 then 1 else 0, k);
      PlacesOfRank(kind, n, path, ix);
      GapBetween(Entries(w), if res < 0 then Pos(kind, n, path, ix) + 1 else Pos(kind, n, path, ix), k);
    }
  }

  lemma PlacesOfRank(kind: Kind, n: Node, path: Path, ix: nat)
    requires Placed(n, path, ix)
    ensures Rank(kind, n, path, ix) < |Walk(kind, n)|
    ensures Below(kind, n, path, ix) == |Entries(Walk(kind, n)[..Rank(kind, n, path, ix)])|
    ensures Upto(kind, n, path, ix) == |Entries(Walk(kind, n)[..Rank(kind, n, path, ix) + 1])|
  {
    RankItem(kind, n, path, ix);
  }

  lemma GapAtEntry(e: seq<Cell>, p: nat)
    requires Increasing(e) && p < |e|
    ensures FirstBeyond(e, p + 1, e[p].key) && LastBefore(e, p - 1, e[p].key)
  {
  }

  lemma GapBetween(e: seq<Cell>, p: nat, k: Key)
    requires Gap(e, p, k)
    ensures FirstBeyond(e, p, k) && LastBefore(e, p - 1, k)
  {
  }

  lemma AtEntry(kind: Kind, n: Node, path: Path, ix: nat)
    requires OnEntry(kind, n, path, ix)
    ensures Pos(kind, n, path, ix) == Below(kind, n, path, ix) && Upto(kind, n, path, ix) == Pos(kind, n, path, ix) + 1
    ensures Rank(kind, n, path, ix) + 1 == |Walk(kind, n)| ==> Upto(kind, n, path, ix) == |Entries(Walk(kind, n))|
  {
    hide Walk, Rank;
    DividerAdds(kind, n, path, ix);
    EntriesAll(Walk(kind, n));
  }

  lemma CountStart(kind: Kind, n: Node, path: Path)
    requires ValidPath(n, path) && PreAt(kind, n, path) == []
    requires path == [] || (path == [0] && n.cells == [])
    ensures Own(kind, At(n, path)) == EntriesLeft(Walk(kind, n), 0) + Pending(kind, n, path, 0)
  {
    if path == [0] { assert path[1..] == []; }
  }

  lemma CountLeaf(kind: Kind, n: Node, path: Path)
    requires ValidPath(n, path) && At(n, path).leaf && Shaped(At(n, path)) && |PreAt(kind, n, path)| <= |Walk(kind, n)|
    ensures |PreAt(kind, n, path)| <= EndOf(kind, n, path) <= |Walk(kind, n)|
    ensures EntriesLeft(Walk(kind, n), EndOf(kind, n, path)) == EntriesLeft(Walk(kind, n), |PreAt(kind, n, path)|) + |At(n, path).cells|
    ensures Pending(kind, n, path, |At(n, path).cells|) == Pending(kind, n, path, 0) - |At(n, path).cells|
  {
    hide Walk, PreAt;
    LeafEntries(kind, n, path);
    PendingSteps(kind, n, path, |At(n, path).cells|);
  }

  lemma {:induction false} PendingSteps(kind: Kind, n: Node, path: Path, i: nat)
    requires ValidPath(n, path) && At(n, path).leaf
    ensures Pending(kind, n, path, i) == Pending(kind, n, path, 0) - i
  {
    if i > 0 {
      PendingSteps(kind, n, path, i - 1);
      PendingStep(kind, n, path, i - 1);
    }
  }

  lemma CountAll(kind: Kind, n: Node)
    ensures ValidPath(n, []) && EndOf(kind, n, []) == |Walk(kind, n)|
    ensures EntriesLeft(Walk(kind, n), |Walk(kind, n)|) == |Entries(Walk(kind, n))| && Pending(kind, n, [], |n.cells|) == 0
  {
    EntriesAll(Walk(kind, n));
  }

  lemma CountUp(kind: Kind, n: Node, path: Path, ix: nat, from: Path)
    requires ValidPath(n, path) && from == path + [ix] && ValidPath(n, from) && !At(n, path).leaf && Shaped(At(n, path)) && ix <= |At(n, path).cells|
    ensures Pending(kind, n, from, |At(n, from).cells|) == Pending(kind, n, path, ix)
    ensures Rank(kind, n, path, ix) <= EndOf(kind, n, path) <= |Walk(kind, n)|
  {
    hide Walk, PreAt;
    PendingChild(kind, n, path, ix, |At(n, from).cells|);
    LocalItem(kind, At(n, path), ix);
    EndInWalk(kind, n, path);
  }

  lemma CountCell(kind: Kind, n: Node, path: Path, ix: nat)
    requires Placed(n, path, ix) && !At(n, path).leaf
    ensures Rank(kind, n, path, ix) + 1 == Start(kind, n, path, ix + 1) <= |Walk(kind, n)|
    ensures EntriesLeft(Walk(kind, n), Start(kind, n, path, ix + 1)) + Pending(kind, n, path, ix + 1)
            == EntriesLeft(Walk(kind, n), Rank(kind, n, path, ix)) + Pending(kind, n, path, ix)
  {
    hide Walk, Rank, Start, Pending;
    RankItem(kind, n, path, ix);
    NextCell(kind, n, path, ix);
    EntriesStep(Walk(kind, n), Rank(kind, n, path, ix));
    PendingStep(kind, n, path, ix);
  }

  lemma CountDown(kind: Kind, n: Node, above: Path, path: Path)
    requires ValidPath(n, above) && !At(n, above).leaf && path != [] && above == path[..|path| - 1] && ValidPath(n, path)
    ensures Pending(kind, n, path, 0) == Pending(kind, n, above, path[|path| - 1]) + Own(kind, At(n, path))
  {
    assert path == above + [path[|path| - 1]];
    PendingChild(kind, n, above, path[|path| - 1], 0);
  }

  lemma NoEntriesLeft(w: seq<Item>)
    ensures EntriesLeft(w, 0) == 0
  {
  }

  lemma EmptyWalk(kind: Kind, n: Node)
    requires n.leaf && n.cells == []
    ensures Walk(kind, n) == []
  {
  }

  lemma EntriesAll(w: seq<Item>)
    ensures EntriesLeft(w, |w|) == |Entries(w)|
  {
    EntriesEnds(w, |w|);
  }

  lemma DividerAdds(kind: Kind, n: Node, path: Path, ix: nat)
    requires Placed(n, path, ix)
    ensures Upto(kind, n, path, ix) == Below(kind, n, path, ix) + if OnEntry(kind, n, path, ix) then 1 else 0
  {
    hide Walk, Rank;
    RankItem(kind, n, path, ix);
    EntriesStep(Walk(kind, n), Rank(kind, n, path, ix));
  }

  /** One comparison narrows the search. */
  lemma Compared(kind: Kind, n: Node, path: Path, idx: nat, lo: nat, hi: nat, k: Key)
    requires Placed(n, path, idx) && Sorted(Walk(kind, n)) && Bounds(Walk(kind, n), lo, hi, k)
    ensures At(n, path).cells[idx].key < k ==> Bounds(Walk(kind, n), Start(kind, n, path, idx + 1), hi, k)
    ensures At(n, path).cells[idx].key > k ==> Bounds(Walk(kind, n), lo, Rank(kind, n, path, idx), k)
    ensures At(n, path).cells[idx].key == k && !OnEntry(kind, n, path, idx) ==>
      Bounds(Walk(kind, n), if idx == 0 then lo else Start(kind, n, path, idx), Rank(kind, n, path, idx), k)
  {
    hide Walk, PreAt, Start, Rank, Sorted, Bounds;
    RankItem(kind, n, path, idx);
    NextCell(kind, n, path, idx);
    if At(n, path).cells[idx].key < k {
      RaiseLower(Walk(kind, n), lo, hi, Rank(kind, n, path, idx), k);
    } else if At(n, path).cells[idx].key > k || !OnEntry(kind, n, path, idx) {
      DropUpper(Walk(kind, n), lo, hi, Rank(kind, n, path, idx), k);
      if At(n, path).cells[idx].key == k && idx > 0 { DividerBefore(kind, n, path, idx, lo, Rank(kind, n, path, idx), k); }
    }
  }

  /** What precedes the child left of a divider equal to k is smaller than k. */
  lemma DividerBefore(kind: Kind, n: Node, path: Path, idx: nat, lo: nat, hi: nat, k: Key)
    requires Placed(n, path, idx) && Sorted(Walk(kind, n)) && Bounds(Walk(kind, n), lo, hi, k)
    requires idx > 0 && At(n, path).cells[idx].key == k && !OnEntry(kind, n, path, idx)
    ensures Bounds(Walk(kind, n), Start(kind, n, path, idx), hi, k)
  {
    hide Walk, PreAt, Bounds, Sorted, Rank, Start;
    RankItem(kind, n, path, idx);
    RankItem(kind, n, path, idx - 1);
    NextCell(kind, n, path, idx - 1);
    StartToRank(kind, n, path, idx);
    InOrder(Walk(kind, n), Rank(kind, n, path, idx - 1), Rank(kind, n, path, idx));
    RaiseLower(Walk(kind, n), lo, hi, Rank(kind, n, path, idx - 1), k);
  }

  lemma StartToRank(kind: Kind, n: Node, path: Path, i: nat)
    requires ValidPath(n, path) && Shaped(At(n, path)) && i <= |At(n, path).cells|
    ensures Start(kind, n, path, i) <= Rank(kind, n, path, i)
  {
  }

  lemma InOrder(w: seq<Item>, i: nat, j: nat)
    requires Sorted(w) && i < j < |w|
    ensures Before(w[i], w[j])
  {
  }

  /** The key beyond the last entry belongs at the end. */
  lemma PastLast(kind: Kind, u: nat, n: Node, h: nat, path: Path, ix: nat, k: Key)
    requires kind.Table? && OnEntry(kind, n, path, ix) && Sorted(Walk(kind, n))
    requires Rank(kind, n, path, ix) + 1 == |Walk(kind, n)| && At(n, path).cells[ix].key < k
    ensures Sought(kind, n, path, ix, -1, k)
  {
    hide Walk, PreAt, Start, Rank, Sorted, Bounds;
    RankItem(kind, n, path, ix);
    NoBounds(Walk(kind, n), k);
    RaiseLower(Walk(kind, n), 0, |Walk(kind, n)|, Rank(kind, n, path, ix), k);
  }

  lemma OnLeaf(kind: Kind, n: Node, path: Path, lwr: nat, ix: nat, c: int)
    requires ValidPath(n, path) && Shaped(At(n, path)) && lwr <= |At(n, path).cells| && At(n, path).leaf && ix < |At(n, path).cells|
    requires lwr == ix + if c < 0 then 1 else 0
    ensures Rank(kind, n, path, lwr) == Start(kind, n, path, lwr) == Rank(kind, n, path, ix) + if c < 0 then 1 else 0
  {
    LeafRank(kind, n, path, lwr);
  }

  lemma FirstPos(kind: Kind, n: Node, path: Path, ix: nat)
    requires OnEntry(kind, n, path, ix) && Rank(kind, n, path, ix) == 0
    ensures Pos(kind, n, path, ix) == 0
  {
  }

  lemma LastPos(kind: Kind, n: Node, path: Path, ix: nat)
    requires OnEntry(kind, n, path, ix) && Rank(kind, n, path, ix) + 1 == |Walk(kind, n)|
    ensures Pos(kind, n, path, ix) + 1 == |Entries(Walk(kind, n))|
  {
    hide Walk, Rank;
    var w, r := Walk(kind, n), Rank(kind, n, path, ix);
    RankItem(kind, n, path, ix);
    EntriesStep(w, r);
    EntriesEnds(w, r);
  }
}
