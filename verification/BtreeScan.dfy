/** Whole passes over a tree with one cursor: to one end, and from there step by step, as the virtual machine does it. */
module BtreeScan {
  import opened BtreeNode
  import opened BtreeShape
  import opened BtreePath
  import opened BtreeRank
  import opened BtreeSeek
  import opened BtreeTree
  import opened BtreeCursor

  /** The number of the entry the cursor is on. */
  ghost function Place(cur: BtCursor): nat
    requires cur.Ok() && cur.eState.Valid?
    reads cur, cur.bt
  {
    Pos(cur.bt.kind, cur.bt.root, cur.path, cur.ix)
  }

  /** The entry itself. */
  method Fetch(cur: BtCursor) returns (c: Cell)
    requires cur.Ok() && cur.eState.Valid?
    ensures Place(cur) < |cur.bt.Contents()| && c == cur.bt.Contents()[Place(cur)]
  {
    c := At(cur.bt.root, cur.path).cells[cur.ix];
  }

  function Backwards<T>(s: seq<T>): (r: seq<T>)
    ensures |r| == |s| && forall i :: 0 <= i < |s| ==> r[i] == s[|s| - 1 - i]
  {
    seq(|s|, i requires 0 <= i < |s| => s[|s| - 1 - i])
  }

  /** First and then Next until the end visits every entry once, in order; but a cursor that still has a skipNext > 0 from an earlier
      restore stays on the first entry for one Next. */
  method ScanForward(cur: BtCursor) returns (visited: seq<Cell>)
    requires cur.bt.Sound()
    modifies cur
    ensures var e := cur.bt.Contents();
      visited == if old(cur.skipNext) > 0 && e != [] then [e[0]] + e else e
  {
    hide RootOk, Sorted, Walk, Entries, Pos, OnEntry, Rank, FirstBeyond;
    ghost var e := cur.bt.Contents();
    ghost var twice: seq<Cell> := if cur.skipNext > 0 && e != [] then [e[0]] else [];
    visited := [];
    var res := cur.First();
    while res == 0
      invariant cur.bt.Sound() && cur.Ok() && !cur.eState.RequireSeek? && res == if cur.eState.Valid? then 0 else 1
      invariant cur.eState.Valid? && cur.skipNext > 0 ==> Place(cur) == 0 && visited == [] && twice == [e[0]]
      invariant cur.eState.Valid? && cur.skipNext <= 0 ==> Place(cur) < |e| && visited == twice + e[..Place(cur)]
      invariant cur.eState.Invalid? ==> visited == twice + e
      decreases if cur.eState.Valid? then |e| - Place(cur) else 0, cur.skipNext
    {
      ghost var p := Place(cur);
      var c := Fetch(cur);
      visited := visited + [c];
      Prefixes(e, p);
      res := cur.Next();
    }
  }

  /** Last and then Previous until the start: the same backwards, and the same with a skipNext < 0. */
  method ScanBackward(cur: BtCursor) returns (visited: seq<Cell>)
    requires cur.bt.Sound() && cur.Ok()
    modifies cur
    ensures var e := cur.bt.Contents();
      visited == Backwards(if old(cur.skipNext) < 0 && e != [] then e + [e[|e| - 1]] else e)
  {
    hide RootOk, Sorted, Walk, Entries, Pos, OnEntry, Rank, LastBefore, DownBefore, Backwards;
    ghost var e := cur.bt.Contents();
    ghost var all := if cur.skipNext < 0 && e != [] then e + [e[|e| - 1]] else e;
    visited := [];
    var res := cur.Last(0);
    while res == 0
      invariant cur.bt.Sound() && cur.Ok() && !cur.eState.RequireSeek? && res == if cur.eState.Valid? then 0 else 1
      invariant cur.eState.Valid? && cur.skipNext < 0 ==> Place(cur) + 1 == |e| && visited == [] && all == e + [e[|e| - 1]]
      invariant cur.eState.Valid? && cur.skipNext >= 0 ==> Place(cur) < |e| && visited == Backwards(all[Place(cur) + 1..])
      invariant cur.eState.Invalid? ==> visited == Backwards(all)
      decreases if cur.eState.Valid? then Place(cur) + 1 else 0, -cur.skipNext
    {
      ghost var p := Place(cur);
      var c := Fetch(cur);
      visited := visited + [c];
      Suffixes(all, p);
      res := cur.Previous();
    }
  }

  lemma Prefixes<T>(e: seq<T>, p: nat)
    requires p < |e|
    ensures e[..p + 1] == e[..p] + [e[p]] && e[..0] == [] && e[..|e|] == e
  {
  }

  lemma Suffixes<T>(e: seq<T>, p: nat)
    requires p < |e|
    ensures Backwards(e[p..]) == Backwards(e[p + 1..]) + [e[p]]
    ensures Backwards(e[|e|..]) == [] && e[0..] == e
  {
  }

  /** Previous undoes Next. */
  method ThereAndBack(cur: BtCursor)
    requires cur.bt.Sound() && cur.Ok() && cur.eState.Valid? && cur.skipNext <= 0 && Place(cur) + 1 < |cur.bt.Contents()|
    modifies cur
    ensures cur.Ok() && cur.eState.Valid? && Place(cur) == old(Place(cur)) && cur.skipNext == 0
  {
    var r := cur.Next();
    r := cur.Previous();
  }
}
