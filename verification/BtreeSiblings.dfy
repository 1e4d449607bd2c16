/** Neighbouring pages read as one run of cells, and cut into pages again. */
module BtreeSiblings {
  import opened BtreeNode
  import opened BtreeShape
  import opened BtreePacking
  import opened BtreePath

  // ----- groups of cells -----

  /** All cells of the groups in order; the dividers take part unless the groups are the leaves of a table. */
  function Join(leafData: bool, groups: seq<seq<Cell>>, divs: seq<Cell>): seq<Cell>
    requires |groups| == |divs| + 1
    decreases |groups|
  {
    if |groups| == 1 then groups[0]
    else groups[0] + (if leafData then [] else [divs[0]]) + Join(leafData, groups[1..], divs[1..])
  }

  lemma {:induction false} JoinAppend(leafData: bool, g: seq<seq<Cell>>, d: seq<Cell>, c: Cell, g': seq<seq<Cell>>, d': seq<Cell>)
    requires |g| == |d| + 1 && |g'| == |d'| + 1
    ensures Join(leafData, g + g', d + [c] + d')
            == Join(leafData, g, d) + (if leafData then [] else [c]) + Join(leafData, g', d')
    decreases |g|
  {
    assert (g + g')[1..] == g[1..] + g';
    if |g| == 1 {
      assert (d + [c] + d')[1..] == d';
      assert g[1..] + g' == g';
    } else {
      assert (d + [c] + d')[1..] == d[1..] + [c] + d';
      JoinAppend(leafData, g[1..], d[1..], c, g', d');
    }
  }

  function ShiftAll(w: seq<nat>, d: nat): (r: seq<nat>)
    ensures |r| == |w|
    ensures forall i :: 0 <= i < |w| ==> r[i] == w[i] + d
  {
    seq(|w|, i requires 0 <= i < |w| => w[i] + d)
  }

  /** The cut points that separate the groups. */
  function Cuts(leafData: bool, groups: seq<seq<Cell>>): (w: seq<nat>)
    ensures |w| == |groups|
  {
    if groups == [] then []
    else [|groups[0]|] + ShiftAll(Cuts(leafData, groups[1..]), |groups[0]| + Gap(leafData))
  }

  ghost predicate EachFits(leaf: bool, groups: seq<seq<Cell>>, room: int) {
    forall i :: 0 <= i < |groups| ==> Used(leaf, groups[i]) <= room
  }

  /** One more page in front of a partition. */
  lemma PrependPart(sz: seq<nat>, room: nat, leafData: bool, c: nat, sz': seq<nat>, w': seq<nat>)
    requires Partition(sz', room, leafData, w') && |sz| == c + Gap(leafData) + |sz'|
    requires Span(sz, 0, c) <= room
    requires forall i :: 0 <= i < |sz'| ==> sz'[i] == sz[i + (c + Gap(leafData))]
    ensures Partition(sz, room, leafData, [c] + ShiftAll(w', c + Gap(leafData)))
  {
    var d := c + Gap(leafData);
    var w := [c] + ShiftAll(w', d);
    forall j | 0 <= j < |w| ensures PageFitsAt(sz, room, leafData, w, j) {
      if j > 0 {
        assert PageFitsAt(sz', room, leafData, w', j - 1);
        SpanShift(sz', sz, Start(w', leafData, j - 1), w'[j - 1], d);
      }
    }
  }

  lemma FrontPart(leaf: bool, leafData: bool, g: seq<Cell>, m: seq<Cell>, rest: seq<Cell>, room: nat, w': seq<nat>)
    requires |m| == Gap(leafData) && Used(leaf, g) <= room
    requires Partition(Sizes(leaf, rest), room, leafData, w')
    ensures Partition(Sizes(leaf, g + m + rest), room, leafData, [|g|] + ShiftAll(w', |g| + Gap(leafData)))
  {
    var all := g + m + rest;
    UsedSlice(leaf, all, 0, |g|);
    assert all[0..|g|] == g;
    PrependPart(Sizes(leaf, all), room, leafData, |g|, Sizes(leaf, rest), w');
  }

  /** Groups that fit on pages are a partition of their joined cells. */
  lemma {:induction false} JoinPartition(leaf: bool, leafData: bool, groups: seq<seq<Cell>>, divs: seq<Cell>, room: nat)
    requires |groups| == |divs| + 1 && EachFits(leaf, groups, room)
    ensures Partition(Sizes(leaf, Join(leafData, groups, divs)), room, leafData, Cuts(leafData, groups))
    decreases |groups|
  {
    if |groups| == 1 {
      assert Cuts(leafData, groups) == [|groups[0]|];
    } else {
      JoinPartition(leaf, leafData, groups[1..], divs[1..], room);
      FrontPart(leaf, leafData, groups[0], if leafData then [] else [divs[0]], Join(leafData, groups[1..], divs[1..]), room,
                Cuts(leafData, groups[1..]));
    }
  }

  // ----- sibling pages as groups -----

  function CellsOf(sibs: seq<Node>): (r: seq<seq<Cell>>)
    ensures |r| == |sibs|
    ensures forall i :: 0 <= i < |sibs| ==> r[i] == sibs[i].cells
  {
    seq(|sibs|, i requires 0 <= i < |sibs| => sibs[i].cells)
  }

  function KidsOf(sibs: seq<Node>): seq<Node> {
    if sibs == [] then [] else sibs[0].kids + KidsOf(sibs[1..])
  }

  ghost predicate Alike(sibs: seq<Node>, leaf: bool) {
    forall i :: 0 <= i < |sibs| ==> Shaped(sibs[i]) && sibs[i].leaf == leaf
  }

  lemma CellsOfTail(sibs: seq<Node>)
    requires sibs != []
    ensures CellsOf(sibs)[1..] == CellsOf(sibs[1..])
  {
  }

  /** The walk over leaves of an index, and over interior pages, is that of all their cells and children. */
  lemma {:induction false} JoinWalk(kind: Kind, sibs: seq<Node>, divs: seq<Cell>, leaf: bool)
    requires |sibs| == |divs| + 1 && Alike(sibs, leaf) && !(kind.Table? && leaf)
    ensures var all := Join(false, CellsOf(sibs), divs);
            && Weave(kind, divs, Walks(kind, sibs)) == (if leaf then Ents(all) else Weave(kind, all, Walks(kind, KidsOf(sibs))))
            && (!leaf ==> |KidsOf(sibs)| == |all| + 1)
    decreases |sibs|
  {
    CellsOfTail(sibs);
    var all := Join(false, CellsOf(sibs), divs);
    if |sibs| == 1 {
      assert KidsOf(sibs) == sibs[0].kids;
    } else {
      JoinWalk(kind, sibs[1..], divs[1..], leaf);
      var rest := Join(false, CellsOf(sibs[1..]), divs[1..]);
      assert Walks(kind, sibs)[1..] == Walks(kind, sibs[1..]);
      if leaf {
        assert Ents(all) == Ents(sibs[0].cells) + [Ent(divs[0])] + Ents(rest);
      } else {
        WalksAppend(kind, sibs[0].kids, KidsOf(sibs[1..]));
        WeaveAppend(kind, sibs[0].cells, Walks(kind, sibs[0].kids), divs[0], rest, Walks(kind, KidsOf(sibs[1..])));
      }
    }
  }

  /** The entries on a run of table leaves are their cells. */
  lemma {:induction false} JoinEntries(sibs: seq<Node>, divs: seq<Cell>)
    requires |sibs| == |divs| + 1 && Alike(sibs, true)
    ensures Entries(Weave(Table, divs, Walks(Table, sibs))) == Join(true, CellsOf(sibs), divs)
    decreases |sibs|
  {
    CellsOfTail(sibs);
    EntriesOfEnts(sibs[0].cells);
    if |sibs| > 1 {
      JoinEntries(sibs[1..], divs[1..]);
      assert Walks(Table, sibs)[1..] == Walks(Table, sibs[1..]);
      var rest := Weave(Table, divs[1..], Walks(Table, sibs[1..]));
      EntriesAppend(Ents(sibs[0].cells) + [Div(divs[0])], rest);
      EntriesAppend(Ents(sibs[0].cells), [Div(divs[0])]);
      assert Entries([Div(divs[0])]) == [] by { assert [Div(divs[0])][..0] == []; }
    }
  }

  // ----- room: however full the siblings are, five pages always do -----

  function Room(u: nat, leaf: bool): int { u - if leaf then 8 else 12 }

  lemma CellsSmall(kind: Kind, u: nat, leaf: bool, cells: seq<Cell>)
    requires u >= MIN_USABLE && GoodCells(kind, u, leaf, cells)
    ensures SmallCells(Sizes(leaf, cells), Room(u, leaf), kind.Table? && leaf)
  {
  }

  lemma JoinTwo(leafData: bool, l: seq<Cell>, c: Cell, r: seq<Cell>)
    ensures Join(leafData, [l, r], [c]) == l + (if leafData then [] else [c]) + r
  {
    assert [l, r][1..] == [r];
  }

  lemma JoinThree(leafData: bool, l: seq<Cell>, c: Cell, m: seq<Cell>, d: Cell, r: seq<Cell>)
    ensures Join(leafData, [l, m, r], [c, d])
            == l + (if leafData then [] else [c]) + (m + (if leafData then [] else [d]) + r)
  {
    JoinTwo(leafData, m, d, r);
    assert [l, m, r][1..] == [m, r] && [c, d][1..] == [d];
  }

  lemma ThreeFit(leaf: bool, l: seq<Cell>, m: seq<Cell>, r: seq<Cell>, room: int)
    requires Used(leaf, l) <= room && Used(leaf, m) <= room && Used(leaf, r) <= room
    ensures EachFits(leaf, [l, m, r], room) && EachFits(leaf, [l, r], room)
  {
  }

  lemma LeftoverFits(u: nat, n: Node)
    requires OvflInRange(n) && NFree(u, n) >= 0 && n.pgno > 1
    ensures Used(n.leaf, n.cells[..n.ovAt]) <= Room(u, n.leaf)
    ensures Used(n.leaf, n.cells[n.ovAt + n.nOv..]) <= Room(u, n.leaf)
    ensures n.nOv == 0 ==> Used(n.leaf, n.cells) <= Room(u, n.leaf)
  {
    UsedAppend(n.leaf, n.cells[..n.ovAt], n.cells[n.ovAt + n.nOv..]);
    if n.nOv == 0 { OnPageAll(n); }
  }

  /** An overfull page as groups that fit: what is left of its overflow cells, these, and what is right of them. */
  lemma OverfullGroups(kind: Kind, u: nat, n: Node) returns (g: seq<seq<Cell>>, d: seq<Cell>)
    requires u >= MIN_USABLE && PageFits(kind, u, n, if kind.Table? && n.leaf then 1 else 4) && n.pgno > 1
    ensures |g| == |d| + 1 <= 3 && EachFits(n.leaf, g, Room(u, n.leaf)) && Join(kind.Table? && n.leaf, g, d) == n.cells
  {
    LeftoverFits(u, n);
    CellsSmall(kind, u, n.leaf, n.cells);
    g, d := GroupCells(n.leaf, kind.Table? && n.leaf, n.cells, n.ovAt, n.nOv, Room(u, n.leaf));
  }

  lemma GroupCells(leaf: bool, leafData: bool, cells: seq<Cell>, a: nat, n: nat, room: nat) returns (g: seq<seq<Cell>>, d: seq<Cell>)
    requires n <= (if leafData then 1 else 4) && a + n <= |cells| && SmallCells(Sizes(leaf, cells), room, leafData)
    requires Used(leaf, cells[..a]) <= room && Used(leaf, cells[a + n..]) <= room
    requires n == 0 ==> Used(leaf, cells) <= room
    ensures |g| == |d| + 1 <= 3 && EachFits(leaf, g, room) && Join(leafData, g, d) == cells
  {
    if n == 0 {
      g, d := OneGroup(leaf, leafData, cells, room);
    } else if n == 1 {
      g, d := OverfullOne(leaf, leafData, cells, a, room);
    } else {
      g, d := OverfullMany(leaf, cells, a, n, room);
    }
  }

  lemma OneGroup(leaf: bool, leafData: bool, cells: seq<Cell>, room: int) returns (g: seq<seq<Cell>>, d: seq<Cell>)
    requires Used(leaf, cells) <= room
    ensures |g| == |d| + 1 <= 3 && EachFits(leaf, g, room) && Join(leafData, g, d) == cells
  {
    g, d := [cells], [];
  }

  lemma OverfullOne(leaf: bool, leafData: bool, cells: seq<Cell>, a: nat, room: nat) returns (g: seq<seq<Cell>>, d: seq<Cell>)
    requires a < |cells| && SmallCells(Sizes(leaf, cells), room, leafData)
    requires Used(leaf, cells[..a]) <= room && Used(leaf, cells[a + 1..]) <= room
    ensures |g| == |d| + 1 <= 3 && EachFits(leaf, g, room) && Join(leafData, g, d) == cells
  {
    var l, c, r := cells[..a], cells[a], cells[a + 1..];
    assert Sizes(leaf, cells)[a] == Size(leaf, c);
    UsedOne(leaf, c);
    g, d := GroupAround(leaf, leafData, cells, l, c, r, room);
  }

  lemma GroupAround(leaf: bool, leafData: bool, cells: seq<Cell>, l: seq<Cell>, c: Cell, r: seq<Cell>, room: nat)
    returns (g: seq<seq<Cell>>, d: seq<Cell>)
    requires cells == l + [c] + r && Used(leaf, l) <= room && Used(leaf, r) <= room && Used(leaf, [c]) <= room
    ensures |g| == |d| + 1 <= 3 && EachFits(leaf, g, room) && Join(leafData, g, d) == cells
  {
    hide Join, EachFits;
    ThreeFit(leaf, l, [c], r, room);
    if leafData {
      JoinThree(leafData, l, c, [c], c, r);
      g, d := [l, [c], r], [c, c];
    } else {
      ThreeFit(leaf, l, l, r, room);
      JoinTwo(leafData, l, c, r);
      g, d := [l, r], [c];
    }
  }

  lemma OverfullMany(leaf: bool, cells: seq<Cell>, a: nat, n: nat, room: nat) returns (g: seq<seq<Cell>>, d: seq<Cell>)
    requires 2 <= n <= 4 && a + n <= |cells| && SmallCells(Sizes(leaf, cells), room, false)
    requires Used(leaf, cells[..a]) <= room && Used(leaf, cells[a + n..]) <= room
    ensures |g| == |d| + 1 <= 3 && EachFits(leaf, g, room) && Join(false, g, d) == cells
  {
    hide Used, Sizes, SmallCells, EachFits, Join;
    var l, m, r := cells[..a], cells[a + 1..a + n - 1], cells[a + n..];
    var c, c' := cells[a], cells[a + n - 1];
    assert Used(leaf, m) <= room by { FewCellsFit(leaf, cells, a + 1, a + n - 1, room); }
    assert cells == l + [c] + (m + [c'] + r) by { CutTwice(cells, a, a + n, m); }
    g, d := GroupMiddle(leaf, cells, l, c, m, c', r, room);
  }

  lemma GroupMiddle(leaf: bool, cells: seq<Cell>, l: seq<Cell>, c: Cell, m: seq<Cell>, c': Cell, r: seq<Cell>, room: nat)
    returns (g: seq<seq<Cell>>, d: seq<Cell>)
    requires cells == l + [c] + (m + [c'] + r) && Used(leaf, l) <= room && Used(leaf, m) <= room && Used(leaf, r) <= room
    ensures |g| == |d| + 1 <= 3 && EachFits(leaf, g, room) && Join(false, g, d) == cells
  {
    hide Join, EachFits;
    JoinThree(false, l, c, m, c', r);
    ThreeFit(leaf, l, m, r, room);
    g, d := [l, m, r], [c, c'];
  }

  lemma CutTwice<T>(s: seq<T>, a: nat, b: nat, m: seq<T>)
    requires a + 2 <= b <= |s| && m == s[a + 1..b - 1]
    ensures s == s[..a] + [s[a]] + (m + [s[b - 1]] + s[b..])
  {
  }

  lemma FewCellsFit(leaf: bool, cells: seq<Cell>, a: nat, b: nat, room: nat)
    requires a <= b <= |cells| && b <= a + 2 && SmallCells(Sizes(leaf, cells), room, false)
    ensures Used(leaf, cells[a..b]) <= room
  {
    var sz := Sizes(leaf, cells);
    UsedSlice(leaf, cells, a, b);
    if b == a + 1 {
      SpanEnds(sz, a, b);
    } else if b == a + 2 {
      SpanEnds(sz, a, b);
      SpanEnds(sz, a + 1, b);
    }
  }

  /** Sibling pages of which only number x may be overfull. */
  ghost predicate Siblings(kind: Kind, u: nat, sibs: seq<Node>, leaf: bool, x: nat) {
    && Alike(sibs, leaf)
    && forall i :: 0 <= i < |sibs| ==>
         sibs[i].pgno > 1 && PageFits(kind, u, sibs[i], if i != x then 0 else if kind.Table? && leaf then 1 else 4)
  }

  /** However full the siblings are, two pages more than their number can hold all their cells. */
  lemma {:induction false} SiblingGroups(kind: Kind, u: nat, sibs: seq<Node>, divs: seq<Cell>, leaf: bool, x: nat)
    returns (g: seq<seq<Cell>>, d: seq<Cell>)
    requires u >= MIN_USABLE && |sibs| == |divs| + 1 && x < |sibs| && Siblings(kind, u, sibs, leaf, x)
    ensures |g| == |d| + 1 <= |sibs| + 2 && EachFits(leaf, g, Room(u, leaf))
    ensures Join(kind.Table? && leaf, g, d) == Join(kind.Table? && leaf, CellsOf(sibs), divs)
    decreases x
  {
    hide Siblings, EachFits, PageFits, Used;
    var leafData := kind.Table? && leaf;
    CellsOfTail(sibs);
    SiblingFits(kind, u, sibs, leaf, x);
    if x == 0 {
      var g0, d0 := OverfullGroups(kind, u, sibs[0]);
      if |sibs| == 1 {
        g, d := g0, d0;
      } else {
        SoundTail(kind, u, sibs, leaf, x);
        JoinAppend(leafData, g0, d0, divs[0], CellsOf(sibs[1..]), divs[1..]);
        g, d := g0 + CellsOf(sibs[1..]), d0 + [divs[0]] + divs[1..];
        GroupsFitAppend(leaf, g0, CellsOf(sibs[1..]), Room(u, leaf));
      }
    } else {
      SiblingsTail(kind, u, sibs, leaf, x);
      var g1, d1 := SiblingGroups(kind, u, sibs[1..], divs[1..], leaf, x - 1);
      AloneFits(kind, u, sibs[0]);
      JoinAppend(leafData, [sibs[0].cells], [], divs[0], g1, d1);
      g, d := [sibs[0].cells] + g1, [] + [divs[0]] + d1;
      GroupsFitAppend(leaf, [sibs[0].cells], g1, Room(u, leaf));
    }
  }

  lemma SiblingsTail(kind: Kind, u: nat, sibs: seq<Node>, leaf: bool, x: nat)
    requires sibs != [] && Siblings(kind, u, sibs, leaf, x) && x > 0
    ensures Siblings(kind, u, sibs[1..], leaf, x - 1)
  {
    hide PageFits;
  }

  lemma SiblingFits(kind: Kind, u: nat, sibs: seq<Node>, leaf: bool, x: nat)
    requires sibs != [] && Siblings(kind, u, sibs, leaf, x)
    ensures sibs[0].leaf == leaf && sibs[0].pgno > 1
    ensures PageFits(kind, u, sibs[0], if x > 0 then 0 else if kind.Table? && leaf then 1 else 4)
  {
    hide PageFits;
  }

  lemma AloneFits(kind: Kind, u: nat, n: Node)
    requires PageFits(kind, u, n, 0) && n.pgno > 1
    ensures EachFits(n.leaf, [n.cells], Room(u, n.leaf))
  {
    LeftoverFits(u, n);
  }

  lemma SoundTail(kind: Kind, u: nat, sibs: seq<Node>, leaf: bool, x: nat)
    requires sibs != [] && Siblings(kind, u, sibs, leaf, x) && x == 0
    ensures EachFits(leaf, CellsOf(sibs[1..]), Room(u, leaf))
  {
    forall i | 0 < i < |sibs| ensures Used(leaf, sibs[i].cells) <= Room(u, leaf) { LeftoverFits(u, sibs[i]); }
  }

  lemma GroupsFitAppend(leaf: bool, a: seq<seq<Cell>>, b: seq<seq<Cell>>, room: int)
    requires EachFits(leaf, a, room) && EachFits(leaf, b, room)
    ensures EachFits(leaf, a + b, room)
  {
  }

  // ----- pages cut from a run of cells -----

  /** Pages and dividers that split the cells, and children, at the cut points. */
  ghost predicate IsCut(leaf: bool, leafData: bool, all: seq<Cell>, kids: seq<Node>, cnt: seq<nat>, sibs: seq<Node>, divs: seq<Cell>) {
    && |sibs| == |cnt| == |divs| + 1 && cnt[|cnt| - 1] == |all|
    && (leaf ==> kids == []) && (!leaf ==> |kids| == |all| + 1 && !leafData)
    && (forall i :: 0 <= i < |cnt| ==> CutPage(leaf, leafData, all, kids, cnt, i, sibs[i]))
    && (forall i :: 0 <= i < |divs| ==> CutDivider(leafData, all, cnt[i], divs[i]))
  }

  ghost predicate CutPage(leaf: bool, leafData: bool, all: seq<Cell>, kids: seq<Node>, cnt: seq<nat>, i: nat, n: Node)
    requires i < |cnt| && (!leaf ==> |kids| == |all| + 1)
  {
    && Start(cnt, leafData, i) <= cnt[i] <= |all|
    && n.cells == all[Start(cnt, leafData, i)..cnt[i]]
    && n.kids == (if leaf then [] else kids[Start(cnt, leafData, i)..cnt[i] + 1])
    && n.leaf == leaf && n.nOv == 0 && n.ovAt == 0 && n.lost == 0
  }

  /** On table leaves the divider repeats the key of the last entry on its left, elsewhere it is a cell of its own. */
  ghost predicate CutDivider(leafData: bool, all: seq<Cell>, c: nat, d: Cell) {
    if leafData then 0 < c <= |all| && d == DividerOf(all[c - 1]) else c < |all| && d == all[c]
  }

  lemma CutAlike(leaf: bool, leafData: bool, all: seq<Cell>, kids: seq<Node>, cnt: seq<nat>, sibs: seq<Node>, divs: seq<Cell>)
    requires IsCut(leaf, leafData, all, kids, cnt, sibs, divs)
    ensures Alike(sibs, leaf)
  {
    forall i | 0 <= i < |sibs| ensures Shaped(sibs[i]) && sibs[i].leaf == leaf {
      assert CutPage(leaf, leafData, all, kids, cnt, i, sibs[i]);
    }
  }

  lemma JoinStep(leafData: bool, sibs: seq<Node>, divs: seq<Cell>, i: nat)
    requires |sibs| == |divs| + 1 && i < |sibs|
    ensures Join(leafData, CellsOf(sibs[i..]), divs[i..])
            == if i == |divs| then sibs[i].cells
               else sibs[i].cells + (if leafData then [] else [divs[i]]) + Join(leafData, CellsOf(sibs[i + 1..]), divs[i + 1..])
  {
    CellsOfTail(sibs[i..]);
    TailTail(sibs, i);
    if i < |divs| { TailTail(divs, i); }
  }

  /** Read again from page i on, the pages give back the cells. */
  lemma {:induction false} CutJoinCells(leaf: bool, leafData: bool, all: seq<Cell>, kids: seq<Node>, cnt: seq<nat>, sibs: seq<Node>,
                                        divs: seq<Cell>, i: nat)
    requires IsCut(leaf, leafData, all, kids, cnt, sibs, divs) && i < |cnt|
    ensures Start(cnt, leafData, i) <= |all|
    ensures Join(leafData, CellsOf(sibs[i..]), divs[i..]) == all[Start(cnt, leafData, i)..]
    decreases |cnt| - i
  {
    hide Join, CellsOf, IsCut, Start;
    CutAt(leaf, leafData, all, kids, cnt, sibs, divs, i);
    JoinStep(leafData, sibs, divs, i);
    if i + 1 < |cnt| {
      CutJoinCells(leaf, leafData, all, kids, cnt, sibs, divs, i + 1);
      if leafData { Rejoin(all, Start(cnt, leafData, i), cnt[i]); }
      else { RejoinMid(all, Start(cnt, leafData, i), cnt[i]); }
    }
  }

  lemma CutAt(leaf: bool, leafData: bool, all: seq<Cell>, kids: seq<Node>, cnt: seq<nat>, sibs: seq<Node>, divs: seq<Cell>, i: nat)
    requires IsCut(leaf, leafData, all, kids, cnt, sibs, divs) && i < |cnt|
    ensures |sibs| == |cnt| == |divs| + 1
    ensures Start(cnt, leafData, i) <= cnt[i] <= |all| && sibs[i].cells == all[Start(cnt, leafData, i)..cnt[i]]
    ensures if i + 1 == |cnt| then cnt[i] == |all|
            else Start(cnt, leafData, i + 1) == (if leafData then cnt[i] else cnt[i] + 1) && (!leafData ==> cnt[i] < |all| && divs[i] == all[cnt[i]])
  {
    assert CutPage(leaf, leafData, all, kids, cnt, i, sibs[i]);
    if i + 1 < |cnt| { assert CutDivider(leafData, all, cnt[i], divs[i]); }
  }

  /** ... and the children. */
  lemma {:induction false} CutJoinKids(all: seq<Cell>, kids: seq<Node>, cnt: seq<nat>, sibs: seq<Node>, divs: seq<Cell>, i: nat)
    requires IsCut(false, false, all, kids, cnt, sibs, divs) && i < |cnt|
    ensures Start(cnt, false, i) <= |kids| && KidsOf(sibs[i..]) == kids[Start(cnt, false, i)..]
    decreases |cnt| - i
  {
    assert CutPage(false, false, all, kids, cnt, i, sibs[i]);
    TailTail(sibs, i);
    if i + 1 < |cnt| {
      CutJoinKids(all, kids, cnt, sibs, divs, i + 1);
      Rejoin(kids, Start(cnt, false, i), cnt[i] + 1);
    } else {
      assert KidsOf(sibs[i..]) == sibs[i].kids + KidsOf(sibs[i..][1..]);
    }
  }

  /** All pages read again give back the cells and the children. */
  lemma CutJoin(leaf: bool, leafData: bool, all: seq<Cell>, kids: seq<Node>, cnt: seq<nat>, sibs: seq<Node>, divs: seq<Cell>)
    requires IsCut(leaf, leafData, all, kids, cnt, sibs, divs)
    ensures Join(leafData, CellsOf(sibs), divs) == all && (!leaf ==> KidsOf(sibs) == kids)
  {
    CutJoinCells(leaf, leafData, all, kids, cnt, sibs, divs, 0);
    WholeSlice(sibs);
    WholeSlice(divs);
    WholeSlice(all);
    if !leaf {
      CutJoinKids(all, kids, cnt, sibs, divs, 0);
      WholeSlice(kids);
    }
  }

  lemma WholeSlice<T>(s: seq<T>)
    ensures s[0..] == s
  {
  }

  lemma TailTail<T>(s: seq<T>, i: nat)
    requires i < |s|
    ensures s[i..][1..] == s[i + 1..] && s[i..][0] == s[i]
  {
  }

  lemma Rejoin<T>(s: seq<T>, a: nat, b: nat)
    requires a <= b <= |s|
    ensures s[a..b] + [] + s[b..] == s[a..] == s[a..b] + s[b..]
  {
  }

  lemma RejoinMid<T>(s: seq<T>, a: nat, b: nat)
    requires a <= b < |s|
    ensures s[a..b] + [s[b]] + s[b + 1..] == s[a..]
  {
  }

  // ----- what re-cutting conserves -----

  /** On index leaves and interior pages, cutting anew does not change the walk. */
  lemma CutWalk(kind: Kind, leaf: bool, old_: seq<Node>, oldDivs: seq<Cell>, all: seq<Cell>, kids: seq<Node>,
                cnt: seq<nat>, sibs: seq<Node>, divs: seq<Cell>)
    requires |old_| == |oldDivs| + 1 && Alike(old_, leaf) && !(kind.Table? && leaf)
    requires all == Join(false, CellsOf(old_), oldDivs) && kids == if leaf then [] else KidsOf(old_)
    requires IsCut(leaf, false, all, kids, cnt, sibs, divs)
    ensures Weave(kind, divs, Walks(kind, sibs)) == Weave(kind, oldDivs, Walks(kind, old_))
  {
    JoinWalk(kind, old_, oldDivs, leaf);
    CutAlike(leaf, false, all, kids, cnt, sibs, divs);
    JoinWalk(kind, sibs, divs, leaf);
    CutJoin(leaf, false, all, kids, cnt, sibs, divs);
  }

  /** On table leaves, cutting anew keeps the entries and makes dividers that repeat the key on their left. */
  lemma CutEntries(old_: seq<Node>, oldDivs: seq<Cell>, all: seq<Cell>, cnt: seq<nat>, sibs: seq<Node>, divs: seq<Cell>)
    requires |old_| == |oldDivs| + 1 && Alike(old_, true)
    requires all == Join(true, CellsOf(old_), oldDivs)
    requires IsCut(true, true, all, [], cnt, sibs, divs)
    requires |cnt| == 1 || NoEmptyPage(true, cnt)
    ensures Entries(Weave(Table, divs, Walks(Table, sibs))) == Entries(Weave(Table, oldDivs, Walks(Table, old_)))
    ensures Backed(Weave(Table, divs, Walks(Table, sibs)))
  {
    JoinEntries(old_, oldDivs);
    CutAlike(true, true, all, [], cnt, sibs, divs);
    JoinEntries(sibs, divs);
    CutJoin(true, true, all, [], cnt, sibs, divs);
    if |cnt| == 1 {
      assert Weave(Table, divs, Walks(Table, sibs)) == Ents(sibs[0].cells);
    } else {
      CutRepeats(all, cnt, sibs, divs);
      RepeatsBacked(sibs, divs);
    }
  }

  /** Table leaves none of which is empty, each divider repeating the last key on its left. */
  ghost predicate DividersRepeat(sibs: seq<Node>, divs: seq<Cell>) {
    && |sibs| == |divs| + 1
    && (forall i :: 0 <= i < |sibs| ==> sibs[i].leaf && sibs[i].cells != [])
    && forall i :: 0 <= i < |divs| ==> divs[i].key == sibs[i].cells[|sibs[i].cells| - 1].key
  }

  lemma PageLast(all: seq<Cell>, cnt: seq<nat>, i: nat, n: Node)
    requires i < |cnt| && CutPage(true, true, all, [], cnt, i, n) && Start(cnt, true, i) < cnt[i]
    ensures n.leaf && n.cells != [] && cnt[i] <= |all| && n.cells[|n.cells| - 1] == all[cnt[i] - 1]
  {
    LastOfSlice(all, Start(cnt, true, i), cnt[i]);
  }

  lemma DividerKey(all: seq<Cell>, c: nat, d: Cell)
    requires CutDivider(true, all, c, d)
    ensures 0 < c <= |all| && d.key == all[c - 1].key
  {
  }

  lemma CutRepeats(all: seq<Cell>, cnt: seq<nat>, sibs: seq<Node>, divs: seq<Cell>)
    requires IsCut(true, true, all, [], cnt, sibs, divs) && NoEmptyPage(true, cnt)
    ensures DividersRepeat(sibs, divs)
  {
    hide CutPage, CutDivider;
    forall i | 0 <= i < |sibs|
      ensures sibs[i].leaf && sibs[i].cells != []
      ensures i < |divs| ==> divs[i].key == sibs[i].cells[|sibs[i].cells| - 1].key
    {
      assert CutPage(true, true, all, [], cnt, i, sibs[i]);
      PageLast(all, cnt, i, sibs[i]);
      if i < |divs| {
        assert CutDivider(true, all, cnt[i], divs[i]);
        DividerKey(all, cnt[i], divs[i]);
      }
    }
  }

  lemma {:induction false} RepeatsBacked(sibs: seq<Node>, divs: seq<Cell>)
    requires DividersRepeat(sibs, divs)
    ensures var w := Weave(Table, divs, Walks(Table, sibs)); w != [] && Backed(w)
    decreases |sibs|
  {
    if |sibs| == 1 {
      assert Weave(Table, divs, Walks(Table, sibs)) == Ents(sibs[0].cells);
    } else {
      RepeatsBacked(sibs[1..], divs[1..]);
      assert Walks(Table, sibs)[1..] == Walks(Table, sibs[1..]);
      BackedFront(sibs[0].cells, divs[0], Weave(Table, divs[1..], Walks(Table, sibs[1..])));
    }
  }

  lemma LastOfSlice<T>(s: seq<T>, a: nat, b: nat)
    requires a < b <= |s|
    ensures s[a..b] != [] && s[a..b][|s[a..b]| - 1] == s[b - 1]
  {
  }

  lemma BackedFront(cells: seq<Cell>, d: Cell, b: seq<Item>)
    requires cells != [] && d.key == cells[|cells| - 1].key && b != [] && Backed(b)
    ensures Backed(Ents(cells) + [Div(d)] + b)
  {
    var a := Ents(cells);
    var w := a + [Div(d)] + b;
    forall i | 0 <= i < |w| && w[i].Div? ensures 0 < i && w[i - 1].Ent? && w[i - 1].cell.key == w[i].cell.key {
      if i > |a| {
        assert b[i - |a| - 1] == w[i];
        assert w[i - 1] == b[i - |a| - 2];
      }
    }
  }

  lemma SliceSound(kind: Kind, u: nat, h: nat, all: seq<Cell>, kids: seq<Node>, a: nat, b: nat, n: Node)
    requires u >= MIN_USABLE && (n.leaf <==> h == 0) && GoodCells(kind, u, n.leaf, all) && n.pgno > 1 && a <= b <= |all|
    requires h > 0 ==> ForestOk(kind, u, kids, h - 1) && |kids| == |all| + 1
    requires n.cells == all[a..b] && n.kids == (if n.leaf then [] else kids[a..b + 1]) && n.nOv == 0 && n.ovAt == 0 && n.lost == 0
    requires Used(n.leaf, n.cells) <= Room(u, n.leaf)
    ensures PageTree(kind, u, n, h)
  {
    hide GoodCells, ForestOk, NFree, Used, OnPage;
    FreeWithoutOverflow(u, n);
    GoodSlice(kind, u, n.leaf, all, a, b);
    if h > 0 { ForestSlice(kind, u, kids, h - 1, a, b + 1); }
  }

  lemma GoodSlice(kind: Kind, u: nat, leaf: bool, all: seq<Cell>, a: nat, b: nat)
    requires GoodCells(kind, u, leaf, all) && a <= b <= |all|
    ensures GoodCells(kind, u, leaf, all[a..b])
  {
  }

  lemma ForestSlice(kind: Kind, u: nat, kids: seq<Node>, h: nat, a: nat, b: nat)
    requires ForestOk(kind, u, kids, h) && a <= b <= |kids|
    ensures ForestOk(kind, u, kids[a..b], h)
  {
  }

  /** A page that may be empty, above sound children. */
  ghost predicate PageTree(kind: Kind, u: nat, n: Node, h: nat) {
    && PageFits(kind, u, n, 0) && n.pgno > 1 && (n.leaf <==> h == 0)
    && (h > 0 ==> ForestOk(kind, u, n.kids, h - 1))
  }

  /** The new pages fit, and their children are sound. */
  lemma CutSound(kind: Kind, u: nat, h: nat, leaf: bool, all: seq<Cell>, kids: seq<Node>, cnt: seq<nat>, sibs: seq<Node>, divs: seq<Cell>,
                 room: nat)
    requires u >= MIN_USABLE && room == Room(u, leaf) && (leaf <==> h == 0) && GoodCells(kind, u, leaf, all)
    requires h > 0 ==> ForestOk(kind, u, kids, h - 1)
    requires IsCut(leaf, kind.Table? && leaf, all, kids, cnt, sibs, divs)
    requires Partition(Sizes(leaf, all), room, kind.Table? && leaf, cnt)
    requires forall i :: 0 <= i < |sibs| ==> sibs[i].pgno > 1
    ensures forall i :: 0 <= i < |sibs| ==> PageTree(kind, u, sibs[i], h)
    ensures NoEmptyPage(kind.Table? && leaf, cnt) ==> ForestOk(kind, u, sibs, h)
  {
    forall i | 0 <= i < |sibs| ensures PageTree(kind, u, sibs[i], h)
      ensures NoEmptyPage(kind.Table? && leaf, cnt) ==> TreeOk(kind, u, sibs[i], h)
    {
      assert CutPage(leaf, kind.Table? && leaf, all, kids, cnt, i, sibs[i]);
      assert PageFitsAt(Sizes(leaf, all), room, kind.Table? && leaf, cnt, i);
      UsedSlice(leaf, all, Start(cnt, kind.Table? && leaf, i), cnt[i]);
      SliceSound(kind, u, h, all, kids, Start(cnt, kind.Table? && leaf, i), cnt[i], sibs[i]);
    }
  }

  // ----- page numbers -----

  function Pgnos(sibs: seq<Node>): (r: seq<nat>)
    ensures |r| == |sibs|
    ensures forall i :: 0 <= i < |sibs| ==> r[i] == sibs[i].pgno
  {
    seq(|sibs|, i requires 0 <= i < |sibs| => sibs[i].pgno)
  }

  lemma {:induction false} PagesSplit(sibs: seq<Node>)
    ensures PagesOfAll(sibs) == multiset(Pgnos(sibs)) + PagesOfAll(KidsOf(sibs))
    decreases |sibs|
  {
    if sibs != [] {
      PagesSplit(sibs[1..]);
      PagesAppend(sibs[0].kids, KidsOf(sibs[1..]));
      assert Pgnos(sibs) == [sibs[0].pgno] + Pgnos(sibs[1..]);
      BagPairs(multiset{sibs[0].pgno}, PagesOfAll(sibs[0].kids), multiset(Pgnos(sibs[1..])), PagesOfAll(KidsOf(sibs[1..])));
    }
  }

  lemma BagPairs(a: multiset<nat>, b: multiset<nat>, c: multiset<nat>, d: multiset<nat>)
    ensures (a + b) + (c + d) == (a + c) + (b + d)
  {
  }
}
