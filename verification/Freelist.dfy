/** The list of free pages: trunk pages in a chain, each with the numbers of further free pages, its leaves. */
module Freelist {
  import opened Arith
  import opened PtrMap

  datatype Trunk = Trunk(next: nat, leaves: seq<nat>)

  datatype Mode = Any | Exact | AtMost

  // ----- the pages on the list -----

  ghost predicate InDomain(order: seq<nat>, trunk: map<nat, Trunk>) {
    forall i :: 0 <= i < |order| ==> order[i] in trunk
  }

  /** All trunks and leaves. */
  ghost function Pages(order: seq<nat>, trunk: map<nat, Trunk>): multiset<nat>
    requires InDomain(order, trunk)
  {
    if order == [] then multiset{}
    else Pages(order[..|order| - 1], trunk) + multiset{order[|order| - 1]} + multiset(trunk[order[|order| - 1]].leaves)
  }

  lemma {:induction false} PagesAppend(a: seq<nat>, b: seq<nat>, trunk: map<nat, Trunk>)
    requires InDomain(a, trunk) && InDomain(b, trunk)
    ensures InDomain(a + b, trunk) && Pages(a + b, trunk) == Pages(a, trunk) + Pages(b, trunk)
    decreases |b|
  {
    if b == [] {
      assert a + b == a;
    } else {
      var f, l := b[..|b| - 1], b[|b| - 1];
      PagesAppend(a, f, trunk);
      FrontOfSum(a, b);
      BagAssoc(Pages(a, trunk), Pages(f, trunk), multiset{l});
      BagAssoc(Pages(a, trunk), Pages(f, trunk) + multiset{l}, multiset(trunk[l].leaves));
    }
  }

  lemma FrontOfSum(a: seq<nat>, b: seq<nat>)
    requires b != []
    ensures (a + b)[..|a + b| - 1] == a + b[..|b| - 1] && (a + b)[|a + b| - 1] == b[|b| - 1]
  {
  }

  lemma PagesOne(t: nat, trunk: map<nat, Trunk>)
    requires t in trunk
    ensures InDomain([t], trunk) && Pages([t], trunk) == multiset{t} + multiset(trunk[t].leaves)
  {
    assert [t][..0] == [];
  }

  /** Only the leaves of the trunks in the list matter. */
  lemma {:induction false} PagesFrame(order: seq<nat>, trunk: map<nat, Trunk>, trunk': map<nat, Trunk>)
    requires InDomain(order, trunk) && InDomain(order, trunk')
    requires forall i :: 0 <= i < |order| ==> trunk'[order[i]].leaves == trunk[order[i]].leaves
    ensures Pages(order, trunk') == Pages(order, trunk)
    decreases |order|
  {
    if order != [] { PagesFrame(order[..|order| - 1], trunk, trunk'); }
  }

  /** The list around trunk number i. */
  lemma PagesAround(order: seq<nat>, trunk: map<nat, Trunk>, i: nat)
    requires InDomain(order, trunk) && i < |order|
    ensures var a, t, b := order[..i], order[i], order[i + 1..];
      && order == a + [t] + b && InDomain(a, trunk) && InDomain(b, trunk) && t in trunk
      && Pages(order, trunk) == Pages(a, trunk) + (multiset{t} + multiset(trunk[t].leaves)) + Pages(b, trunk)
  {
    var a, t, b := order[..i], order[i], order[i + 1..];
    assert order == a + [t] + b;
    PagesOne(t, trunk);
    PagesAppend(a, [t], trunk);
    PagesAppend(a + [t], b, trunk);
  }

  ghost predicate Once(bag: multiset<nat>) { forall p :: p in bag ==> bag[p] == 1 }

  lemma TrunkIn(order: seq<nat>, trunk: map<nat, Trunk>, i: nat)
    requires InDomain(order, trunk) && i < |order|
    ensures order[i] in Pages(order, trunk)
    ensures forall l :: l in trunk[order[i]].leaves ==> l in Pages(order, trunk)
  {
    PagesAround(order, trunk, i);
  }

  /** A page on the list twice shows in the count. */
  lemma OnListTwice(order: seq<nat>, trunk: map<nat, Trunk>, i: nat, j: nat)
    requires InDomain(order, trunk) && i < |order| && j < |order|
    requires order[j] in trunk[order[i]].leaves || (i != j && order[i] == order[j])
    ensures Pages(order, trunk)[order[j]] >= 2
  {
    PagesAround(order, trunk, i);
    if j < i {
      assert order[..i][j] == order[j];
      TrunkIn(order[..i], trunk, j);
    } else if j > i {
      assert order[i + 1..][j - i - 1] == order[j];
      TrunkIn(order[i + 1..], trunk, j - i - 1);
    }
  }

  ghost predicate Distinct(order: seq<nat>) { forall i, j :: 0 <= i < j < |order| ==> order[i] != order[j] }

  /** No page is a trunk twice, or a trunk and a leaf. */
  lemma TrunksDistinct(order: seq<nat>, trunk: map<nat, Trunk>)
    requires InDomain(order, trunk) && Once(Pages(order, trunk))
    ensures Distinct(order)
    ensures forall i :: 0 <= i < |order| ==> forall l :: l in trunk[order[i]].leaves ==> l !in order
  {
    forall i, j | 0 <= i < j < |order| ensures order[i] != order[j] {
      if order[i] == order[j] { OnListTwice(order, trunk, i, j); }
    }
    forall i | 0 <= i < |order| ensures forall l :: l in trunk[order[i]].leaves ==> l !in order {
      forall l | l in trunk[order[i]].leaves ensures l !in order {
        if l in order {
          var j :| 0 <= j < |order| && order[j] == l;
          OnListTwice(order, trunk, i, j);
        }
      }
    }
  }

  // ----- the chain -----

  function Next(order: seq<nat>, i: nat): nat { if i < |order| then order[i] else 0 }

  ghost predicate Chain(order: seq<nat>, trunk: map<nat, Trunk>, head: nat)
    requires InDomain(order, trunk)
  {
    && head == Next(order, 0)
    && forall i :: 0 <= i < |order| ==> trunk[order[i]].next == Next(order, i + 1)
  }

  // ----- changes to one trunk -----

  /** Relinks what pointed to trunk number i. */
  function Relink(order: seq<nat>, trunk: map<nat, Trunk>, i: nat, next: nat): map<nat, Trunk>
    requires i > 0 ==> i <= |order| && order[i - 1] in trunk
  {
    if i == 0 then trunk else trunk[order[i - 1] := trunk[order[i - 1]].(next := next)]
  }

  lemma RelinkLeaves(order: seq<nat>, trunk: map<nat, Trunk>, i: nat, next: nat)
    requires InDomain(order, trunk) && i <= |order|
    ensures InDomain(order, Relink(order, trunk, i, next))
    ensures forall t :: t in trunk ==> t in Relink(order, trunk, i, next) && Relink(order, trunk, i, next)[t].leaves == trunk[t].leaves
  {
  }

  /** Trunk number i, without leaves, leaves the list. */
  lemma TrunkUnlinked(order: seq<nat>, trunk: map<nat, Trunk>, head: nat, i: nat)
    requires InDomain(order, trunk) && Chain(order, trunk, head) && Distinct(order) && i < |order| && trunk[order[i]].leaves == []
    ensures var next := trunk[order[i]].next;
            var order', trunk' := order[..i] + order[i + 1..], Relink(order, trunk, i, next);
      && InDomain(order', trunk') && Chain(order', trunk', if i == 0 then next else head)
      && Pages(order', trunk') + multiset{order[i]} == Pages(order, trunk)
  {
    hide Pages, Relink, Chain, Distinct;
    var a, b, next := order[..i], order[i + 1..], trunk[order[i]].next;
    var trunk' := Relink(order, trunk, i, next);
    PagesAround(order, trunk, i);
    RelinkLeaves(order, trunk, i, next);
    PagesFrame(a, trunk, trunk');
    PagesFrame(b, trunk, trunk');
    PagesAppend(a, b, trunk');
    UnlinkedChain(order, trunk, head, i);
  }

  lemma UnlinkedChain(order: seq<nat>, trunk: map<nat, Trunk>, head: nat, i: nat)
    requires InDomain(order, trunk) && Chain(order, trunk, head) && Distinct(order) && i < |order|
    ensures var next := trunk[order[i]].next;
            var order', trunk' := order[..i] + order[i + 1..], Relink(order, trunk, i, next);
      InDomain(order', trunk') && Chain(order', trunk', if i == 0 then next else head)
  {
    var next := trunk[order[i]].next;
    var order', trunk' := order[..i] + order[i + 1..], Relink(order, trunk, i, next);
    forall j | 0 <= j < |order'| ensures order'[j] in trunk' && trunk'[order'[j]].next == Next(order', j + 1) {
      var k := if j < i then j else j + 1;
      assert order'[j] == order[k];
      assert trunk[order[k]].next == Next(order, k + 1);
    }
  }

  /** The trunks once leaf l has taken the place of trunk number i. */
  function Promote(order: seq<nat>, trunk: map<nat, Trunk>, i: nat, l: nat, t: Trunk): map<nat, Trunk>
    requires i > 0 ==> i <= |order| && order[i - 1] in trunk
  {
    Relink(order, trunk[l := t], i, l)
  }

  /** Trunk number i leaves the list, and its first leaf becomes a trunk in its place. */
  lemma TrunkReplaced(order: seq<nat>, trunk: map<nat, Trunk>, head: nat, i: nat)
    requires InDomain(order, trunk) && Chain(order, trunk, head) && Distinct(order) && i < |order|
    requires trunk[order[i]].leaves != [] && trunk[order[i]].leaves[0] !in order
    ensures var t := trunk[order[i]];
            var l := t.leaves[0];
            var order', trunk' := order[i := l], Promote(order, trunk, i, l, Trunk(t.next, t.leaves[1..]));
      && InDomain(order', trunk') && Chain(order', trunk', if i == 0 then l else head)
      && Pages(order', trunk') + multiset{order[i]} == Pages(order, trunk)
  {
    hide Pages, Promote, Chain, Distinct;
    var a, t, b := order[..i], trunk[order[i]], order[i + 1..];
    var l := t.leaves[0];
    var t' := Trunk(t.next, t.leaves[1..]);
    var order', trunk' := order[i := l], Promote(order, trunk, i, l, t');
    PagesAround(order, trunk, i);
    PromotedLeaves(order, trunk, i, l, t');
    PagesAround(order', trunk', i);
    assert order'[..i] == a && order'[i + 1..] == b;
    PagesFrame(a, trunk, trunk');
    PagesFrame(b, trunk, trunk');
    LeavesSplit(t.leaves);
    PromotedChain(order, trunk, head, i, l, t');
  }

  lemma PromotedLeaves(order: seq<nat>, trunk: map<nat, Trunk>, i: nat, l: nat, t: Trunk)
    requires InDomain(order, trunk) && i < |order| && l !in order
    ensures var trunk' := Promote(order, trunk, i, l, t);
      && InDomain(order[i := l], trunk') && InDomain(order, trunk') && l in trunk' && trunk'[l].leaves == t.leaves
      && forall j :: 0 <= j < |order| ==> trunk'[order[j]].leaves == trunk[order[j]].leaves
  {
  }

  lemma PromotedChain(order: seq<nat>, trunk: map<nat, Trunk>, head: nat, i: nat, l: nat, t: Trunk)
    requires InDomain(order, trunk) && Chain(order, trunk, head) && Distinct(order) && i < |order| && l !in order && t.next == trunk[order[i]].next
    ensures var order', trunk' := order[i := l], Promote(order, trunk, i, l, t);
      InDomain(order', trunk') && Chain(order', trunk', if i == 0 then l else head)
  {
    var order', trunk' := order[i := l], Promote(order, trunk, i, l, t);
    forall j | 0 <= j < |order'| ensures order'[j] in trunk' && trunk'[order'[j]].next == Next(order', j + 1) {
      assert trunk[order[j]].next == Next(order, j + 1);
    }
  }

  lemma LeavesSplit(leaves: seq<nat>)
    requires leaves != []
    ensures multiset(leaves) == multiset{leaves[0]} + multiset(leaves[1..])
  {
    assert leaves == [leaves[0]] + leaves[1..];
  }

  /** The leaves without number c, whose place the last one takes. */
  function DropLeaf(leaves: seq<nat>, c: nat): seq<nat>
    requires c < |leaves|
  {
    leaves[c := leaves[|leaves| - 1]][..|leaves| - 1]
  }

  lemma DropLeafBag(leaves: seq<nat>, c: nat)
    requires c < |leaves|
    ensures multiset(DropLeaf(leaves, c)) + multiset{leaves[c]} == multiset(leaves)
  {
    var k := |leaves| - 1;
    assert leaves == leaves[..k] + [leaves[k]];
    if c < k {
      assert DropLeaf(leaves, c) == leaves[..k][c := leaves[k]];
      assert leaves[..k] == leaves[..k][..c] + [leaves[c]] + leaves[..k][c + 1..];
      assert leaves[..k][c := leaves[k]] == leaves[..k][..c] + [leaves[k]] + leaves[..k][c + 1..];
    } else {
      assert DropLeaf(leaves, c) == leaves[..k];
    }
  }

  /** New leaves for trunk number i. */
  lemma LeavesChanged(order: seq<nat>, trunk: map<nat, Trunk>, head: nat, i: nat, leaves: seq<nat>)
    requires InDomain(order, trunk) && Chain(order, trunk, head) && Distinct(order) && i < |order|
    ensures var trunk' := trunk[order[i] := trunk[order[i]].(leaves := leaves)];
      && InDomain(order, trunk') && Chain(order, trunk', head)
      && Pages(order, trunk') + multiset(trunk[order[i]].leaves) == Pages(order, trunk) + multiset(leaves)
  {
    hide Pages;
    var trunk' := trunk[order[i] := trunk[order[i]].(leaves := leaves)];
    PagesAround(order, trunk, i);
    PagesAround(order, trunk', i);
    PagesFrame(order[..i], trunk, trunk');
    PagesFrame(order[i + 1..], trunk, trunk');
  }

  /** A new first trunk without leaves. */
  lemma TrunkAdded(order: seq<nat>, trunk: map<nat, Trunk>, head: nat, p: nat)
    requires InDomain(order, trunk) && Chain(order, trunk, head) && p !in order
    ensures var trunk' := trunk[p := Trunk(head, [])];
      && InDomain([p] + order, trunk') && Chain([p] + order, trunk', p) && Pages([p] + order, trunk') == Pages(order, trunk) + multiset{p}
  {
    hide Pages;
    var trunk' := trunk[p := Trunk(head, [])];
    PagesFrame(order, trunk, trunk');
    PagesOne(p, trunk');
    PagesAppend([p], order, trunk');
    forall j | 0 <= j < |[p] + order| ensures trunk'[([p] + order)[j]].next == Next([p] + order, j + 1) {
      if j > 0 { assert trunk[order[j - 1]].next == Next(order, j); }
    }
  }

  // ----- counting -----

  ghost predicate InFile(bag: multiset<nat>, nPage: nat) { forall p :: p in bag ==> 2 <= p <= nPage }

  lemma {:induction false} FewerThanPages(bag: multiset<nat>, nPage: nat)
    requires Once(bag) && InFile(bag, nPage)
    ensures |bag| <= if nPage == 0 then 0 else nPage - 1
    decreases nPage
  {
    if nPage < 2 {
      assert bag == multiset{};
    } else {
      FewerThanPages(bag[nPage := 0], nPage - 1);
      if nPage in bag {
        assert bag == bag[nPage := 0] + multiset{nPage};
      } else {
        assert bag == bag[nPage := 0];
      }
    }
  }

  /** A page on the list is a trunk or a leaf of one. */
  lemma {:induction false} Holder(order: seq<nat>, trunk: map<nat, Trunk>, p: nat) returns (i: nat)
    requires InDomain(order, trunk) && p in Pages(order, trunk)
    ensures i < |order| && (p == order[i] || p in trunk[order[i]].leaves)
    decreases |order|
  {
    var k := |order| - 1;
    if p == order[k] || p in trunk[order[k]].leaves { i := k; } else { i := Holder(order[..k], trunk, p); }
  }

  function Abs(x: int): nat { if x < 0 then -x else x }

  /** The first leaf at most `nearby`, or number 0 if there is none; or the first of those closest to `nearby`; without `nearby` number 0. */
  ghost predicate IsClosest(leaves: seq<nat>, nearby: nat, eMode: Mode, c: nat) {
    && c < |leaves|
    && if nearby == 0 then c == 0
       else if eMode.AtMost? then
         && (forall j :: 0 <= j < c ==> leaves[j] > nearby)
         && (leaves[c] > nearby ==> c == 0 && forall j :: 0 <= j < |leaves| ==> leaves[j] > nearby)
       else
         && (forall j :: 0 <= j < c ==> Abs(leaves[c] - nearby) < Abs(leaves[j] - nearby))
         && forall j :: c <= j < |leaves| ==> Abs(leaves[c] - nearby) <= Abs(leaves[j] - nearby)
  }

  /** The leaf to take from a trunk: the first at most `nearby`, or the closest to it, or the first. */
  method Closest(leaves: seq<nat>, nearby: nat, eMode: Mode) returns (closest: nat)
    requires leaves != []
    ensures closest < |leaves|
    ensures IsClosest(leaves, nearby, eMode, closest)
  {
    closest := 0;
    var i := 0;
    if nearby > 0 {
      if eMode.AtMost? {
        while i < |leaves|
          invariant i <= |leaves| && closest == 0
          invariant forall j :: 0 <= j < i ==> leaves[j] > nearby
        {
          if leaves[i] <= nearby { return i; }
          i := i + 1;
        }
      } else {
        var dist := Abs(leaves[0] - nearby);
        i := 1;
        while i < |leaves|
          invariant 1 <= i <= |leaves| && closest < i && dist == Abs(leaves[closest] - nearby)
          invariant forall j :: 0 <= j < i ==> dist <= Abs(leaves[j] - nearby)
          invariant forall j :: 0 <= j < closest ==> dist < Abs(leaves[j] - nearby)
        {
          var d2 := Abs(leaves[i] - nearby);
          if d2 < dist { closest, dist := i, d2; }
          i := i + 1;
        }
      }
    }
  }

  /** The page is the one a search is for. */
  predicate Wanted(p: nat, nearby: nat, eMode: Mode) { p == nearby || (p < nearby && eMode.AtMost?) }

  /** None of the first i trunks, or their leaves, is wanted. */
  ghost predicate Searched(order: seq<nat>, trunk: map<nat, Trunk>, i: nat, nearby: nat, eMode: Mode)
    requires InDomain(order, trunk) && i <= |order|
  {
    forall j :: 0 <= j < i ==> !Wanted(order[j], nearby, eMode) && forall l :: l in trunk[order[j]].leaves ==> !Wanted(l, nearby, eMode)
  }

  lemma NothingWanted(order: seq<nat>, trunk: map<nat, Trunk>, nearby: nat, eMode: Mode, p: nat)
    requires InDomain(order, trunk) && Searched(order, trunk, |order|, nearby, eMode) && p in Pages(order, trunk)
    ensures !Wanted(p, nearby, eMode)
  {
    var i := Holder(order, trunk, p);
  }

  /** The page that the first trunk gives: itself if it has no leaves, else the leaf that fits best. */
  ghost predicate FromFirst(t: nat, leaves: seq<nat>, nearby: nat, eMode: Mode, pgno: nat) {
    if leaves == [] then pgno == t else exists c: nat :: IsClosest(leaves, nearby, eMode, c) && pgno == leaves[c]
  }

  class FreeList {
    const g: Geometry
    const autoVacuum: bool
    var nPage: nat
    var head: nat
    var count: nat
    var trunk: map<nat, Trunk>
    /** Pages that the pointer map says are free. */
    var freeType: set<nat>
    ghost var order: seq<nat>

    /** The trunks form a chain, no page is on the list twice, and no trunk is overfull. */
    ghost predicate Listed()
      reads this
    {
      && g.Sane() && InDomain(order, trunk) && Chain(order, trunk, head)
      && Once(Pages(order, trunk)) && InFile(Pages(order, trunk), nPage)
      && forall i :: 0 <= i < |order| ==> |trunk[order[i]].leaves| <= g.usable / 4 - 2
    }

    ghost predicate Valid()
      reads this
    {
      Listed() && |Pages(order, trunk)| == count
    }

    /** The free pages. */
    ghost function Free(): multiset<nat>
      reads this
      requires InDomain(order, trunk)
    {
      Pages(order, trunk)
    }

    /** Puts new leaves in trunk number i, one more or one fewer. */
    method SetLeaves(ghost i: nat, iTrunk: nat, leaves: seq<nat>, ghost plus: multiset<nat>, ghost minus: multiset<nat>)
      requires InDomain(order, trunk) && Chain(order, trunk, head) && Once(Pages(order, trunk)) && i < |order| && order[i] == iTrunk
      requires multiset(leaves) + minus == multiset(trunk[iTrunk].leaves) + plus
      modifies this`trunk
      ensures InDomain(order, trunk) && Chain(order, trunk, head) && Free() + minus == old(Free()) + plus
      ensures trunk == old(trunk)[iTrunk := old(trunk)[iTrunk].(leaves := leaves)]
    {
      hide Pages, Chain;
      TrunksDistinct(order, trunk);
      LeavesChanged(order, trunk, head, i, leaves);
      ghost var before, was := Pages(order, trunk), multiset(trunk[iTrunk].leaves);
      trunk := trunk[iTrunk := trunk[iTrunk].(leaves := leaves)];
      BagSwap(Pages(order, trunk), before, was, multiset(leaves), plus, minus);
    }

    /** Adds a page to the list: as a leaf of the first trunk if it has room, else as a new first trunk. */
    method FreePage2(iPage: nat) returns (ok: bool)
      requires Valid() && 2 <= iPage <= nPage && iPage !in Free()
      modifies this`head, this`count, this`trunk, this`freeType, this`order
      ensures ok && Valid() && Free() == old(Free()) + multiset{iPage} && count == old(count) + 1
      ensures freeType == if autoVacuum then old(freeType) + {iPage} else old(freeType)
      ensures if old(count) > 0 && old(head in trunk && |trunk[head].leaves| + 8 < g.usable / 4) then
                head == old(head) && trunk == old(trunk)[head := old(trunk[head]).(leaves := old(trunk[head]).leaves + [iPage])]
              else
                head == iPage && trunk == old(trunk)[iPage := Trunk(old(head), [])]
    {
      hide Pages, Chain;
      var nFree := count;
      count := nFree + 1;
      if autoVacuum { freeType := freeType + {iPage}; }
      var iTrunk := 0;
      ListEnds(order, trunk, head);
      if nFree != 0 {
        iTrunk := head;
        var nLeaf := |trunk[iTrunk].leaves|;
        if nLeaf > g.usable / 4 - 2 { return false; }
        if nLeaf < g.usable / 4 - 8 {
          OneMore(trunk[iTrunk].leaves, iPage);
          SetLeaves(0, iTrunk, trunk[iTrunk].leaves + [iPage], multiset{iPage}, multiset{});
          assert Free() + multiset{} == Free();
          return true;
        }
      }
      NotTrunk(order, trunk, iPage);
      TrunkAdded(order, trunk, head, iPage);
      trunk := trunk[iPage := Trunk(iTrunk, [])];
      head, order := iPage, [iPage] + order;
      return true;
    }

    /** Cuts the file, and the list with it. */
    method Cut(nFin: nat)
      requires g.Sane()
      modifies this`nPage, this`head, this`count, this`order
      ensures Valid() && Free() == multiset{} && nPage == nFin
    {
      head, count, nPage := 0, 0, nFin;
      order := [];
    }

    /** Takes trunk number i itself; its first leaf, if any, becomes a trunk. */
    method TakeTrunk(ghost i: nat, prev: nat, iTrunk: nat)
      requires Listed() && i < |order| && order[i] == iTrunk && prev == if i == 0 then 0 else order[i - 1]
      modifies this`head, this`trunk, this`order
      ensures Listed() && Free() + multiset{iTrunk} == old(Free())
    {
      hide Pages, Chain;
      TrunksDistinct(order, trunk);
      PrevInFile(order, trunk, i, nPage);
      var t := trunk[iTrunk];
      ghost var before := Pages(order, trunk);
      if |t.leaves| == 0 {
        TrunkUnlinked(order, trunk, head, i);
        if prev == 0 { head := t.next; } else { trunk := trunk[prev := trunk[prev].(next := t.next)]; }
        order := order[..i] + order[i + 1..];
      } else {
        var iNewTrunk := t.leaves[0];
        TrunkReplaced(order, trunk, head, i);
        trunk := trunk[iNewTrunk := Trunk(t.next, t.leaves[1..])];
        if prev == 0 { head := iNewTrunk; } else { trunk := trunk[prev := trunk[prev].(next := iNewTrunk)]; }
        order := order[i := iNewTrunk];
      }
      FewerStill(Pages(order, trunk), before, iTrunk, nPage);
    }

    /** Takes leaf number c of trunk number i; the last leaf moves into its place. */
    method TakeLeaf(ghost i: nat, iTrunk: nat, c: nat) returns (iPage: nat)
      requires Listed() && i < |order| && order[i] == iTrunk && c < |trunk[iTrunk].leaves|
      modifies this`trunk
      ensures Listed() && iPage == old(trunk[iTrunk].leaves[c]) && Free() + multiset{iPage} == old(Free())
    {
      hide Pages, Chain;
      iPage := trunk[iTrunk].leaves[c];
      ghost var before := Pages(order, trunk);
      TrunksDistinct(order, trunk);
      DropLeafBag(trunk[iTrunk].leaves, c);
      SetLeaves(i, iTrunk, DropLeaf(trunk[iTrunk].leaves, c), multiset{}, multiset{iPage});
      assert before + multiset{} == before;
      FewerStill(Pages(order, trunk), before, iPage, nPage);
    }

    /** Whether a page on the list satisfies a search. */
    ghost predicate Exists(nearby: nat, eMode: Mode)
      reads this
      requires InDomain(order, trunk)
    {
      exists p :: p in Free() && Wanted(p, nearby, eMode)
    }

    /** Follows the chain and takes a page: the first that can be taken, or, in a search, the first one that is wanted. */
    method Take(nearby: nat, eMode: Mode, search: bool) returns (ok: bool, pgno: nat)
      requires Listed() && order != [] && (eMode.Any? ==> !search) && (search ==> nearby > 0)
      modifies this`head, this`trunk, this`order
      ensures ok <==> !search || old(Exists(nearby, eMode))
      ensures ok ==> Listed() && Free() + multiset{pgno} == old(Free()) && (search ==> Wanted(pgno, nearby, eMode))
      ensures !search ==> old(head) in old(trunk) && FromFirst(old(head), old(trunk[head]).leaves, nearby, eMode, pgno)
      ensures !ok ==> head == old(head) && trunk == old(trunk) && order == old(order)
    {
      hide Pages, Chain, Once, InFile, Searched, Wanted, IsClosest;
      ghost var i := 0;
      var prev, iTrunk := 0, head;
      pgno := 0;
      SearchStart(order, trunk, head, nearby, eMode);
      while true
        invariant head == old(head) && trunk == old(trunk) && order == old(order)
        invariant i <= |order| && iTrunk == Next(order, i) && prev == (if i == 0 then 0 else order[i - 1])
        invariant !search ==> i == 0
        invariant search ==> Searched(order, trunk, i, nearby, eMode)
        decreases |order| - i
      {
        if i < |order| { PrevInFile(order, trunk, i, nPage); }
        SearchNext(order, trunk, head, i, nearby, eMode);
        if iTrunk == 0 {
          NoneWanted(order, trunk, nearby, eMode);
          return false, pgno;
        }
        WantedHere(order, trunk, i, nearby, eMode);
        var leaves := trunk[iTrunk].leaves;
        if |leaves| == 0 && !search {
          TakeTrunk(i, prev, iTrunk);
          return true, iTrunk;
        } else if |leaves| > g.usable / 4 - 2 {
          return false, pgno;
        } else if search && Wanted(iTrunk, nearby, eMode) {
          TakeTrunk(i, prev, iTrunk);
          return true, iTrunk;
        } else if |leaves| > 0 {
          var closest := Closest(leaves, nearby, eMode);
          var iPage := leaves[closest];
          if !search || Wanted(iPage, nearby, eMode) {
            pgno := TakeLeaf(i, iTrunk, closest);
            return true, pgno;
          }
          ClosestNotWanted(leaves, closest, nearby, eMode);
        }
        prev, iTrunk, i := iTrunk, trunk[iTrunk].next, i + 1;
      }
    }

    /** The next page at the end of the file that can hold content. */
    method Grow() returns (pgno: nat)
      requires g.Sane()
      modifies this`nPage
      ensures pgno == nPage > old(nPage) && pgno != g.pending && (autoVacuum ==> g.Usable(pgno))
      ensures forall p :: old(nPage) < p < pgno ==> p == g.pending || (autoVacuum && g.IsMap(p))
    {
      nPage := nPage + 1;
      if nPage == g.pending { nPage := nPage + 1; }
      if autoVacuum && g.IsMap(nPage) {
        NextToMap(g, nPage);
        nPage := nPage + 1;
        if nPage == g.pending { nPage := nPage + 1; }
      }
      pgno := nPage;
    }

    /** Takes a page off the list, or from the end of the file if the list is empty. */
    method AllocateBtreePage(nearby: nat, eMode: Mode) returns (ok: bool, pgno: nat)
      requires Valid() && nPage > 0 && (!eMode.Any? ==> nearby > 0 && autoVacuum)
      requires eMode.Exact? ==> (nearby in freeType <==> nearby in Free())
      modifies this`nPage, this`head, this`count, this`trunk, this`order
      ensures ok <==> (old(count) == 0 || eMode != AtMost || old(Exists(nearby, eMode)))
      ensures ok && old(count) > 0 ==> Valid() && Free() + multiset{pgno} == old(Free()) && nPage == old(nPage)
      ensures ok && old(count) > 0 && eMode.Exact? && old(nearby in Free()) ==> pgno == nearby
      ensures ok && old(count) > 0 && eMode.AtMost? ==> pgno <= nearby
      ensures ok && old(count) > 0 && (eMode.Any? || (eMode.Exact? && old(nearby !in Free()))) ==>
        old(head) in old(trunk) && FromFirst(old(head), old(trunk[head]).leaves, nearby, eMode, pgno)
      ensures ok && old(count) == 0 ==> Valid() && Free() == old(Free()) && pgno == nPage > old(nPage) && pgno != g.pending
      ensures ok && old(count) == 0 && autoVacuum ==> g.Usable(pgno)
    {
      hide Pages, Chain;
      var mxPage, n := nPage, count;
      FewerThanPages(Pages(order, trunk), nPage);
      pgno := 0;
      if n >= mxPage { return false, pgno; }
      if n > 0 {
        var searchList := false;
        if eMode.Exact? {
          if nearby <= mxPage && nearby in freeType { searchList := true; }
        } else if eMode.AtMost? {
          searchList := true;
        }
        count := n - 1;
        ListEnds(order, trunk, head);
        ghost var before := Pages(order, trunk);
        ok, pgno := Take(nearby, eMode, searchList);
        if ok { FewerStill(Pages(order, trunk), before, pgno, nPage); }
      } else {
        pgno := Grow();
        ok := true;
      }
    }
  }

  lemma SearchStart(order: seq<nat>, trunk: map<nat, Trunk>, head: nat, nearby: nat, eMode: Mode)
    requires InDomain(order, trunk) && Chain(order, trunk, head)
    ensures head == Next(order, 0) && Searched(order, trunk, 0, nearby, eMode)
  {
  }

  lemma SearchNext(order: seq<nat>, trunk: map<nat, Trunk>, head: nat, i: nat, nearby: nat, eMode: Mode)
    requires InDomain(order, trunk) && Chain(order, trunk, head) && i <= |order|
    ensures i < |order| ==> trunk[order[i]].next == Next(order, i + 1)
    ensures i < |order| && Searched(order, trunk, i, nearby, eMode) && !Wanted(order[i], nearby, eMode) ==>
      (forall l :: l in trunk[order[i]].leaves ==> !Wanted(l, nearby, eMode)) ==> Searched(order, trunk, i + 1, nearby, eMode)
  {
  }

  /** A wanted trunk or leaf shows that the search can succeed. */
  lemma WantedHere(order: seq<nat>, trunk: map<nat, Trunk>, i: nat, nearby: nat, eMode: Mode)
    requires InDomain(order, trunk) && i < |order|
    ensures Wanted(order[i], nearby, eMode) ==> exists p :: p in Pages(order, trunk) && Wanted(p, nearby, eMode)
    ensures forall l :: l in trunk[order[i]].leaves && Wanted(l, nearby, eMode) ==> exists p :: p in Pages(order, trunk) && Wanted(p, nearby, eMode)
  {
    TrunkIn(order, trunk, i);
  }

  lemma NoneWanted(order: seq<nat>, trunk: map<nat, Trunk>, nearby: nat, eMode: Mode)
    requires InDomain(order, trunk)
    ensures Searched(order, trunk, |order|, nearby, eMode) ==> forall p :: p in Pages(order, trunk) ==> !Wanted(p, nearby, eMode)
  {
    if Searched(order, trunk, |order|, nearby, eMode) {
      forall p | p in Pages(order, trunk) ensures !Wanted(p, nearby, eMode) { NothingWanted(order, trunk, nearby, eMode, p); }
    }
  }

  lemma ClosestNotWanted(leaves: seq<nat>, closest: nat, nearby: nat, eMode: Mode)
    requires IsClosest(leaves, nearby, eMode, closest) && nearby > 0 && !Wanted(leaves[closest], nearby, eMode)
    ensures forall l :: l in leaves ==> !Wanted(l, nearby, eMode)
  {
    forall l | l in leaves ensures !Wanted(l, nearby, eMode) {
      var j :| 0 <= j < |leaves| && leaves[j] == l;
    }
  }

  lemma PrevInFile(order: seq<nat>, trunk: map<nat, Trunk>, i: nat, nPage: nat)
    requires InDomain(order, trunk) && InFile(Pages(order, trunk), nPage) && i < |order|
    ensures order[i] >= 2 && (i > 0 ==> order[i - 1] >= 2)
  {
    TrunkIn(order, trunk, i);
    if i > 0 { TrunkIn(order, trunk, i - 1); }
  }

  lemma FewerStill(bag: multiset<nat>, before: multiset<nat>, p: nat, nPage: nat)
    requires bag + multiset{p} == before && Once(before) && InFile(before, nPage)
    ensures Once(bag) && InFile(bag, nPage) && |bag| + 1 == |before| && p !in bag && p in before
  {
    forall q | q in bag ensures bag[q] == 1 && q in before { assert before[q] == (bag + multiset{p})[q]; }
    assert before[p] == (bag + multiset{p})[p];
  }

  lemma OneMore(leaves: seq<nat>, p: nat)
    ensures multiset(leaves + [p]) + multiset{} == multiset(leaves) + multiset{p}
  {
  }

  lemma BagSwap(all': multiset<nat>, all: multiset<nat>, part: multiset<nat>, part': multiset<nat>, plus: multiset<nat>, minus: multiset<nat>)
    requires all' + part == all + part' && part' + minus == part + plus
    ensures all' + minus == all + plus
  {
    forall p | p in multiset{p} ensures (all' + minus)[p] == (all + plus)[p] {
      assert (all' + part)[p] == (all + part')[p] && (part' + minus)[p] == (part + plus)[p];
    }
  }

  lemma ListEnds(order: seq<nat>, trunk: map<nat, Trunk>, head: nat)
    requires InDomain(order, trunk) && Chain(order, trunk, head)
    ensures |Pages(order, trunk)| == 0 ==> order == [] && head == 0
    ensures |Pages(order, trunk)| > 0 ==> order != [] && head == order[0]
  {
    if order == [] { assert Pages(order, trunk) == multiset{}; } else { TrunkIn(order, trunk, 0); }
  }

  lemma NotTrunk(order: seq<nat>, trunk: map<nat, Trunk>, p: nat)
    requires InDomain(order, trunk) && p !in Pages(order, trunk)
    ensures p !in order
  {
    forall i | 0 <= i < |order| ensures order[i] != p { TrunkIn(order, trunk, i); }
  }
}
