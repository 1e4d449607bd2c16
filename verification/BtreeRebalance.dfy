/** One balancing step: the cells of up to three neighbouring children are spread evenly over as many pages as they need. */
module BtreeRebalance {
  import opened BtreeNode
  import opened BtreeShape
  import opened BtreePath
  import opened BtreePacking
  import opened BtreeSiblings
  import opened BtreeLost

  // ----- which pages to use -----

  lemma FreshExists(used: set<nat>) returns (p: nat)
    ensures p > 1 && p !in used
  {
    p := 2;
    var rest := used;
    while rest != {}
      invariant p > 1
      invariant forall q :: q in used && q !in rest ==> q < p
      decreases rest
    {
      var q :| q in rest;
      if p <= q { p := q + 1; }
      rest := rest - {q};
    }
  }

  /** Any page that is neither page 1 nor in use. */
  method AllocatePage(used: set<nat>) returns (p: nat)
    ensures p > 1 && p !in used
  {
    ghost var q := FreshExists(used);
    p :| p > 1 && p !in used;
  }

  method ExtendPages(old_: seq<nat>, k: nat, used: set<nat>) returns (pgnos: seq<nat>, used': set<nat>, ghost taken: set<nat>)
    requires |old_| <= k && forall i :: 0 <= i < |old_| ==> old_[i] > 1
    ensures |pgnos| == k && forall i :: 0 <= i < k ==> pgnos[i] > 1
    ensures multiset(pgnos) == multiset(old_) + multiset(taken) && taken !! used && used' == used + taken
  {
    pgnos, used', taken := old_, used, {};
    while |pgnos| < k
      invariant |pgnos| <= k && forall i :: 0 <= i < |pgnos| ==> pgnos[i] > 1
      invariant multiset(pgnos) == multiset(old_) + multiset(taken) && taken !! used && used' == used + taken
    {
      var p := AllocatePage(used');
      pgnos, used', taken := pgnos + [p], used' + {p}, taken + {p};
    }
  }

  method FreePages(rest: seq<nat>, used: set<nat>) returns (used': set<nat>, ghost gone: set<nat>)
    requires forall i, j :: 0 <= i < j < |rest| ==> rest[i] != rest[j]
    ensures multiset(gone) == multiset(rest) && (forall p :: p in gone ==> p in rest) && used' == used - gone
  {
    used', gone := used, {};
    var i := 0;
    while i < |rest|
      invariant i <= |rest| && multiset(gone) == multiset(rest[..i]) && (forall p :: p in gone ==> p in rest[..i])
      invariant used' == used - gone
    {
      assert rest[..i + 1] == rest[..i] + [rest[i]];
      used', gone := used' - {rest[i]}, gone + {rest[i]};
      i := i + 1;
    }
    assert rest[..i] == rest;
  }

  ghost predicate DistinctIn(pgnos: seq<nat>, used: set<nat>) {
    && (forall i :: 0 <= i < |pgnos| ==> pgnos[i] in used && pgnos[i] > 1)
    && (forall i, j :: 0 <= i < j < |pgnos| ==> pgnos[i] != pgnos[j])
  }

  /** Page numbers for k new siblings: the old ones first, further ones freshly allocated, old ones left over freed. */
  method ChoosePages(oldPgnos: seq<nat>, k: nat, used: set<nat>)
    returns (pgnos: seq<nat>, used': set<nat>, ghost gone: set<nat>, ghost taken: set<nat>)
    requires DistinctIn(oldPgnos, used)
    ensures |pgnos| == k && forall i :: 0 <= i < k ==> pgnos[i] > 1
    ensures multiset(pgnos) + multiset(gone) == multiset(oldPgnos) + multiset(taken)
    ensures taken !! used && gone <= used && (forall p :: p in gone ==> p in oldPgnos) && used' == used - gone + taken
    ensures if k < |oldPgnos| then pgnos == oldPgnos[..k] else multiset(oldPgnos) <= multiset(pgnos)
  {
    if |oldPgnos| <= k {
      pgnos, used', taken := ExtendPages(oldPgnos, k, used);
      gone := {};
    } else {
      pgnos, taken := oldPgnos[..k], {};
      used', gone := FreePages(oldPgnos[k..], used);
      assert oldPgnos[..k] + oldPgnos[k..] == oldPgnos;
    }
  }

  method IndexOfMin(b: seq<nat>, i: nat) returns (minI: nat)
    requires i < |b|
    ensures i <= minI < |b| && forall q :: i <= q < |b| ==> b[minI] <= b[q]
  {
    minI := i;
    var j := i + 1;
    while j < |b|
      invariant i <= minI < j <= |b|
      invariant forall q :: i <= q < j ==> b[minI] <= b[q]
    {
      if b[j] < b[minI] { minI := j; }
      j := j + 1;
    }
  }

  lemma SwapKeepsElements(b: seq<nat>, i: nat, j: nat)
    requires i < |b| && j < |b|
    ensures multiset(b[i := b[j]][j := b[i]]) == multiset(b)
  {
  }

  /** Selection sort, so that a scan of the tree reads the file in order. */
  method SortPgnos(a: seq<nat>) returns (b: seq<nat>)
    requires forall i :: 0 <= i < |a| ==> a[i] > 1
    ensures multiset(b) == multiset(a) && |b| == |a|
    ensures forall i :: 0 <= i < |b| ==> b[i] > 1
    ensures forall i, j :: 0 <= i < j < |b| ==> b[i] <= b[j]
  {
    b := a;
    var i := 0;
    while i + 1 < |b|
      invariant 0 <= i && |b| == |a| && multiset(b) == multiset(a) && (b != [] ==> i < |b|)
      invariant forall p, q :: 0 <= p < q < |b| && p < i ==> b[p] <= b[q]
    {
      var minI := IndexOfMin(b, i);
      SwapKeepsElements(b, i, minI);
      if minI > i { b := b[i := b[minI]][minI := b[i]]; }
      i := i + 1;
    }
    SameElements(a, b);
  }

  lemma SameElements(a: seq<nat>, b: seq<nat>)
    requires multiset(a) == multiset(b) && forall i :: 0 <= i < |a| ==> a[i] > 1
    ensures forall i :: 0 <= i < |b| ==> b[i] > 1
  {
    forall i | 0 <= i < |b| ensures b[i] > 1 { assert b[i] in multiset(b) && b[i] in multiset(a); }
  }

  /** The first of the old pages are used again, or all of them and new ones; the siblings come in ascending order. */
  ghost predicate PagesReused(old_: seq<nat>, pgnos: seq<nat>) {
    && (forall i, j :: 0 <= i < j < |pgnos| ==> pgnos[i] <= pgnos[j])
    && if |pgnos| < |old_| then multiset(pgnos) == multiset(old_[..|pgnos|]) else multiset(old_) <= multiset(pgnos)
  }

  /** The page numbers of k new siblings, in order. */
  method SiblingPages(oldPgnos: seq<nat>, k: nat, used: set<nat>)
    returns (pgnos: seq<nat>, used': set<nat>, ghost gone: set<nat>, ghost taken: set<nat>)
    requires DistinctIn(oldPgnos, used)
    ensures |pgnos| == k && (forall i :: 0 <= i < k ==> pgnos[i] > 1) && PagesReused(oldPgnos, pgnos)
    ensures multiset(pgnos) + multiset(gone) == multiset(oldPgnos) + multiset(taken)
    ensures taken !! used && gone <= used && (forall p :: p in gone ==> p in oldPgnos) && used' == used - gone + taken
  {
    pgnos, used', gone, taken := ChoosePages(oldPgnos, k, used);
    pgnos := SortPgnos(pgnos);
  }

  // ----- the new pages -----

  method BuildPages(leaf: bool, leafData: bool, all: seq<Cell>, kids: seq<Node>, cnt: seq<nat>, pgnos: seq<nat>)
    returns (sibs: seq<Node>)
    requires !leaf ==> |kids| == |all| + 1 && !leafData
    requires |pgnos| == |cnt| && forall i :: 0 <= i < |cnt| ==> Start(cnt, leafData, i) <= cnt[i] <= |all|
    ensures |sibs| == |cnt| && Pgnos(sibs) == pgnos
    ensures forall i :: 0 <= i < |cnt| ==> CutPage(leaf, leafData, all, kids, cnt, i, sibs[i])
  {
    sibs := [];
    var j := 0;
    while |sibs| < |cnt|
      invariant |sibs| <= |cnt| && j == Start(cnt, leafData, |sibs|)
      invariant forall m :: 0 <= m < |sibs| ==> CutPage(leaf, leafData, all, kids, cnt, m, sibs[m]) && sibs[m].pgno == pgnos[m]
    {
      var i := |sibs|;
      var page := Node(pgnos[i], leaf, all[j..cnt[i]], if leaf then [] else kids[j..cnt[i] + 1], 0, 0, 0);
      assert CutPage(leaf, leafData, all, kids, cnt, i, page);
      sibs := sibs + [page];
      j := cnt[i] + Gap(leafData);
    }
  }

  method BuildDividers(leafData: bool, all: seq<Cell>, cnt: seq<nat>) returns (divs: seq<Cell>)
    requires cnt != [] && forall i :: 0 <= i < |cnt| - 1 ==> if leafData then 0 < cnt[i] <= |all| else cnt[i] < |all|
    ensures |divs| == |cnt| - 1 && forall i :: 0 <= i < |divs| ==> CutDivider(leafData, all, cnt[i], divs[i])
  {
    divs := [];
    while |divs| < |cnt| - 1
      invariant |divs| <= |cnt| - 1 && forall i :: 0 <= i < |divs| ==> CutDivider(leafData, all, cnt[i], divs[i])
    {
      var j := cnt[|divs|];
      divs := divs + [if leafData then DividerOf(all[j - 1]) else all[j]];
    }
  }

  // ----- the parent -----

  /** A page deep enough in the tree may not be empty; the root may hold one child if it is page 1, or for as long as that
      child is about to be split. */
  ghost predicate LooseKid(kind: Kind, u: nat, n: Node, h: nat) {
    && PageFits(kind, u, n, if kind.Table? && n.leaf then 1 else 4) && n.pgno > 1 && (n.leaf <==> h == 0)
    && (h > 0 ==> ForestOk(kind, u, n.kids, h - 1))
  }

  ghost predicate OthersOk(kind: Kind, u: nat, h: nat, kids: seq<Node>, idx: nat) {
    forall i :: 0 <= i < |kids| && i != idx ==> TreeOk(kind, u, kids[i], h)
  }

  /** A parent whose child number idx may be overfull or underfull; the parent itself may carry one overflow cell, the
      one that divides that child from the next. */
  ghost predicate Unbalanced(kind: Kind, u: nat, p: Node, h: nat, idx: nat) {
    && h > 0 && !p.leaf && PageFits(kind, u, p, 1) && p.pgno > 0 && idx < |p.kids| == |p.cells| + 1
    && (p.nOv == 1 ==> p.ovAt == idx < |p.cells|)
    && LooseKid(kind, u, p.kids[idx], h - 1) && OthersOk(kind, u, h - 1, p.kids, idx)
  }

  /** A page that may have become overfull or empty, above sound children. */
  ghost predicate Rebalanced(kind: Kind, u: nat, p: Node, h: nat) {
    && PageFits(kind, u, p, 4) && p.pgno > 0 && (p.leaf <==> h == 0)
    && (h == 0 ==> p.nOv == 0) && (p.nOv > 0 ==> p.nOv < |p.cells|) && (h > 0 ==> ForestOk(kind, u, p.kids, h - 1))
  }

  /** Which children take part: the child and its neighbours, or the first or last three; in a bulk load two. */
  function FirstSibling(nDiv: nat, idx: nat, bBulk: bool): nat
    requires idx <= nDiv
  {
    if nDiv < 2 || idx == 0 then 0
    else if idx == nDiv then nDiv - 2 + (if bBulk then 1 else 0)
    else idx - 1
  }

  function SiblingCount(nDiv: nat, bBulk: bool): nat {
    if nDiv < 2 then nDiv + 1 else if bBulk then 2 else 3
  }

  lemma SiblingRange(nDiv: nat, idx: nat, bBulk: bool)
    requires idx <= nDiv
    ensures var f, n := FirstSibling(nDiv, idx, bBulk), SiblingCount(nDiv, bBulk);
            && 0 < n <= 3 && f + n <= nDiv + 1 && f <= idx < f + n
            && (idx < nDiv && !bBulk ==> idx < f + n - 1)
  {
  }

  lemma UsedPair(leaf: bool, c: seq<Cell>, a: nat, b: nat)
    requires a <= b <= |c|
    ensures Used(leaf, c[..a] + c[b..]) == Span(Sizes(leaf, c), 0, a) + Span(Sizes(leaf, c), b, |c|)
  {
    UsedAppend(leaf, c[..a], c[b..]);
    UsedSlice(leaf, c, 0, a);
    UsedSlice(leaf, c, b, |c|);
    assert c[0..a] == c[..a] && c[b..|c|] == c[b..];
  }

  /** Leaving out cells a .. b-1 leaves no more than leaving out some of them. */
  lemma UsedDrop(leaf: bool, c: seq<Cell>, a: nat, o: nat, o': nat, b: nat)
    requires a <= o <= o' <= b <= |c|
    ensures Used(leaf, c[..a] + c[b..]) <= Used(leaf, c[..o] + c[o'..])
  {
    UsedPair(leaf, c, a, b);
    UsedPair(leaf, c, o, o');
    SpanSplit(Sizes(leaf, c), 0, a, o);
    SpanSplit(Sizes(leaf, c), o', b, |c|);
  }

  /** The parent without the dividers between the siblings, one of which may have been its overflow cell. */
  lemma DroppedFits(u: nat, n: Node, a: nat, b: nat)
    requires OvflInRange(n) && NFree(u, n) >= 0 && a <= b <= |n.cells|
    requires n.nOv == 0 || (n.nOv == 1 && a <= n.ovAt < b)
    ensures Used(n.leaf, n.cells[..a] + n.cells[b..]) + n.lost <= Cap(u, n.leaf, n.pgno)
  {
    if n.nOv == 0 {
      OnPageAll(n);
      SplitAt(n.cells, a);
      UsedDrop(n.leaf, n.cells, a, a, a, b);
    } else {
      UsedDrop(n.leaf, n.cells, a, n.ovAt, n.ovAt + 1, b);
    }
  }

  lemma DividerSmall(kind: Kind, u: nat, c: Cell)
    requires u >= MIN_USABLE && GoodCell(kind, u, false, c)
    ensures 2 * (Size(false, c) + 2) <= u - 112 - MayLose(kind, u, false)
  {
  }

  /** The parent once the first i dividers are in. */
  ghost predicate DividersIn(kind: Kind, u: nat, parent: Node, nxDiv: nat, divs: seq<Cell>, i: nat, p: Node) {
    && nxDiv <= |parent.cells| && i <= |divs|
    && p == parent.(cells := p.cells, ovAt := p.ovAt, nOv := p.nOv)
    && p.cells == parent.cells[..nxDiv] + divs[..i] + parent.cells[nxDiv..]
    && GoodCells(kind, u, false, p.cells) && OvflInRange(p) && p.nOv <= i && NFree(u, p) >= 0 && parent.lost <= MayLose(kind, u, false)
    && (p.nOv > 0 ==> p.nOv < |p.cells| && p.ovAt + p.nOv == nxDiv + i)
    && (parent.cells == [] && i <= 2 ==> p.nOv == 0)
  }

  lemma OneDividerIn(kind: Kind, u: nat, parent: Node, nxDiv: nat, divs: seq<Cell>, i: nat, p: Node)
    requires u >= MIN_USABLE && !p.leaf && DividersIn(kind, u, parent, nxDiv, divs, i, p)
    requires i < |divs| && GoodCell(kind, u, false, divs[i])
    ensures DividersIn(kind, u, parent, nxDiv, divs, i + 1, InsertCell(u, p, nxDiv + i, divs[i], Size(false, divs[i])))
  {
    hide MayLose, GoodCell, GoodCells, NFree, Size;
    InsertFree(u, p, nxDiv + i, divs[i]);
    InsertGood(kind, u, false, p.cells, nxDiv + i, divs[i]);
    InsertNext(parent.cells, nxDiv, divs, i);
    DividerSmall(kind, u, divs[i]);
    if p.cells == [] { assert OnPage(p) == []; }
    if parent.cells == [] && i < 2 { SecondDividerFits(kind, u, p, divs[i]); }
  }

  lemma SecondDividerFits(kind: Kind, u: nat, p: Node, c: Cell)
    requires u >= MIN_USABLE && !p.leaf && OvflInRange(p) && p.nOv == 0 && |p.cells| <= 1 && GoodCells(kind, u, false, p.cells)
    requires p.lost <= MayLose(kind, u, false)
    requires GoodCell(kind, u, false, c)
    ensures Size(false, c) + 2 <= NFree(u, p)
  {
    DividerSmall(kind, u, c);
    FreeWithoutOverflow(u, p);
    if p.cells == [] {
      assert Sizes(false, p.cells) == [];
    } else {
      DividerSmall(kind, u, p.cells[0]);
      UsedOne(false, p.cells[0]);
      assert p.cells == [p.cells[0]];
    }
  }

  /** The dividers of the new siblings become cells nxDiv .. of the parent, from the first that does not fit on as
      overflow cells. */
  method InsertDividers(kind: Kind, u: nat, parent: Node, nxDiv: nat, divs: seq<Cell>) returns (p: Node)
    requires u >= MIN_USABLE && !parent.leaf && OvflInRange(parent) && parent.nOv == 0 && NFree(u, parent) >= 0
    requires parent.lost <= MayLose(kind, u, false)
    requires GoodCells(kind, u, false, parent.cells) && GoodCells(kind, u, false, divs) && nxDiv <= |parent.cells|
    ensures DividersIn(kind, u, parent, nxDiv, divs, |divs|, p)
  {
    p := parent;
    var i := 0;
    SplitAt(parent.cells, nxDiv);
    assert parent.cells[..nxDiv] + divs[..0] == parent.cells[..nxDiv];
    while i < |divs|
      invariant DividersIn(kind, u, parent, nxDiv, divs, i, p)
    {
      OneDividerIn(kind, u, parent, nxDiv, divs, i, p);
      p := InsertCell(u, p, nxDiv + i, divs[i], Size(false, divs[i]));
      i := i + 1;
    }
  }

  lemma InsertNext<T>(s: seq<T>, a: nat, d: seq<T>, i: nat)
    requires a <= |s| && i < |d|
    ensures var c := s[..a] + d[..i] + s[a..]; c[..a + i] + [d[i]] + c[a + i..] == s[..a] + d[..i + 1] + s[a..]
  {
    var c := s[..a] + d[..i] + s[a..];
    assert c[..a + i] == s[..a] + d[..i] && c[a + i..] == s[a..];
    assert d[..i + 1] == d[..i] + [d[i]];
  }

  // ----- the siblings -----

  ghost predicate LooseSiblings(kind: Kind, u: nat, h: nat, sibs: seq<Node>, x: nat) {
    x < |sibs| && LooseKid(kind, u, sibs[x], h) && OthersOk(kind, u, h, sibs, x)
  }

  lemma LooseAreSiblings(kind: Kind, u: nat, h: nat, sibs: seq<Node>, x: nat)
    requires LooseSiblings(kind, u, h, sibs, x)
    ensures Siblings(kind, u, sibs, h == 0, x)
  {
    forall i | 0 <= i < |sibs| && i != x ensures TreeOk(kind, u, sibs[i], h) {}
  }

  lemma {:induction false} KidsSound(kind: Kind, u: nat, h: nat, sibs: seq<Node>, x: nat)
    requires h > 0 && forall i :: 0 <= i < |sibs| ==> ForestOk(kind, u, sibs[i].kids, h - 1)
    ensures ForestOk(kind, u, KidsOf(sibs), h - 1)
    decreases |sibs|
  {
    if sibs != [] {
      KidsSound(kind, u, h, sibs[1..], x);
      ForestAppend(kind, u, sibs[0].kids, KidsOf(sibs[1..]), h - 1);
    }
  }

  lemma ForestAppend(kind: Kind, u: nat, a: seq<Node>, b: seq<Node>, h: nat)
    requires ForestOk(kind, u, a, h) && ForestOk(kind, u, b, h)
    ensures ForestOk(kind, u, a + b, h)
  {
  }

  lemma {:induction false} JoinGood(kind: Kind, u: nat, leaf: bool, leafData: bool, groups: seq<seq<Cell>>, divs: seq<Cell>)
    requires |groups| == |divs| + 1 && forall i :: 0 <= i < |groups| ==> GoodCells(kind, u, leaf, groups[i])
    requires !leafData ==> GoodCells(kind, u, leaf, divs)
    ensures GoodCells(kind, u, leaf, Join(leafData, groups, divs))
    decreases |groups|
  {
    if |groups| > 1 {
      JoinGood(kind, u, leaf, leafData, groups[1..], divs[1..]);
      GoodAppend(kind, u, leaf, groups[0], if leafData then [] else [divs[0]]);
      GoodAppend(kind, u, leaf, groups[0] + (if leafData then [] else [divs[0]]), Join(leafData, groups[1..], divs[1..]));
    }
  }

  lemma GoodAppend(kind: Kind, u: nat, leaf: bool, a: seq<Cell>, b: seq<Cell>)
    requires GoodCells(kind, u, leaf, a) && GoodCells(kind, u, leaf, b)
    ensures GoodCells(kind, u, leaf, a + b)
  {
  }

  lemma {:induction false} JoinEmpty(leafData: bool, groups: seq<seq<Cell>>, divs: seq<Cell>, i: nat)
    requires |groups| == |divs| + 1 && Join(leafData, groups, divs) == [] && i < |groups|
    ensures groups[i] == []
    decreases |groups|
  {
    if |groups| > 1 {
      assert |Join(leafData, groups, divs)| >= |groups[0]| + |Join(leafData, groups[1..], divs[1..])|;
      if i > 0 { JoinEmpty(leafData, groups[1..], divs[1..], i - 1); }
    }
  }

  /** Whether a cell is a valid divider does not depend on the level it comes from, except on table leaves. */
  lemma DividersGood(kind: Kind, u: nat, leaf: bool, all: seq<Cell>, cnt: seq<nat>, divs: seq<Cell>)
    requires GoodCells(kind, u, leaf, all) && |divs| <= |cnt|
    requires forall i :: 0 <= i < |divs| ==> CutDivider(kind.Table? && leaf, all, cnt[i], divs[i])
    ensures GoodCells(kind, u, false, divs)
  {
    forall i | 0 <= i < |divs| ensures GoodCell(kind, u, false, divs[i]) {
      assert CutDivider(kind.Table? && leaf, all, cnt[i], divs[i]);
      var c := if kind.Table? && leaf then all[cnt[i] - 1] else all[cnt[i]];
      assert GoodCell(kind, u, leaf, c);
    }
  }

  /** All cells of the siblings and dividers, and the facts the packing needs about them. */
  lemma Gathered(kind: Kind, u: nat, h: nat, sibs: seq<Node>, divs: seq<Cell>, x: nat, leaf: bool) returns (w: seq<nat>)
    requires u >= MIN_USABLE && |sibs| == |divs| + 1 <= NB && LooseSiblings(kind, u, h, sibs, x) && (leaf <==> h == 0)
    requires GoodCells(kind, u, false, divs)
    ensures var all := Join(kind.Table? && leaf, CellsOf(sibs), divs);
      && GoodCells(kind, u, leaf, all)
      && SmallCells(Sizes(leaf, all), Room(u, leaf), kind.Table? && leaf)
      && |w| <= |sibs| + 2 && Partition(Sizes(leaf, all), Room(u, leaf), kind.Table? && leaf, w)
      && (all == [] ==> |sibs| == 1 && sibs[0].cells == [])
    ensures Alike(sibs, leaf)
    ensures h > 0 ==> ForestOk(kind, u, KidsOf(sibs), h - 1)
  {
    var leafData := kind.Table? && leaf;
    LooseAreSiblings(kind, u, h, sibs, x);
    JoinGood(kind, u, leaf, leafData, CellsOf(sibs), divs);
    CellsSmall(kind, u, leaf, Join(leafData, CellsOf(sibs), divs));
    var g, d := SiblingGroups(kind, u, sibs, divs, leaf, x);
    JoinPartition(leaf, leafData, g, d, Room(u, leaf));
    w := Cuts(leafData, g);
    if h > 0 {
      forall i | 0 <= i < |sibs| ensures ForestOk(kind, u, sibs[i].kids, h - 1) {
        if i != x { assert TreeOk(kind, u, sibs[i], h); }
      }
      KidsSound(kind, u, h, sibs, x);
    }
    GatheredEmpty(kind, u, h, sibs, divs, x, leafData);
  }

  lemma GatheredEmpty(kind: Kind, u: nat, h: nat, sibs: seq<Node>, divs: seq<Cell>, x: nat, leafData: bool)
    requires |sibs| == |divs| + 1 && LooseSiblings(kind, u, h, sibs, x)
    ensures Join(leafData, CellsOf(sibs), divs) == [] ==> |sibs| == 1 && sibs[0].cells == []
  {
    var y := if x == 0 then |sibs| - 1 else 0;
    assert y != x ==> TreeOk(kind, u, sibs[y], h);
    if Join(leafData, CellsOf(sibs), divs) == [] { JoinEmpty(leafData, CellsOf(sibs), divs, y); }
  }

  /** The walk over the siblings is the same, or on table leaves divided anew. */
  lemma SpreadWalk(kind: Kind, leaf: bool, old_: seq<Node>, oldDivs: seq<Cell>, all: seq<Cell>, kids: seq<Node>,
                   cnt: seq<nat>, sibs: seq<Node>, divs: seq<Cell>)
    requires |old_| == |oldDivs| + 1 && Alike(old_, leaf)
    requires all == Join(kind.Table? && leaf, CellsOf(old_), oldDivs) && kids == if leaf then [] else KidsOf(old_)
    requires IsCut(leaf, kind.Table? && leaf, all, kids, cnt, sibs, divs)
    requires |cnt| == 1 || NoEmptyPage(kind.Table? && leaf, cnt)
    ensures Redivided(kind, Weave(kind, oldDivs, Walks(kind, old_)), Weave(kind, divs, Walks(kind, sibs)))
  {
    var a, b := Weave(kind, oldDivs, Walks(kind, old_)), Weave(kind, divs, Walks(kind, sibs));
    if kind.Table? && leaf {
      CutEntries(old_, oldDivs, all, cnt, sibs, divs);
      RedividedWhole(a, b);
    } else {
      CutWalk(kind, leaf, old_, oldDivs, all, kids, cnt, sibs, divs);
    }
  }

  lemma RedividedWhole(a: seq<Item>, b: seq<Item>)
    requires Entries(a) == Entries(b) && Backed(b)
    ensures Redivided(Table, a, b)
  {
    assert a == Around([], a, []) && b == Around([], b, []);
  }

  lemma KidsOfLeaves(sibs: seq<Node>)
    requires Alike(sibs, true)
    ensures KidsOf(sibs) == []
    decreases |sibs|
  {
    if sibs != [] { KidsOfLeaves(sibs[1..]); }
  }

  /** The pages of the siblings change only in the siblings themselves. */
  lemma SpreadPages(leaf: bool, leafData: bool, old_: seq<Node>, oldDivs: seq<Cell>, all: seq<Cell>, kids: seq<Node>,
                    cnt: seq<nat>, sibs: seq<Node>, divs: seq<Cell>, gone: set<nat>, taken: set<nat>)
    requires |old_| == |oldDivs| + 1 && Alike(old_, leaf) && kids == if leaf then [] else KidsOf(old_)
    requires IsCut(leaf, leafData, all, kids, cnt, sibs, divs)
    requires multiset(Pgnos(sibs)) + multiset(gone) == multiset(Pgnos(old_)) + multiset(taken)
    ensures PagesOfAll(sibs) + multiset(gone) == PagesOfAll(old_) + multiset(taken)
  {
    PagesSplit(old_);
    PagesSplit(sibs);
    CutAlike(leaf, leafData, all, kids, cnt, sibs, divs);
    if leaf {
      KidsOfLeaves(old_);
      KidsOfLeaves(sibs);
    } else {
      CutJoin(leaf, leafData, all, kids, cnt, sibs, divs);
    }
    BagMove(multiset(Pgnos(sibs)), multiset(gone), multiset(Pgnos(old_)), multiset(taken), PagesOfAll(KidsOf(sibs)));
  }

  lemma BagMove(a: multiset<nat>, g: multiset<nat>, b: multiset<nat>, t: multiset<nat>, k: multiset<nat>)
    requires a + g == b + t
    ensures (a + k) + g == (b + k) + t
  {
    assert (a + k) + g == (a + g) + k;
    assert (b + k) + t == (b + t) + k;
  }

  /** Cut points for a run of cells: every page fits, and none is empty unless there are no cells at all. */
  ghost predicate GoodCuts(leaf: bool, leafData: bool, room: int, all: seq<Cell>, cnt: seq<nat>, most: nat) {
    && room >= 0 && |cnt| <= most && Partition(Sizes(leaf, all), room, leafData, cnt)
    && if all == [] then cnt == [0] else NoEmptyPage(leafData, cnt)
  }

  lemma GoodCutsUsable(leaf: bool, leafData: bool, room: int, all: seq<Cell>, cnt: seq<nat>, most: nat)
    requires GoodCuts(leaf, leafData, room, all, cnt, most)
    ensures cnt != [] && cnt[|cnt| - 1] == |all|
    ensures forall i :: 0 <= i < |cnt| ==> Start(cnt, leafData, i) <= cnt[i] <= |all|
    ensures forall i :: 0 <= i < |cnt| - 1 ==> if leafData then 0 < cnt[i] <= |all| else cnt[i] < |all|
  {
    var sz := Sizes(leaf, all);
    forall i | 0 <= i < |cnt| ensures Start(cnt, leafData, i) <= cnt[i] <= |all| {
      assert PageFitsAt(sz, room, leafData, cnt, i);
    }
    forall i | 0 <= i < |cnt| - 1 ensures if leafData then 0 < cnt[i] <= |all| else cnt[i] < |all| {
      assert PageFitsAt(sz, room, leafData, cnt, i + 1);
    }
  }

  /** The cells of the siblings, in one run, and where to cut it. */
  method PlanPages(kind: Kind, u: nat, ghost h: nat, old_: seq<Node>, oldDivs: seq<Cell>, ghost x: nat, bBulk: bool, leaf: bool)
    returns (all: seq<Cell>, kids: seq<Node>, cnt: seq<nat>)
    requires u >= MIN_USABLE && |old_| == |oldDivs| + 1 <= NB && LooseSiblings(kind, u, h, old_, x) && (leaf <==> h == 0)
    requires GoodCells(kind, u, false, oldDivs)
    ensures all == Join(kind.Table? && leaf, CellsOf(old_), oldDivs) && kids == if leaf then [] else KidsOf(old_)
    ensures GoodCells(kind, u, leaf, all) && GoodCuts(leaf, kind.Table? && leaf, Room(u, leaf), all, cnt, |old_| + 2)
    ensures Room(u, leaf) >= 0 && WellPacked(Sizes(leaf, all), Room(u, leaf), kind.Table? && leaf, bBulk, cnt)
    ensures all == [] <==> |old_| == 1 && old_[0].cells == []
    ensures Alike(old_, leaf) && (!leaf ==> |kids| == |all| + 1 && ForestOk(kind, u, kids, h - 1))
  {
    var leafData := kind.Table? && leaf;
    ghost var w := Gathered(kind, u, h, old_, oldDivs, x, leaf);
    all := Join(leafData, CellsOf(old_), oldDivs);
    kids := if leaf then [] else KidsOf(old_);
    if !leaf { JoinWalk(kind, old_, oldDivs, leaf); }
    ghost var greedy;
    cnt, greedy := Pack(Sizes(leaf, all), Room(u, leaf), leafData, bBulk, w);
  }

  method CutPages(leaf: bool, leafData: bool, all: seq<Cell>, kids: seq<Node>, cnt: seq<nat>, pgnos: seq<nat>, ghost room: int,
                  ghost most: nat)
    returns (sibs: seq<Node>, divs: seq<Cell>)
    requires GoodCuts(leaf, leafData, room, all, cnt, most) && |pgnos| == |cnt|
    requires (leaf ==> kids == []) && (!leaf ==> |kids| == |all| + 1 && !leafData)
    ensures IsCut(leaf, leafData, all, kids, cnt, sibs, divs) && Pgnos(sibs) == pgnos
  {
    GoodCutsUsable(leaf, leafData, room, all, cnt, most);
    sibs := BuildPages(leaf, leafData, all, kids, cnt, pgnos);
    divs := BuildDividers(leafData, all, cnt);
  }

  /** New siblings: one empty page when there was nothing to spread, else sound pages. */
  ghost predicate Regrown(kind: Kind, u: nat, h: nat, sibs: seq<Node>, old_: seq<Node>) {
    if |old_| == 1 && old_[0].cells == [] then |sibs| == 1 && sibs[0].cells == [] && PageTree(kind, u, sibs[0], h) else ForestOk(kind, u, sibs, h)
  }

  /** What replaces the siblings. */
  lemma SpreadDone(kind: Kind, u: nat, h: nat, leaf: bool, old_: seq<Node>, oldDivs: seq<Cell>, all: seq<Cell>, kids: seq<Node>,
                   cnt: seq<nat>, sibs: seq<Node>, divs: seq<Cell>)
    requires u >= MIN_USABLE && |old_| == |oldDivs| + 1 && Alike(old_, leaf) && (leaf <==> h == 0)
    requires all == Join(kind.Table? && leaf, CellsOf(old_), oldDivs) && kids == if leaf then [] else KidsOf(old_)
    requires GoodCells(kind, u, leaf, all) && GoodCuts(leaf, kind.Table? && leaf, Room(u, leaf), all, cnt, |old_| + 2)
    requires all == [] <==> |old_| == 1 && old_[0].cells == []
    requires h > 0 ==> ForestOk(kind, u, kids, h - 1)
    requires IsCut(leaf, kind.Table? && leaf, all, kids, cnt, sibs, divs) && forall i :: 0 <= i < |sibs| ==> Pgnos(sibs)[i] > 1
    ensures GoodCells(kind, u, false, divs)
    ensures Regrown(kind, u, h, sibs, old_)
    ensures Redivided(kind, Weave(kind, oldDivs, Walks(kind, old_)), Weave(kind, divs, Walks(kind, sibs)))
  {
    assert forall i :: 0 <= i < |sibs| ==> sibs[i].pgno == Pgnos(sibs)[i];
    DividersGood(kind, u, leaf, all, cnt, divs);
    CutSound(kind, u, h, leaf, all, kids, cnt, sibs, divs, Room(u, leaf));
    SpreadWalk(kind, leaf, old_, oldDivs, all, kids, cnt, sibs, divs);
    assert all == [] ==> CutPage(leaf, kind.Table? && leaf, all, kids, cnt, 0, sibs[0]);
  }

  /** The siblings and the dividers between them make one run of cells, and it is cut at cnt into as few pages as can hold it. */
  ghost predicate SpreadAt(kind: Kind, u: nat, bBulk: bool, old_: seq<Node>, oldDivs: seq<Cell>, cnt: seq<nat>, sibs: seq<Node>, divs: seq<Cell>) {
    && |old_| == |oldDivs| + 1 && u >= MIN_USABLE && PagesReused(Pgnos(old_), Pgnos(sibs))
    && var leaf := old_[0].leaf;
       var all := Join(kind.Table? && leaf, CellsOf(old_), oldDivs);
       && IsCut(leaf, kind.Table? && leaf, all, if leaf then [] else KidsOf(old_), cnt, sibs, divs)
       && WellPacked(Sizes(leaf, all), Room(u, leaf), kind.Table? && leaf, bBulk, cnt)
  }

  ghost predicate LeastSpread(kind: Kind, u: nat, bBulk: bool, old_: seq<Node>, oldDivs: seq<Cell>, sibs: seq<Node>, divs: seq<Cell>) {
    exists cnt: seq<nat> :: SpreadAt(kind, u, bBulk, old_, oldDivs, cnt, sibs, divs)
  }

  /** Replaces siblings by as many pages as their cells need. */
  method SpreadSiblings(kind: Kind, u: nat, ghost h: nat, old_: seq<Node>, oldDivs: seq<Cell>, ghost x: nat, bBulk: bool, used: set<nat>)
    returns (sibs: seq<Node>, divs: seq<Cell>, used': set<nat>, ghost gone: set<nat>, ghost taken: set<nat>)
    requires u >= MIN_USABLE && |old_| == |oldDivs| + 1 <= NB && LooseSiblings(kind, u, h, old_, x)
    requires GoodCells(kind, u, false, oldDivs)
    requires DistinctIn(Pgnos(old_), used)
    ensures |sibs| == |divs| + 1 <= |old_| + 2 && GoodCells(kind, u, false, divs)
    ensures Regrown(kind, u, h, sibs, old_)
    ensures Redivided(kind, Weave(kind, oldDivs, Walks(kind, old_)), Weave(kind, divs, Walks(kind, sibs)))
    ensures PagesOfAll(sibs) + multiset(gone) == PagesOfAll(old_) + multiset(taken)
    ensures taken !! used && gone <= used && (forall p :: p in gone ==> p in Pgnos(old_)) && used' == used - gone + taken
    ensures EachKeeps(old_, sibs)
    ensures LeastSpread(kind, u, bBulk, old_, oldDivs, sibs, divs)
  {
    hide EachKeeps, WellPacked, PagesReused;
    LooseAreSiblings(kind, u, h, old_, x);
    var leaf := old_[0].leaf;
    var leafData := kind.Table? && leaf;
    var all, kids, cnt := PlanPages(kind, u, h, old_, oldDivs, x, bBulk, leaf);
    var pgnos;
    pgnos, used', gone, taken := SiblingPages(Pgnos(old_), |cnt|, used);
    sibs, divs := CutPages(leaf, leafData, all, kids, cnt, pgnos, Room(u, leaf), |old_| + 2);
    SpreadDone(kind, u, h, leaf, old_, oldDivs, all, kids, cnt, sibs, divs);
    SpreadPages(leaf, leafData, old_, oldDivs, all, kids, cnt, sibs, divs, gone, taken);
    CutKeeps(leaf, leafData, old_, all, kids, cnt, sibs, divs);
    assert SpreadAt(kind, u, bBulk, old_, oldDivs, cnt, sibs, divs);
  }
}
