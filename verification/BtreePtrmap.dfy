/** The pointer map while siblings are spread anew: the pages that cells refer to get the page the cell has moved to as their parent. */
module BtreePtrmap {
  import opened BtreeNode
  import opened BtreePacking
  import opened BtreePath
  import opened BtreeShape
  import opened BtreeSiblings

  /** The child left of a cell, and the first page of its overflow chain; 0 for none. */
  datatype Refs = Refs(child: nat, ovfl: nat)

  /** An old sibling with n cells, of which nOv from number ovAt on are overflow cells. */
  datatype Sib = Sib(pgno: nat, n: nat, ovAt: nat, nOv: nat)

  /** The number of the first cell of old sibling j in the run of all cells.  Except on table leaves the dividers take part. */
  function First(old_: seq<Sib>, leafData: bool, j: nat): nat
    requires j <= |old_|
  {
    if j == 0 then 0 else First(old_, leafData, j - 1) + old_[j - 1].n + Gap(leafData)
  }

  /** Cell i was on the page of old sibling j: neither a divider nor an overflow cell. */
  predicate Settled(old_: seq<Sib>, leafData: bool, i: nat, j: nat)
    requires j < |old_|
  {
    var f := First(old_, leafData, j);
    f <= i < f + old_[j].n && !(f + old_[j].ovAt <= i < f + old_[j].ovAt + old_[j].nOv)
  }

  /** Cell i goes to new sibling k. */
  predicate On(cnt: seq<nat>, leafData: bool, i: nat, k: nat)
    requires k < |cnt|
  {
    Start(cnt, leafData, k) <= i < cnt[k]
  }

  /** The entries of the pages that a cell refers to name pgno. */
  predicate Named(entry: map<nat, nat>, r: Refs, leaf: bool, pgno: nat) {
    && (!leaf ==> r.child in entry && entry[r.child] == pgno)
    && (r.ovfl != 0 ==> r.ovfl in entry && entry[r.ovfl] == pgno)
  }

  /** ptrmapPut for the child, and ptrmapPutOvflPtr. */
  function Renamed(entry: map<nat, nat>, r: Refs, leaf: bool, pgno: nat): map<nat, nat> {
    var e := if leaf then entry else entry[r.child := pgno];
    if r.ovfl != 0 then e[r.ovfl := pgno] else e
  }

  predicate RefersTo(r: Refs, leaf: bool, p: nat) {
    (!leaf && p == r.child) || (r.ovfl != 0 && p == r.ovfl)
  }

  /** No page is referred to twice. */
  ghost predicate AllApart(cells: seq<Refs>, leaf: bool) {
    && (forall i, j, p :: 0 <= i < j < |cells| && RefersTo(cells[i], leaf, p) ==> !RefersTo(cells[j], leaf, p))
    && forall i :: 0 <= i < |cells| ==> leaf || cells[i].child != cells[i].ovfl || cells[i].ovfl == 0
  }

  /** The siblings hold the cells, and their overflow cells are among them. */
  ghost predicate Layout(old_: seq<Sib>, leafData: bool, nCell: nat) {
    && old_ != [] && First(old_, leafData, |old_|) == nCell + Gap(leafData)
    && forall j :: 0 <= j < |old_| ==> old_[j].ovAt + old_[j].nOv <= old_[j].n
  }

  /** Before: what a cell on a page refers to names that page, unless the cell is going to be a divider. */
  ghost predicate TrueBefore(old_: seq<Sib>, cnt: seq<nat>, leafData: bool, leaf: bool, cells: seq<Refs>, entry: map<nat, nat>, from: nat) {
    forall i: nat, j: nat, k: nat :: from <= i < |cells| && j < |old_| && k < |cnt| && Settled(old_, leafData, i, j) && On(cnt, leafData, i, k)
      ==> Named(entry, cells[i], leaf, old_[j].pgno)
  }

  ghost predicate TrueAfter(cnt: seq<nat>, leafData: bool, leaf: bool, cells: seq<Refs>, newPg: seq<nat>, entry: map<nat, nat>, upTo: nat)
    requires |newPg| == |cnt|
  {
    forall i: nat, k: nat :: i < upTo && i < |cells| && k < |cnt| && On(cnt, leafData, i, k) ==> Named(entry, cells[i], leaf, newPg[k])
  }

  ghost predicate Unmoved(cnt: seq<nat>, leafData: bool, leaf: bool, cells: seq<Refs>, p: nat) {
    forall i: nat, k: nat :: i < |cells| && k < |cnt| && On(cnt, leafData, i, k) ==> !RefersTo(cells[i], leaf, p)
  }

  predicate SameAt(a: map<nat, nat>, b: map<nat, nat>, p: nat) {
    (p in a <==> p in b) && (p in a ==> a[p] == b[p])
  }

  /** No other entries change, not even those of the dividers. */
  ghost predicate OthersKept(cnt: seq<nat>, leafData: bool, leaf: bool, cells: seq<Refs>, entry0: map<nat, nat>, entry: map<nat, nat>) {
    forall p: nat :: Unmoved(cnt, leafData, leaf, cells, p) ==> SameAt(entry0, entry, p)
  }

  lemma {:induction false} FirstGrows(old_: seq<Sib>, leafData: bool, a: nat, b: nat)
    requires a < b <= |old_|
    ensures First(old_, leafData, a) + old_[a].n + Gap(leafData) <= First(old_, leafData, b)
    decreases b
  {
    if a + 1 < b { FirstGrows(old_, leafData, a, b - 1); }
  }

  /** A cell lies on one old page only. */
  lemma SettledOnce(old_: seq<Sib>, leafData: bool, i: nat, a: nat, b: nat)
    requires a < |old_| && b < |old_| && Settled(old_, leafData, i, a) && First(old_, leafData, b) <= i < First(old_, leafData, b) + old_[b].n
    ensures a == b
  {
    if a < b { FirstGrows(old_, leafData, a, b); }
    if b < a { FirstGrows(old_, leafData, b, a); }
  }

  predicate InOrder(cnt: seq<nat>, leafData: bool, k: nat)
    requires k < |cnt|
  {
    Start(cnt, leafData, k) < cnt[k] || |cnt| == 1
  }

  /** Every page gets a cell, unless there is only one page. */
  ghost predicate Ordered(cnt: seq<nat>, leafData: bool) {
    forall k: nat :: k < |cnt| ==> InOrder(cnt, leafData, k)
  }

  lemma {:induction false} StartGrows(cnt: seq<nat>, leafData: bool, a: nat, b: nat)
    requires a < b < |cnt| && Ordered(cnt, leafData)
    ensures cnt[a] <= Start(cnt, leafData, b)
    decreases b
  {
    if a + 1 < b {
      StartGrows(cnt, leafData, a, b - 1);
      assert InOrder(cnt, leafData, b - 1);
    }
  }

  lemma OnOnce(cnt: seq<nat>, leafData: bool, i: nat, a: nat, b: nat)
    requires a < |cnt| && b < |cnt| && On(cnt, leafData, i, a) && Start(cnt, leafData, b) <= i < cnt[b]
    requires Ordered(cnt, leafData)
    ensures a == b
  {
    if a < b { StartGrows(cnt, leafData, a, b); }
    if b < a { StartGrows(cnt, leafData, b, a); }
  }

  // ----- the loop over the cells -----

  /** Where the loop stands at cell i: on old sibling j and new sibling k. */
  ghost predicate At(old_: seq<Sib>, leafData: bool, cnt: seq<nat>, i: nat, j: nat, k: nat, iNextOld: int) {
    && j < |old_| && k < |cnt| && iNextOld == First(old_, leafData, j) + old_[j].n
    && First(old_, leafData, j) <= i <= iNextOld
    && Start(cnt, leafData, k) <= i <= cnt[k]
  }

  /** iOverflow is the next overflow cell of old sibling j, if there is one from cell i on; else it lies behind. */
  ghost predicate Watching(old_: seq<Sib>, leafData: bool, i: nat, j: nat, nOverflow: int, iOverflow: int)
    requires j < |old_|
  {
    var o := First(old_, leafData, j) + old_[j].ovAt;
    var e := o + old_[j].nOv;
    if old_[j].nOv > 0 && i < e then iOverflow == (if i <= o then o else i) && nOverflow == e - iOverflow else iOverflow < i
  }

  /** On to the old sibling that cell i belongs to, or that follows it if it is a divider. */
  method NextOld(old_: seq<Sib>, leafData: bool, cnt: seq<nat>, nCell: nat, i: nat, j0: nat, iNextOld0: int, nOverflow0: int, iOverflow0: int,
                 ghost k: nat)
    returns (j: nat, iNextOld: int, nOverflow: int, iOverflow: int, isDivider: bool)
    requires Layout(old_, leafData, nCell) && i < nCell && At(old_, leafData, cnt, i, j0, k, iNextOld0) && Watching(old_, leafData, i, j0, nOverflow0, iOverflow0)
    ensures j < |old_| && iNextOld == First(old_, leafData, j) + old_[j].n && i < iNextOld + (if isDivider then 1 else 0)
    ensures isDivider ==> !leafData && First(old_, leafData, j) == i + 1
    ensures !isDivider ==> First(old_, leafData, j) <= i
    ensures Watching(old_, leafData, i, j, nOverflow, iOverflow)
    ensures forall a: nat :: a < |old_| && Settled(old_, leafData, i, a) ==> a == j && !isDivider
  {
    j, iNextOld, nOverflow, iOverflow, isDivider := j0, iNextOld0, nOverflow0, iOverflow0, false;
    while i == iNextOld
      invariant j < |old_| && iNextOld == First(old_, leafData, j) + old_[j].n && Watching(old_, leafData, i, j, nOverflow, iOverflow)
      invariant if isDivider then !leafData && First(old_, leafData, j) == i + 1 else First(old_, leafData, j) <= i <= iNextOld
      decreases |old_| - j
    {
      j := j + 1;
      iNextOld := i + Gap(leafData) + old_[j].n;
      if old_[j].nOv > 0 {
        nOverflow := old_[j].nOv;
        iOverflow := i + Gap(leafData) + old_[j].ovAt;
      }
      isDivider := !leafData;
    }
    forall a: nat | a < |old_| && Settled(old_, leafData, i, a) ensures a == j && !isDivider {
      if isDivider {
        if a < j { FirstGrows(old_, leafData, a, j); }
        if j < a { FirstGrows(old_, leafData, j, a); }
      } else {
        SettledOnce(old_, leafData, i, a, j);
      }
    }
  }

  /** One cell: its entries are set if it was a divider or an overflow cell, or has come to another page. */
  lemma CellDone(old_: seq<Sib>, cnt: seq<nat>, newPg: seq<nat>, leafData: bool, leaf: bool, cells: seq<Refs>, entry: map<nat, nat>, entry': map<nat, nat>,
                 i: nat, j: nat, k: nat, put: bool)
    requires i < |cells| && j < |old_| && k < |cnt| == |newPg| && Ordered(cnt, leafData) && AllApart(cells, leaf)
    requires On(cnt, leafData, i, k) && entry' == (if put then Renamed(entry, cells[i], leaf, newPg[k]) else entry)
    requires put || (Settled(old_, leafData, i, j) && old_[j].pgno == newPg[k])
    requires TrueBefore(old_, cnt, leafData, leaf, cells, entry, i) && TrueAfter(cnt, leafData, leaf, cells, newPg, entry, i)
    ensures TrueBefore(old_, cnt, leafData, leaf, cells, entry', i + 1) && TrueAfter(cnt, leafData, leaf, cells, newPg, entry', i + 1)
  {
    forall a: nat, b: nat, c: nat | i + 1 <= a < |cells| && b < |old_| && c < |cnt| && Settled(old_, leafData, a, b) && On(cnt, leafData, a, c)
      ensures Named(entry', cells[a], leaf, old_[b].pgno) {
      assert Named(entry, cells[a], leaf, old_[b].pgno);
      Apart(cells, leaf, i, a);
    }
    forall a: nat, b: nat | a < i + 1 && a < |cells| && b < |cnt| && On(cnt, leafData, a, b) ensures Named(entry', cells[a], leaf, newPg[b]) {
      if a == i {
        OnOnce(cnt, leafData, i, k, b);
        if !put { assert Named(entry, cells[i], leaf, old_[j].pgno); }
      } else {
        assert Named(entry, cells[a], leaf, newPg[b]);
        Apart(cells, leaf, a, i);
      }
    }
  }

  lemma Apart(cells: seq<Refs>, leaf: bool, a: nat, b: nat)
    requires AllApart(cells, leaf) && a < b < |cells|
    ensures !leaf ==> cells[a].child != cells[b].child && (cells[b].ovfl != 0 ==> cells[a].child != cells[b].ovfl)
    ensures cells[a].ovfl != 0 ==> (!leaf ==> cells[a].ovfl != cells[b].child) && (cells[b].ovfl != 0 ==> cells[a].ovfl != cells[b].ovfl)
    ensures !leaf && cells[b].ovfl != 0 ==> cells[b].child != cells[b].ovfl
    ensures !leaf && cells[a].ovfl != 0 ==> cells[a].child != cells[a].ovfl
  {
    assert !leaf ==> RefersTo(cells[a], leaf, cells[a].child) && RefersTo(cells[b], leaf, cells[b].child);
    assert cells[a].ovfl != 0 ==> RefersTo(cells[a], leaf, cells[a].ovfl);
    assert cells[b].ovfl != 0 ==> RefersTo(cells[b], leaf, cells[b].ovfl);
  }

  lemma KeptOn(cnt: seq<nat>, leafData: bool, leaf: bool, cells: seq<Refs>, entry0: map<nat, nat>, entry: map<nat, nat>, i: nat, k: nat, pgno: nat)
    requires i < |cells| && k < |cnt| && On(cnt, leafData, i, k) && OthersKept(cnt, leafData, leaf, cells, entry0, entry)
    ensures OthersKept(cnt, leafData, leaf, cells, entry0, Renamed(entry, cells[i], leaf, pgno))
  {
    forall p: nat | Unmoved(cnt, leafData, leaf, cells, p) ensures SameAt(entry0, Renamed(entry, cells[i], leaf, pgno), p) {
      assert !RefersTo(cells[i], leaf, p) && SameAt(entry0, entry, p);
    }
  }

  /** A cell that is a divider now is on no page. */
  lemma DividerDone(old_: seq<Sib>, cnt: seq<nat>, newPg: seq<nat>, leafData: bool, leaf: bool, cells: seq<Refs>, entry: map<nat, nat>, i: nat, k: nat)
    requires k < |cnt| == |newPg| && Ordered(cnt, leafData) && i == cnt[k] && !leafData
    requires TrueBefore(old_, cnt, leafData, leaf, cells, entry, i) && TrueAfter(cnt, leafData, leaf, cells, newPg, entry, i)
    ensures TrueBefore(old_, cnt, leafData, leaf, cells, entry, i + 1) && TrueAfter(cnt, leafData, leaf, cells, newPg, entry, i + 1)
  {
    forall b: nat | b < |cnt| ensures !On(cnt, leafData, i, b) {
      if b < k { StartGrows(cnt, leafData, b, k); assert InOrder(cnt, leafData, k); }
      if k < b { StartGrows(cnt, leafData, k, b); if k + 1 < b { StartGrows(cnt, leafData, k + 1, b); assert InOrder(cnt, leafData, k + 1); } }
    }
  }

  /** Only what has moved from page to page, or was a divider or an overflow cell, is written; afterwards every cell is right. */
  method MoveCells(old_: seq<Sib>, leafData: bool, leaf: bool, cells: seq<Refs>, nCell: nat, cnt: seq<nat>, newPg: seq<nat>, entry0: map<nat, nat>)
    returns (entry: map<nat, nat>)
    requires Layout(old_, leafData, nCell) && nCell <= |cells| && AllApart(cells, leaf)
    requires cnt != [] && |newPg| == |cnt| && Ordered(cnt, leafData) && cnt[|cnt| - 1] == nCell
    requires TrueBefore(old_, cnt, leafData, leaf, cells, entry0, 0)
    ensures TrueAfter(cnt, leafData, leaf, cells, newPg, entry, nCell) && OthersKept(cnt, leafData, leaf, cells, entry0, entry)
  {
    hide Settled, On, Renamed, Named, AllApart, Ordered, OthersKept, TrueBefore, TrueAfter;
    var j: nat, k: nat, iNextOld, nOverflow := 0, 0, old_[0].n, old_[0].nOv;
    var iOverflow := if nOverflow > 0 then old_[0].ovAt else -1;
    entry := entry0;
    var i := 0;
    Begun(cnt, newPg, leafData, leaf, cells, entry0);
    while i < nCell
      invariant i <= nCell && At(old_, leafData, cnt, i, j, k, iNextOld) && Watching(old_, leafData, i, j, nOverflow, iOverflow)
      invariant TrueBefore(old_, cnt, leafData, leaf, cells, entry, i) && TrueAfter(cnt, leafData, leaf, cells, newPg, entry, i)
      invariant OthersKept(cnt, leafData, leaf, cells, entry0, entry)
    {
      var isDivider;
      j, iNextOld, nOverflow, iOverflow, isDivider := NextOld(old_, leafData, cnt, nCell, i, j, iNextOld, nOverflow, iOverflow, k);
      if i == iOverflow {
        isDivider := true;
        nOverflow := nOverflow - 1;
        if nOverflow > 0 { iOverflow := iOverflow + 1; }
      }
      if i == cnt[k] {
        if !leafData { DividerDone(old_, cnt, newPg, leafData, leaf, cells, entry, i, k); }
        StrictAt(cnt, leafData, k + 1);
        k := k + 1;
        if !leafData { i := i + 1; continue; }
      }
      var put := isDivider || old_[j].pgno != newPg[k];
      OnIs(cnt, leafData, i, k);
      if !isDivider { SettledIs(old_, leafData, i, j); }
      CellDone(old_, cnt, newPg, leafData, leaf, cells, entry, if put then Renamed(entry, cells[i], leaf, newPg[k]) else entry, i, j, k, put);
      if put {
        KeptOn(cnt, leafData, leaf, cells, entry0, entry, i, k, newPg[k]);
        entry := Renamed(entry, cells[i], leaf, newPg[k]);
      }
      i := i + 1;
    }
  }

  lemma Begun(cnt: seq<nat>, newPg: seq<nat>, leafData: bool, leaf: bool, cells: seq<Refs>, entry: map<nat, nat>)
    requires |newPg| == |cnt|
    ensures TrueAfter(cnt, leafData, leaf, cells, newPg, entry, 0) && OthersKept(cnt, leafData, leaf, cells, entry, entry)
  {
  }

  lemma StrictAt(cnt: seq<nat>, leafData: bool, k: nat)
    requires 0 < k < |cnt| && Ordered(cnt, leafData)
    ensures Start(cnt, leafData, k) < cnt[k]
  {
    assert InOrder(cnt, leafData, k);
  }

  lemma OnIs(cnt: seq<nat>, leafData: bool, i: nat, k: nat)
    requires k < |cnt| && Start(cnt, leafData, k) <= i < cnt[k]
    ensures On(cnt, leafData, i, k)
  {
  }

  lemma SettledIs(old_: seq<Sib>, leafData: bool, i: nat, j: nat)
    requires j < |old_|
    requires var f := First(old_, leafData, j); f <= i < f + old_[j].n && !(f + old_[j].ovAt <= i < f + old_[j].ovAt + old_[j].nOv)
    ensures Settled(old_, leafData, i, j)
  {
  }

  // ----- the loop over the right children -----

  /** The right child of new sibling k is the left child of the divider after it, or the one that closed the last old sibling. */
  ghost predicate RightNamed(cnt: seq<nat>, cells: seq<Refs>, newPg: seq<nat>, entry: map<nat, nat>, upTo: nat)
    requires |newPg| == |cnt| && forall k :: 0 <= k < |cnt| ==> cnt[k] < |cells|
  {
    forall k :: 0 <= k < upTo && k < |cnt| ==> cells[cnt[k]].child in entry && entry[cells[cnt[k]].child] == newPg[k]
  }

  lemma RightApart(cnt: seq<nat>, leafData: bool, cells: seq<Refs>, i: nat, k: nat, b: nat)
    requires k < |cnt| && b < |cnt| && Ordered(cnt, leafData) && !leafData && AllApart(cells, false)
    requires i < |cells| && cnt[k] < |cells| && On(cnt, leafData, i, b)
    ensures !RefersTo(cells[i], false, cells[cnt[k]].child)
  {
    if b < k { StartGrows(cnt, leafData, b, k); assert InOrder(cnt, leafData, k); }
    if k + 1 < b { StartGrows(cnt, leafData, k, b - 1); assert InOrder(cnt, leafData, b - 1); }
    assert i != cnt[k];
    assert RefersTo(cells[cnt[k]], false, cells[cnt[k]].child);
  }

  lemma RightsDiffer(cnt: seq<nat>, leafData: bool, cells: seq<Refs>, a: nat, b: nat)
    requires a < b < |cnt| && Ordered(cnt, leafData) && !leafData && AllApart(cells, false) && cnt[a] < |cells| && cnt[b] < |cells|
    ensures cells[cnt[a]].child != cells[cnt[b]].child
  {
    StartGrows(cnt, leafData, a, b);
    assert InOrder(cnt, leafData, b);
    assert RefersTo(cells[cnt[a]], false, cells[cnt[a]].child) && RefersTo(cells[cnt[b]], false, cells[cnt[b]].child);
  }

  lemma RightDone(cnt: seq<nat>, leafData: bool, cells: seq<Refs>, newPg: seq<nat>, entry: map<nat, nat>, k: nat)
    requires k < |cnt| == |newPg| && Ordered(cnt, leafData) && !leafData && AllApart(cells, false) && forall k :: 0 <= k < |cnt| ==> cnt[k] < |cells|
    requires TrueAfter(cnt, leafData, false, cells, newPg, entry, |cells|) && RightNamed(cnt, cells, newPg, entry, k)
    ensures var e := entry[cells[cnt[k]].child := newPg[k]];
      TrueAfter(cnt, leafData, false, cells, newPg, e, |cells|) && RightNamed(cnt, cells, newPg, e, k + 1)
  {
    var e := entry[cells[cnt[k]].child := newPg[k]];
    forall a: nat, b: nat | a < |cells| && b < |cnt| && On(cnt, leafData, a, b) ensures Named(e, cells[a], false, newPg[b]) {
      assert Named(entry, cells[a], false, newPg[b]);
      RightApart(cnt, leafData, cells, a, k, b);
    }
    forall a | 0 <= a < k ensures cells[cnt[a]].child in e && e[cells[cnt[a]].child] == newPg[a] {
      RightsDiffer(cnt, leafData, cells, a, k);
    }
  }

  ghost predicate NotRight(cnt: seq<nat>, cells: seq<Refs>, p: nat)
    requires forall k :: 0 <= k < |cnt| ==> cnt[k] < |cells|
  {
    forall k :: 0 <= k < |cnt| ==> p != cells[cnt[k]].child
  }

  /** On interior pages, all children: the last of the cells stands for the right child of the last old sibling. */
  method PutSiblings(old_: seq<Sib>, cells: seq<Refs>, cnt: seq<nat>, newPg: seq<nat>, entry0: map<nat, nat>) returns (entry: map<nat, nat>)
    requires cells != [] && Layout(old_, false, |cells| - 1) && AllApart(cells, false)
    requires cnt != [] && |newPg| == |cnt| && Ordered(cnt, false) && cnt[|cnt| - 1] == |cells| - 1
    requires forall k :: 0 <= k < |cnt| ==> cnt[k] < |cells|
    requires TrueBefore(old_, cnt, false, false, cells, entry0, 0)
    ensures TrueAfter(cnt, false, false, cells, newPg, entry, |cells|) && RightNamed(cnt, cells, newPg, entry, |cnt|)
    ensures forall p: nat :: Unmoved(cnt, false, false, cells, p) && NotRight(cnt, cells, p) ==> SameAt(entry0, entry, p)
  {
    hide TrueBefore, TrueAfter, AllApart, Ordered, Unmoved, Layout;
    entry := MoveCells(old_, false, false, cells, |cells| - 1, cnt, newPg, entry0);
    LastOff(cnt, cells, newPg, entry);
    var i := 0;
    while i < |cnt|
      invariant i <= |cnt| && TrueAfter(cnt, false, false, cells, newPg, entry, |cells|) && RightNamed(cnt, cells, newPg, entry, i)
      invariant forall p: nat :: Unmoved(cnt, false, false, cells, p) && NotRight(cnt, cells, p) ==> SameAt(entry0, entry, p)
    {
      RightDone(cnt, false, cells, newPg, entry, i);
      entry := entry[cells[cnt[i]].child := newPg[i]];
      i := i + 1;
    }
  }

  lemma LastOff(cnt: seq<nat>, cells: seq<Refs>, newPg: seq<nat>, entry: map<nat, nat>)
    requires cells != [] && cnt != [] && |newPg| == |cnt| && Ordered(cnt, false) && cnt[|cnt| - 1] == |cells| - 1
    requires TrueAfter(cnt, false, false, cells, newPg, entry, |cells| - 1)
    ensures TrueAfter(cnt, false, false, cells, newPg, entry, |cells|)
  {
    var i := |cells| - 1;
    forall b: nat | b < |cnt| ensures !On(cnt, false, i, b) {
      if b < |cnt| - 1 { StartGrows(cnt, false, b, |cnt| - 1); assert InOrder(cnt, false, |cnt| - 1); }
    }
  }

  // ----- the siblings of a tree -----

  /** The entries of all children name their page. */
  ghost predicate KidsNamed(n: Node, entry: map<nat, nat>) {
    forall m :: 0 <= m < |n.kids| ==> n.kids[m].pgno in entry && entry[n.kids[m].pgno] == n.pgno
  }

  function SibOf(n: Node): Sib { Sib(n.pgno, |n.cells|, n.ovAt, n.nOv) }

  function SibsOf(old_: seq<Node>): (r: seq<Sib>)
    ensures |r| == |old_| && forall j :: 0 <= j < |r| ==> r[j] == SibOf(old_[j])
  {
    seq(|old_|, j requires 0 <= j < |old_| => SibOf(old_[j]))
  }

  /** Cell i stands left of child i; its overflow chain starts on page ovfl[i]. */
  function RefsOf(kids: seq<Node>, ovfl: seq<nat>): (r: seq<Refs>)
    requires |ovfl| == |kids|
    ensures |r| == |kids| && forall i :: 0 <= i < |r| ==> r[i] == Refs(kids[i].pgno, ovfl[i])
  {
    seq(|kids|, i requires 0 <= i < |kids| => Refs(kids[i].pgno, ovfl[i]))
  }

  /** Child m of old sibling j, counted over all siblings. */
  lemma {:induction false} KidAt(old_: seq<Node>, j: nat)
    requires j < |old_| && Alike(old_, false)
    ensures var f := First(SibsOf(old_), false, j); f + |old_[j].cells| + 1 <= |KidsOf(old_)| && KidsOf(old_)[f..f + |old_[j].cells| + 1] == old_[j].kids
    decreases j
  {
    assert Shaped(old_[0]);
    if j > 0 {
      KidAt(old_[1..], j - 1);
      FirstTail(old_, j);
    }
  }

  lemma {:induction false} FirstTail(old_: seq<Node>, j: nat)
    requires 0 < j <= |old_|
    ensures First(SibsOf(old_), false, j) == |old_[0].cells| + 1 + First(SibsOf(old_[1..]), false, j - 1)
    decreases j
  {
    if j > 1 { FirstTail(old_, j - 1); }
  }

  lemma {:induction false} KidCount(old_: seq<Node>, j: nat)
    requires j <= |old_| && Alike(old_, false)
    ensures First(SibsOf(old_), false, j) == |KidsOf(old_[..j])|
    decreases j
  {
    if j > 0 {
      KidCount(old_, j - 1);
      assert old_[..j] == old_[..j - 1] + [old_[j - 1]];
      KidsAppend(old_[..j - 1], [old_[j - 1]]);
      assert Shaped(old_[j - 1]);
    }
  }

  lemma {:induction false} KidsAppend(a: seq<Node>, b: seq<Node>)
    ensures KidsOf(a + b) == KidsOf(a) + KidsOf(b)
  {
    if a == [] { assert a + b == b; } else {
      assert (a + b)[1..] == a[1..] + b;
      KidsAppend(a[1..], b);
    }
  }

  lemma KidIs(old_: seq<Node>, i: nat, j: nat)
    requires j < |old_| && Alike(old_, false) && Settled(SibsOf(old_), false, i, j)
    ensures var m := i - First(SibsOf(old_), false, j); i < |KidsOf(old_)| && 0 <= m < |old_[j].kids| && KidsOf(old_)[i] == old_[j].kids[m]
  {
    KidAt(old_, j);
    assert Shaped(old_[j]);
    var f := First(SibsOf(old_), false, j);
    assert KidsOf(old_)[f..f + |old_[j].cells| + 1][i - f] == old_[j].kids[i - f];
  }

  ghost predicate OldSiblings(old_: seq<Node>, entry: map<nat, nat>) {
    old_ != [] && Alike(old_, false) && forall j :: 0 <= j < |old_| ==> OvflInRange(old_[j]) && KidsNamed(old_[j], entry)
  }

  /** The overflow chains of the cells that stay on pages: before, they name the old page. */
  ghost predicate ChainsNamed(old_: seq<Node>, cnt: seq<nat>, ovfl: seq<nat>, entry: map<nat, nat>) {
    forall i: nat, j: nat, k: nat :: i < |ovfl| && j < |old_| && k < |cnt| && Settled(SibsOf(old_), false, i, j) && On(cnt, false, i, k) && ovfl[i] != 0
      ==> ovfl[i] in entry && entry[ovfl[i]] == old_[j].pgno
  }

  lemma SiblingsBefore(old_: seq<Node>, ovfl: seq<nat>, cnt: seq<nat>, entry: map<nat, nat>)
    requires OldSiblings(old_, entry) && ChainsNamed(old_, cnt, ovfl, entry) && |ovfl| == |KidsOf(old_)|
    ensures TrueBefore(SibsOf(old_), cnt, false, false, RefsOf(KidsOf(old_), ovfl), entry, 0)
    ensures Layout(SibsOf(old_), false, |KidsOf(old_)| - 1)
  {
    KidCount(old_, |old_|);
    assert old_[..|old_|] == old_;
    var cells := RefsOf(KidsOf(old_), ovfl);
    forall i: nat, j: nat, k: nat | i < |cells| && j < |old_| && k < |cnt| && Settled(SibsOf(old_), false, i, j) && On(cnt, false, i, k)
      ensures Named(entry, cells[i], false, old_[j].pgno)
    {
      KidIs(old_, i, j);
      assert KidsNamed(old_[j], entry);
    }
  }

  /** Once interior siblings have been spread anew, every child and every overflow chain of theirs names its new page. */
  method Reparent(old_: seq<Node>, ovfl: seq<nat>, ghost all: seq<Cell>, cnt: seq<nat>, sibs: seq<Node>, ghost divs: seq<Cell>, entry0: map<nat, nat>)
    returns (entry: map<nat, nat>)
    requires OldSiblings(old_, entry0) && IsCut(false, false, all, KidsOf(old_), cnt, sibs, divs) && (|cnt| == 1 || NoEmptyPage(false, cnt))
    requires |ovfl| == |KidsOf(old_)| && AllApart(RefsOf(KidsOf(old_), ovfl), false) && ChainsNamed(old_, cnt, ovfl, entry0)
    ensures forall k :: 0 <= k < |sibs| ==> KidsNamed(sibs[k], entry)
    ensures forall i: nat, k: nat :: i < |ovfl| && k < |sibs| && On(cnt, false, i, k) && ovfl[i] != 0 ==> ovfl[i] in entry && entry[ovfl[i]] == sibs[k].pgno
    ensures forall p: nat :: p !in Pgnos(KidsOf(old_)) && p !in ovfl ==> SameAt(entry0, entry, p)
  {
    hide AllApart;
    var kids := KidsOf(old_);
    var cells := RefsOf(kids, ovfl);
    SiblingsBefore(old_, ovfl, cnt, entry0);
    CutsOrdered(all, kids, cnt, sibs, divs);
    entry := PutSiblings(SibsOf(old_), cells, cnt, Pgnos(sibs), entry0);
    forall k | 0 <= k < |sibs| ensures KidsNamed(sibs[k], entry) { 
      SiblingKids(all, kids, cnt, sibs, divs, k);
      SiblingNamed(kids, ovfl, cnt, Pgnos(sibs), entry, k, sibs[k]);
    }
    forall i: nat, k: nat | i < |ovfl| && k < |sibs| && On(cnt, false, i, k) && ovfl[i] != 0 ensures ovfl[i] in entry && entry[ovfl[i]] == sibs[k].pgno {
      assert Named(entry, cells[i], false, Pgnos(sibs)[k]);
    }
    forall p: nat | p !in Pgnos(kids) && p !in ovfl ensures SameAt(entry0, entry, p) { Elsewhere(kids, ovfl, cnt, p); }
  }

  lemma Elsewhere(kids: seq<Node>, ovfl: seq<nat>, cnt: seq<nat>, p: nat)
    requires |ovfl| == |kids| && p !in Pgnos(kids) && p !in ovfl && forall k :: 0 <= k < |cnt| ==> cnt[k] < |kids|
    ensures var cells := RefsOf(kids, ovfl); Unmoved(cnt, false, false, cells, p) && NotRight(cnt, cells, p)
  {
    forall i | 0 <= i < |kids| ensures p != kids[i].pgno && p != ovfl[i] { assert Pgnos(kids)[i] == kids[i].pgno; }
  }

  lemma CutsOrdered(all: seq<Cell>, kids: seq<Node>, cnt: seq<nat>, sibs: seq<Node>, divs: seq<Cell>)
    requires IsCut(false, false, all, kids, cnt, sibs, divs) && (|cnt| == 1 || NoEmptyPage(false, cnt))
    ensures Ordered(cnt, false) && cnt != [] && cnt[|cnt| - 1] == |kids| - 1
    ensures forall k :: 0 <= k < |cnt| ==> cnt[k] < |kids|
  {
    forall k | 0 <= k < |cnt| ensures cnt[k] < |kids| && InOrder(cnt, false, k) { assert CutPage(false, false, all, kids, cnt, k, sibs[k]); }
  }

  lemma SiblingKids(all: seq<Cell>, kids: seq<Node>, cnt: seq<nat>, sibs: seq<Node>, divs: seq<Cell>, k: nat)
    requires IsCut(false, false, all, kids, cnt, sibs, divs) && k < |cnt|
    ensures k < |sibs| == |cnt| && Start(cnt, false, k) <= cnt[k] < |kids| && sibs[k].kids == kids[Start(cnt, false, k)..cnt[k] + 1]
  {
    assert CutPage(false, false, all, kids, cnt, k, sibs[k]);
  }

  lemma SiblingNamed(kids: seq<Node>, ovfl: seq<nat>, cnt: seq<nat>, newPg: seq<nat>, entry: map<nat, nat>, k: nat, n: Node)
    requires k < |cnt| == |newPg| && |ovfl| == |kids| && newPg[k] == n.pgno && forall k :: 0 <= k < |cnt| ==> cnt[k] < |kids|
    requires Start(cnt, false, k) <= cnt[k] && n.kids == kids[Start(cnt, false, k)..cnt[k] + 1]
    requires TrueAfter(cnt, false, false, RefsOf(kids, ovfl), newPg, entry, |kids|) && RightNamed(cnt, RefsOf(kids, ovfl), newPg, entry, |cnt|)
    ensures KidsNamed(n, entry)
  {
    var st, cells := Start(cnt, false, k), RefsOf(kids, ovfl);
    forall i: nat | st <= i <= cnt[k] ensures kids[i].pgno in entry && entry[kids[i].pgno] == n.pgno {
      assert cells[i].child == kids[i].pgno;
      if i < cnt[k] {
        assert On(cnt, false, i, k);
        assert Named(entry, cells[i], false, n.pgno);
      }
    }
    RunNamed(kids, st, cnt[k] + 1, entry, n);
  }

  lemma RunNamed(kids: seq<Node>, st: nat, end: nat, entry: map<nat, nat>, n: Node)
    requires st <= end <= |kids| && n.kids == kids[st..end]
    requires forall i: nat :: st <= i < end ==> kids[i].pgno in entry && entry[kids[i].pgno] == n.pgno
    ensures KidsNamed(n, entry)
  {
    forall m | 0 <= m < |n.kids| ensures n.kids[m].pgno in entry && entry[n.kids[m].pgno] == n.pgno {
      assert n.kids[m] == kids[st + m];
    }
  }
}
