/** The two loops that decide how the cells of up to three neighbouring pages are spread over the pages that
    replace them. */
module BtreePacking {
  import opened BtreeShape

  /** Pages taking part in one balancing step. */
  const NB := 3

  /** A cell that divides two pages goes to the parent, except on the leaves of a table. */
  function Gap(leafData: bool): nat { if leafData then 0 else 1 }

  /** First cell of page i when cnt[j] is the cell just right of page j. */
  function Start(cnt: seq<nat>, leafData: bool, i: nat): nat
    requires i <= |cnt|
  {
    if i == 0 then 0 else cnt[i - 1] + Gap(leafData)
  }

  ghost predicate PageFitsAt(sz: seq<nat>, room: nat, leafData: bool, cnt: seq<nat>, i: nat)
    requires i < |cnt|
  {
    Start(cnt, leafData, i) <= cnt[i] <= |sz| && Span(sz, Start(cnt, leafData, i), cnt[i]) <= room
  }

  /** Cut points that spread all cells over pages none of which is overfull. */
  ghost predicate Partition(sz: seq<nat>, room: nat, leafData: bool, cnt: seq<nat>) {
    && cnt != [] && cnt[|cnt| - 1] == |sz|
    && forall i :: 0 <= i < |cnt| ==> PageFitsAt(sz, room, leafData, cnt, i)
  }

  ghost predicate NoEmptyPage(leafData: bool, cnt: seq<nat>) {
    forall i :: 0 <= i < |cnt| ==> Start(cnt, leafData, i) < cnt[i]
  }

  /** Page i of the left-to-right packing could not have taken one cell more. */
  ghost predicate FullAt(sz: seq<nat>, room: nat, leafData: bool, cnt: seq<nat>, i: nat)
    requires i < |cnt|
  {
    Start(cnt, leafData, i) < cnt[i] < |sz| && Span(sz, Start(cnt, leafData, i), cnt[i] + 1) > room
  }

  /** Moving one more cell from page i-1 to page i would leave the right page the fuller one. */
  ghost predicate SettledAt(sz: seq<nat>, leafData: bool, greedy: seq<nat>, cnt: seq<nat>, i: nat)
    requires 0 < i < |cnt| == |greedy|
  {
    var c, st := cnt[i - 1], Start(greedy, leafData, i - 1);
    && st < c <= greedy[i - 1] && c + Gap(leafData) <= cnt[i] <= |sz| && c - Gap(!leafData) < |sz|
    && Span(sz, c + Gap(leafData), cnt[i]) + (if i == |cnt| - 1 then 0 else 2) + sz[c - Gap(!leafData)] + 2
       > Span(sz, st, c) + 2 - (sz[c - 1] + 2)
  }

  /** What the loops need to know about cell sizes: each fits alone, and where dividers are taken out any three fit. */
  ghost predicate SmallCells(sz: seq<nat>, room: nat, leafData: bool) {
    forall i :: 0 <= i < |sz| ==> 4 <= sz[i] && sz[i] + 2 <= room && (!leafData ==> 3 * (sz[i] + 2) <= room)
  }

  /** A valid partition never cuts further right than the left-to-right packing does. */
  lemma {:induction false} GreedyAhead(sz: seq<nat>, room: nat, leafData: bool, w: seq<nat>, cnt: seq<nat>, k: nat, i: nat)
    requires Partition(sz, room, leafData, w) && k < |w| && k == |cnt| && i < |sz|
    requires forall j :: 0 <= j < k ==> w[j] <= cnt[j]
    requires Start(cnt, leafData, k) <= i && Span(sz, Start(cnt, leafData, k), i + 1) > room
    ensures w[k] <= i && k + 1 < |w|
  {
    assert PageFitsAt(sz, room, leafData, w, k);
    var a, b := Start(w, leafData, k), Start(cnt, leafData, k);
    if i < w[k] {
      SpanSplit(sz, a, b, w[k]);
      SpanSplit(sz, b, i + 1, w[k]);
      assert false;
    }
  }

  /** Pages filled from the left, each as far as it goes. */
  ghost predicate Packed(sz: seq<nat>, room: nat, leafData: bool, cnt: seq<nat>) {
    forall j :: 0 <= j < |cnt| ==> FullAt(sz, room, leafData, cnt, j) && PageFitsAt(sz, room, leafData, cnt, j)
  }

  /** The size the code records for a page: one pointer too much, unless it is the last page. */
  ghost predicate Recorded(sz: seq<nat>, leafData: bool, cnt: seq<nat>, szNew: seq<int>, done: bool) {
    && |szNew| == |cnt|
    && forall j :: 0 <= j < |cnt| ==>
         cnt[j] <= |sz| && szNew[j] == Span(sz, Start(cnt, leafData, j), cnt[j]) + if done && j == |cnt| - 1 then 0 else 2
  }

  lemma RecordedExtend(sz: seq<nat>, leafData: bool, cnt: seq<nat>, szNew: seq<int>, i: nat, done: bool)
    requires Recorded(sz, leafData, cnt, szNew, false) && i <= |sz|
    ensures Recorded(sz, leafData, cnt + [i],
                     szNew + [Span(sz, Start(cnt, leafData, |cnt|), i) + if done then 0 else 2], done)
  {
    var cnt' := cnt + [i];
    forall j | 0 <= j < |cnt| ensures Start(cnt', leafData, j) == Start(cnt, leafData, j) && cnt'[j] == cnt[j] {}
  }

  lemma PackedExtend(sz: seq<nat>, room: nat, leafData: bool, cnt: seq<nat>, i: nat)
    requires Packed(sz, room, leafData, cnt) && SmallCells(sz, room, leafData) && i < |sz|
    requires Start(cnt, leafData, |cnt|) <= i
    requires Span(sz, Start(cnt, leafData, |cnt|), i) <= room < Span(sz, Start(cnt, leafData, |cnt|), i + 1)
    ensures Packed(sz, room, leafData, cnt + [i]) && Start(cnt, leafData, |cnt|) < i
  {
    var cnt' := cnt + [i];
    assert Span(sz, i, i + 1) == Span(sz, i, i) + sz[i] + 2;
    forall j | 0 <= j < |cnt'| ensures FullAt(sz, room, leafData, cnt', j) && PageFitsAt(sz, room, leafData, cnt', j) {
      if j < |cnt| { assert FullAt(sz, room, leafData, cnt, j) && PageFitsAt(sz, room, leafData, cnt, j); }
    }
  }

  ghost predicate PackState(sz: seq<nat>, room: nat, leafData: bool, w: seq<nat>, cnt: seq<nat>, szNew: seq<int>) {
    && |cnt| < |w|
    && (forall j :: 0 <= j < |cnt| ==> w[j] <= cnt[j])
    && Packed(sz, room, leafData, cnt) && Recorded(sz, leafData, cnt, szNew, false)
  }

  /** Cell i does not fit any more: page |cnt| ends before it. */
  lemma CutHere(sz: seq<nat>, room: nat, leafData: bool, w: seq<nat>, cnt: seq<nat>, szNew: seq<int>, i: nat)
    requires SmallCells(sz, room, leafData) && Partition(sz, room, leafData, w)
    requires PackState(sz, room, leafData, w, cnt, szNew)
    requires Start(cnt, leafData, |cnt|) <= i < |sz|
    requires Span(sz, Start(cnt, leafData, |cnt|), i) <= room < Span(sz, Start(cnt, leafData, |cnt|), i + 1)
    ensures PackState(sz, room, leafData, w, cnt + [i], szNew + [Span(sz, Start(cnt, leafData, |cnt|), i) + 2])
    ensures Start(cnt, leafData, |cnt|) < i
  {
    GreedyAhead(sz, room, leafData, w, cnt, |cnt|, i);
    PackedExtend(sz, room, leafData, cnt, i);
    RecordedExtend(sz, leafData, cnt, szNew, i, false);
  }

  /** What PackLeft leaves behind. */
  ghost predicate LeftPacked(sz: seq<nat>, room: nat, leafData: bool, cnt: seq<nat>, szNew: seq<int>) {
    && cnt != [] && Packed(sz, room, leafData, cnt[..|cnt| - 1])
    && cnt[|cnt| - 1] == |sz| && PageFitsAt(sz, room, leafData, cnt, |cnt| - 1)
    && Recorded(sz, leafData, cnt, szNew, true)
    && (sz != [] && leafData ==> Start(cnt, leafData, |cnt| - 1) < |sz|)
  }

  /** All cells are placed: the last page ends the packing. */
  lemma LastPage(sz: seq<nat>, room: nat, leafData: bool, w: seq<nat>, cnt: seq<nat>, szNew: seq<int>)
    requires PackState(sz, room, leafData, w, cnt, szNew)
    requires Start(cnt, leafData, |cnt|) <= |sz| && Span(sz, Start(cnt, leafData, |cnt|), |sz|) <= room
    requires leafData ==> sz == [] || Start(cnt, leafData, |cnt|) < |sz|
    ensures LeftPacked(sz, room, leafData, cnt + [|sz|], szNew + [Span(sz, Start(cnt, leafData, |cnt|), |sz|)])
  {
    var cnt' := cnt + [|sz|];
    RecordedExtend(sz, leafData, cnt, szNew, |sz|, true);
    assert cnt'[..|cnt|] == cnt;
  }

  method PackLeft(sz: seq<nat>, room: nat, leafData: bool, ghost w: seq<nat>) returns (szNew: seq<int>, cntNew: seq<nat>)
    requires SmallCells(sz, room, leafData)
    requires Partition(sz, room, leafData, w) && |w| <= NB + 2
    ensures 0 < |cntNew| <= |w|
    ensures LeftPacked(sz, room, leafData, cntNew, szNew)
  {
    szNew, cntNew := [], [];
    var i, subtotal := 0, 0;
    while i < |sz|
      invariant PackState(sz, room, leafData, w, cntNew, szNew)
      invariant Start(cntNew, leafData, |cntNew|) <= i <= |sz|
      invariant subtotal == Span(sz, Start(cntNew, leafData, |cntNew|), i) <= room
      invariant leafData && i == |sz| ==> sz == [] || Start(cntNew, leafData, |cntNew|) < i
      decreases |sz| - i + |w| - |cntNew|
    {
      subtotal := subtotal + sz[i] + 2;
      if subtotal > room {
        CutHere(sz, room, leafData, w, cntNew, szNew, i);
        szNew := szNew + [subtotal - sz[i]];
        cntNew := cntNew + [i];
        if leafData { i := i - 1; }
        subtotal := 0;
      }
      i := i + 1;
    }
    LastPage(sz, room, leafData, w, cntNew, szNew);
    szNew := szNew + [subtotal];
    cntNew := cntNew + [|sz|];
  }

  lemma SpanEnds(sz: seq<nat>, lo: nat, hi: nat)
    requires lo < hi <= |sz|
    ensures Span(sz, lo, hi) == sz[lo] + 2 + Span(sz, lo + 1, hi) == Span(sz, lo, hi - 1) + sz[hi - 1] + 2
  {
    SpanSplit(sz, lo, lo + 1, hi);
    assert Span(sz, lo, lo + 1) == Span(sz, lo, lo) + sz[lo] + 2;
  }

  /** A page that could not take one cell more, where any three cells fit, holds at least two. */
  lemma FullHoldsTwo(sz: seq<nat>, room: nat, st: nat, c: nat)
    requires SmallCells(sz, room, false) && st < c < |sz| && Span(sz, st, c + 1) > room
    ensures st + 1 < c
  {
    SpanEnds(sz, st, st + 2);
    SpanEnds(sz, st + 1, st + 2);
  }

  /** A left page st .. cut-1 and a right page that ends before hi, with their recorded sizes. */
  ghost predicate Neighbours(sz: seq<nat>, room: nat, leafData: bool, st: nat, cut: nat, hi: nat, extra: nat, left: int, right: int) {
    && st < cut && cut + Gap(leafData) <= hi <= |sz|
    && Span(sz, st, cut) <= room && Span(sz, cut + Gap(leafData), hi) <= room
    && left == Span(sz, st, cut) + 2 && right == Span(sz, cut + Gap(leafData), hi) + extra
  }

  /** Moves cells over the boundary between two pages until the right page holds something and, unless this is a bulk
      load, is about as full as the left one. */
  method Shift(sz: seq<nat>, ghost room: nat, leafData: bool, bBulk: bool, ghost st: nat, cut: nat, ghost hi: nat, ghost extra: nat,
               left: int, right: int)
    returns (c: nat, szLeft: int, szRight: int)
    requires SmallCells(sz, room, leafData) && Neighbours(sz, room, leafData, st, cut, hi, extra, left, right)
    requires cut + Gap(leafData) < hi || (extra == 0 && !leafData && Span(sz, st, cut + 1) > room)
    ensures c <= cut && c + Gap(leafData) < hi && Neighbours(sz, room, leafData, st, c, hi, extra, szLeft, szRight)
    ensures !bBulk ==> szRight + sz[c - Gap(!leafData)] + 2 > szLeft - (sz[c - 1] + 2)
  {
    c := cut;
    szLeft, szRight := left, right;
    if cut + Gap(leafData) == hi { FullHoldsTwo(sz, room, st, cut); }
    if cut + Gap(leafData) < hi { SpanEnds(sz, cut + Gap(leafData), hi); }
    var r := c - 1;
    var d := r + 1 - Gap(!leafData);
    while szRight == 0 || (!bBulk && szRight + sz[d] + 2 <= szLeft - (sz[r] + 2))
      invariant c <= cut && r == c - 1 && d == c - Gap(!leafData)
      invariant Neighbours(sz, room, leafData, st, c, hi, extra, szLeft, szRight)
      invariant szRight == 0 ==> st + 1 < c && !leafData
      invariant szRight != 0 ==> c + Gap(leafData) < hi
      decreases c
    {
      ShiftOne(sz, room, leafData, st, c, hi, extra, szLeft, szRight);
      szRight := szRight + sz[d] + 2;
      szLeft := szLeft - (sz[r] + 2);
      c := c - 1;
      r := c - 1;
      d := r + 1 - Gap(!leafData);
    }
  }

  lemma ShiftOne(sz: seq<nat>, room: nat, leafData: bool, st: nat, c: nat, hi: nat, extra: nat, left: int, right: int)
    requires SmallCells(sz, room, leafData) && Neighbours(sz, room, leafData, st, c, hi, extra, left, right)
    requires right == 0 ==> st + 1 < c && !leafData
    requires right != 0 ==> c + Gap(leafData) < hi && right + sz[c - Gap(!leafData)] + 2 <= left - (sz[c - 1] + 2)
    ensures Neighbours(sz, room, leafData, st, c - 1, hi, extra, left - (sz[c - 1] + 2), right + sz[c - Gap(!leafData)] + 2)
  {
    SpanEnds(sz, st, c);
    SpanEnds(sz, c - 1 + Gap(leafData), hi);
  }

  /** Boundaries i.. are settled: the pages to their right hold something and fit. */
  ghost predicate SettledFrom(sz: seq<nat>, room: nat, leafData: bool, bBulk: bool, greedy: seq<nat>, cnt: seq<nat>, i: nat) {
    && |cnt| == |greedy|
    && (forall j :: i <= j < |cnt| ==> PageFitsAt(sz, room, leafData, cnt, j) && (0 < j ==> Start(cnt, leafData, j) < cnt[j]))
    && (!bBulk ==> forall j :: i <= j < |cnt| && 0 < j ==> SettledAt(sz, leafData, greedy, cnt, j))
  }

  lemma SettleStep(sz: seq<nat>, room: nat, leafData: bool, bBulk: bool, greedy: seq<nat>, cnt: seq<nat>, i: nat, c: nat)
    requires 0 < i < |cnt| == |greedy| && cnt[..i] == greedy[..i]
    requires SettledFrom(sz, room, leafData, bBulk, greedy, cnt, i + 1)
    requires Start(greedy, leafData, i - 1) < c <= greedy[i - 1] && c + Gap(leafData) < cnt[i] <= |sz|
    requires Span(sz, c + Gap(leafData), cnt[i]) <= room
    requires !bBulk ==> SettledAt(sz, leafData, greedy, cnt[i - 1 := c], i)
    ensures SettledFrom(sz, room, leafData, bBulk, greedy, cnt[i - 1 := c], i)
  {
    var cnt' := cnt[i - 1 := c];
    forall j | i <= j < |cnt'|
      ensures PageFitsAt(sz, room, leafData, cnt', j) && Start(cnt', leafData, j) < cnt'[j]
      ensures !bBulk ==> SettledAt(sz, leafData, greedy, cnt', j)
    {
      if i < j {
        assert PageFitsAt(sz, room, leafData, cnt, j);
        if !bBulk { assert SettledAt(sz, leafData, greedy, cnt, j); }
      }
    }
  }

  /** Boundary i is next; everything left of it is still as PackLeft put it. */
  ghost predicate SpreadState(sz: seq<nat>, room: nat, leafData: bool, greedy: seq<nat>, recorded: seq<int>, cnt: seq<nat>,
                              szNew: seq<int>, i: nat)
  {
    && i < |cnt| == |szNew| == |greedy| == |recorded| && cnt[..i] == greedy[..i] && szNew[..i] == recorded[..i]
    && cnt[|cnt| - 1] == |sz|
    && PageFitsAt(sz, room, leafData, cnt, i)
    && szNew[i] == Span(sz, Start(cnt, leafData, i), cnt[i]) + (if i == |cnt| - 1 then 0 else 2)
    && (Start(cnt, leafData, i) < cnt[i] || (i == |cnt| - 1 && (sz == [] || !leafData)))
  }

  lemma LeftPageFull(sz: seq<nat>, room: nat, leafData: bool, greedy: seq<nat>, recorded: seq<int>, cnt: seq<nat>,
                     szNew: seq<int>, i: nat)
    requires LeftPacked(sz, room, leafData, greedy, recorded)
    requires SpreadState(sz, room, leafData, greedy, recorded, cnt, szNew, i) && 0 < i
    ensures Neighbours(sz, room, leafData, Start(greedy, leafData, i - 1), cnt[i - 1], cnt[i],
                       if i == |cnt| - 1 then 0 else 2, szNew[i - 1], szNew[i])
    ensures cnt[i - 1] == greedy[i - 1] && FullAt(sz, room, leafData, greedy, i - 1)
    ensures cnt[i - 1] + Gap(leafData) < cnt[i] || (i == |cnt| - 1 && !leafData)
  {
    var g := greedy[..|cnt| - 1];
    assert FullAt(sz, room, leafData, g, i - 1) && PageFitsAt(sz, room, leafData, g, i - 1);
    assert cnt[..i][i - 1] == greedy[..i][i - 1] && szNew[..i][i - 1] == recorded[..i][i - 1];
    if i > 1 { assert cnt[..i][i - 2] == greedy[..i][i - 2]; }
  }

  lemma SpreadStep(sz: seq<nat>, room: nat, leafData: bool, greedy: seq<nat>, recorded: seq<int>, cnt: seq<nat>,
                   szNew: seq<int>, i: nat, c: nat, szLeft: int, szRight: int)
    requires SpreadState(sz, room, leafData, greedy, recorded, cnt, szNew, i) && 0 < i
    requires Neighbours(sz, room, leafData, Start(greedy, leafData, i - 1), c, cnt[i], if i == |cnt| - 1 then 0 else 2, szLeft, szRight)
    ensures SpreadState(sz, room, leafData, greedy, recorded, cnt[i - 1 := c], szNew[i := szRight][i - 1 := szLeft], i - 1)
    ensures Start(greedy, leafData, i - 1) == Start(cnt[i - 1 := c], leafData, i - 1) < c
  {
    SamePrefix(cnt, greedy, i, c);
    assert szNew[i := szRight][..i] == szNew[..i];
    SamePrefix(szNew[i := szRight], recorded, i, szLeft);
  }

  lemma SamePrefix<T>(a: seq<T>, b: seq<T>, i: nat, c: T)
    requires 0 < i <= |a| && i <= |b| && a[..i] == b[..i]
    ensures a[i - 1 := c][..i - 1] == b[..i - 1]
    ensures i > 1 ==> a[i - 1 := c][i - 2] == b[i - 2]
  {
    forall j | 0 <= j < i ensures a[j] == b[j] { assert a[..i][j] == b[..i][j]; }
  }

  lemma SettleBoundary(sz: seq<nat>, room: nat, leafData: bool, bBulk: bool, greedy: seq<nat>, cnt: seq<nat>, i: nat,
                       c: nat, extra: nat, szLeft: int, szRight: int)
    requires 0 < i < |cnt| == |greedy| && cnt[..i] == greedy[..i] && extra == (if i == |cnt| - 1 then 0 else 2)
    requires SettledFrom(sz, room, leafData, bBulk, greedy, cnt, i + 1)
    requires c <= greedy[i - 1] && c + Gap(leafData) < cnt[i] <= |sz|
    requires Neighbours(sz, room, leafData, Start(greedy, leafData, i - 1), c, cnt[i], extra, szLeft, szRight)
    requires !bBulk ==> szRight + sz[c - Gap(!leafData)] + 2 > szLeft - (sz[c - 1] + 2)
    ensures SettledFrom(sz, room, leafData, bBulk, greedy, cnt[i - 1 := c], i)
  {
    SettleStep(sz, room, leafData, bBulk, greedy, cnt, i, c);
  }

  lemma SpreadStart(sz: seq<nat>, room: nat, leafData: bool, cnt: seq<nat>, szNew: seq<int>)
    requires LeftPacked(sz, room, leafData, cnt, szNew)
    ensures SpreadState(sz, room, leafData, cnt, szNew, cnt, szNew, |cnt| - 1)
  {
  }

  lemma SpreadDone(sz: seq<nat>, room: nat, leafData: bool, bBulk: bool, greedy: seq<nat>, recorded: seq<int>, cnt: seq<nat>,
                   szNew: seq<int>)
    requires SpreadState(sz, room, leafData, greedy, recorded, cnt, szNew, 0)
    requires SettledFrom(sz, room, leafData, bBulk, greedy, cnt, 1)
    requires |cnt| == 1 || Start(cnt, leafData, 0) < cnt[0]
    ensures Partition(sz, room, leafData, cnt)
    ensures if sz == [] then cnt == [0] else NoEmptyPage(leafData, cnt)
  {
    var last := |cnt| - 1;
    assert last == 0 || Start(cnt, leafData, last) < cnt[last];
  }

  /** Cut points such that every page fits, and no other ones with that property make fewer pages. */
  ghost predicate Fewest(sz: seq<nat>, room: nat, leafData: bool, cnt: seq<nat>) {
    && Partition(sz, room, leafData, cnt)
    && forall w: seq<nat> :: Partition(sz, room, leafData, w) ==> |cnt| <= |w|
  }

  /** No boundary, starting from where the left-to-right packing has it, can move further left to even out its two pages. */
  ghost predicate Evened(sz: seq<nat>, room: nat, leafData: bool, greedy: seq<nat>, cnt: seq<nat>) {
    && |greedy| == |cnt| > 0 && Packed(sz, room, leafData, greedy[..|greedy| - 1])
    && forall i :: 0 < i < |cnt| ==> SettledAt(sz, leafData, greedy, cnt, i)
  }

  /** As few pages as possible, none empty, and evened out except in a bulk load. */
  ghost predicate WellPacked(sz: seq<nat>, room: nat, leafData: bool, bBulk: bool, cnt: seq<nat>) {
    && Fewest(sz, room, leafData, cnt)
    && (if sz == [] then cnt == [0] else NoEmptyPage(leafData, cnt))
    && (!bBulk ==> exists greedy: seq<nat> :: Evened(sz, room, leafData, greedy, cnt))
  }

  lemma PackedWell(sz: seq<nat>, room: nat, leafData: bool, bBulk: bool, greedy: seq<nat>, cnt: seq<nat>)
    requires |greedy| == |cnt| > 0 && Packed(sz, room, leafData, greedy[..|greedy| - 1]) && Partition(sz, room, leafData, cnt)
    requires if sz == [] then cnt == [0] else NoEmptyPage(leafData, cnt)
    requires !bBulk ==> forall i :: 0 < i < |cnt| ==> SettledAt(sz, leafData, greedy, cnt, i)
    ensures WellPacked(sz, room, leafData, bBulk, cnt)
  {
    PackedFewest(sz, room, leafData, greedy, cnt);
    hide Packed, Partition, NoEmptyPage, SettledAt, Fewest;
    assert !bBulk ==> Evened(sz, room, leafData, greedy, cnt);
  }

  /** The left-to-right packing is behind any other way to spread the cells on no page. */
  lemma {:induction false} PackedAhead(sz: seq<nat>, room: nat, leafData: bool, greedy: seq<nat>, w: seq<nat>, k: nat)
    requires Packed(sz, room, leafData, greedy) && Partition(sz, room, leafData, w) && k <= |greedy|
    ensures k < |w| && forall j :: 0 <= j < k ==> w[j] <= greedy[j]
    decreases k
  {
    if k > 0 {
      PackedAhead(sz, room, leafData, greedy, w, k - 1);
      assert FullAt(sz, room, leafData, greedy, k - 1);
      GreedyAhead(sz, room, leafData, w, greedy[..k - 1], k - 1, greedy[k - 1]);
    }
  }

  lemma PackedFewest(sz: seq<nat>, room: nat, leafData: bool, greedy: seq<nat>, cnt: seq<nat>)
    requires greedy != [] && Packed(sz, room, leafData, greedy[..|greedy| - 1]) && |cnt| == |greedy| && Partition(sz, room, leafData, cnt)
    ensures Fewest(sz, room, leafData, cnt)
  {
    hide Packed, Partition;
    forall w: seq<nat> | Partition(sz, room, leafData, w) ensures |cnt| <= |w| {
      PackedAhead(sz, room, leafData, greedy[..|greedy| - 1], w, |greedy| - 1);
    }
  }

  /** Spreads all cells over at most |w| pages, w being any way to spread them: every page fits, none is empty unless
      there are no cells at all, and unless this is a bulk load no boundary can move left to even out its two pages. */
  method Pack(sz: seq<nat>, room: nat, leafData: bool, bBulk: bool, ghost w: seq<nat>)
    returns (cntNew: seq<nat>, ghost greedy: seq<nat>)
    requires SmallCells(sz, room, leafData)
    requires Partition(sz, room, leafData, w) && |w| <= NB + 2
    ensures |cntNew| <= |w| && Partition(sz, room, leafData, cntNew)
    ensures if sz == [] then cntNew == [0] else NoEmptyPage(leafData, cntNew)
    ensures |greedy| == |cntNew| && Packed(sz, room, leafData, greedy[..|greedy| - 1])
    ensures WellPacked(sz, room, leafData, bBulk, cntNew)
    ensures !bBulk ==> forall i :: 0 < i < |cntNew| ==> SettledAt(sz, leafData, greedy, cntNew, i)
  {
    var szNew;
    szNew, cntNew := PackLeft(sz, room, leafData, w);
    greedy := cntNew;
    ghost var recorded := szNew;
    SpreadStart(sz, room, leafData, cntNew, szNew);
    var k := |cntNew|;
    var i := k - 1;
    while i > 0
      invariant 0 <= i < k == |cntNew| && SpreadState(sz, room, leafData, greedy, recorded, cntNew, szNew, i)
      invariant SettledFrom(sz, room, leafData, bBulk, greedy, cntNew, i + 1)
      invariant i < k - 1 ==> Start(cntNew, leafData, i) < cntNew[i]
    {
      LeftPageFull(sz, room, leafData, greedy, recorded, cntNew, szNew, i);
      var c, szLeft, szRight := Shift(sz, room, leafData, bBulk, Start(greedy, leafData, i - 1), cntNew[i - 1], cntNew[i],
                                      if i == k - 1 then 0 else 2, szNew[i - 1], szNew[i]);
      SpreadStep(sz, room, leafData, greedy, recorded, cntNew, szNew, i, c, szLeft, szRight);
      SettleBoundary(sz, room, leafData, bBulk, greedy, cntNew, i, c, if i == k - 1 then 0 else 2, szLeft, szRight);
      cntNew := cntNew[i - 1 := c];
      szNew := szNew[i := szRight][i - 1 := szLeft];
      i := i - 1;
    }
    SpreadDone(sz, room, leafData, bBulk, greedy, recorded, cntNew, szNew);
    PackedWell(sz, room, leafData, bBulk, greedy, cntNew);
  }
}
