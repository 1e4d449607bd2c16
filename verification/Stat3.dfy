/** The sampler of ANALYZE: of a stream of keys, it keeps every periodic one and, of the others, those with the most rows. */
module Stat3 {
  import opened Arith

  datatype Sample = Sample(iRowid: int, nEq: nat, nLt: nat, nDLt: nat, isPSample: bool, iHash: nat)

  /** More rows, or as many and a hash no smaller. */
  predicate AtMost(x: Sample, y: Sample) {
    x.nEq < y.nEq || (x.nEq == y.nEq && x.iHash <= y.iHash)
  }

  // ----- how many samples are periodic -----

  function Periodic(s: seq<Sample>): nat {
    if s == [] then 0 else Periodic(s[..|s| - 1]) + if s[|s| - 1].isPSample then 1 else 0
  }

  lemma {:induction false} PeriodicAppend(s: seq<Sample>, t: seq<Sample>)
    ensures Periodic(s + t) == Periodic(s) + Periodic(t)
  {
    if t == [] {
      assert s + t == s;
    } else {
      PeriodicAppend(s, t[..|t| - 1]);
      assert (s + t)[..|s + t| - 1] == s + t[..|t| - 1];
    }
  }

  lemma PeriodicOne(x: Sample)
    ensures Periodic([x]) == if x.isPSample then 1 else 0
  {
    assert [x][..0] == [];
  }

  lemma {:induction false} SomeOrdinary(s: seq<Sample>) returns (i: nat)
    requires Periodic(s) < |s|
    ensures i < |s| && !s[i].isPSample
  {
    if !s[|s| - 1].isPSample { i := |s| - 1; } else { i := SomeOrdinary(s[..|s| - 1]); }
  }

  // ----- arithmetic -----

  /** How often a key is sampled whatever its size. */
  function Period(nRow: nat, mxSample: nat): (r: nat)
    ensures r > 0
  {
    nRow / (mxSample / 3 + 1) + 1
  }

  /** The rows before a key and those up to its end lie in different periods. */
  predicate Crosses(nLt: nat, nEq: nat, p: nat)
    requires p > 0
  {
    nLt / p != (nEq + nLt) / p
  }

  /** The next pseudo-random number. */
  function NextPrn(iPrn: nat): nat {
    (iPrn * 1103515245 + 12345) % 0x1_0000_0000
  }

  lemma DivMono(a: nat, b: nat, n: nat)
    requires a <= b && n > 0
    ensures a / n <= b / n
  {
    if a / n > b / n { MulMono(b / n + 1, a / n, n); }
  }

  /** At most a third of the samples can be periodic. */
  lemma PeriodsFit(nRow: nat, mxSample: nat, total: nat)
    requires total <= nRow
    ensures total / Period(nRow, mxSample) <= mxSample / 3
  {
    var m, p: nat := mxSample / 3 + 1, Period(nRow, mxSample);
    var q: nat := nRow / m;
    assert nRow == q * m + nRow % m;
    var k: nat := total / p;
    assert total == k * p + total % p;
    assert m * p == q * m + m;
    if k >= m { MulMono(m, k, p); }
  }

  /** A period one shorter would let more than that through. */
  lemma PeriodLeast(nRow: nat, mxSample: nat)
    ensures (Period(nRow, mxSample) - 1) * (mxSample / 3 + 1) <= nRow < Period(nRow, mxSample) * (mxSample / 3 + 1)
  {
    var m := mxSample / 3 + 1;
    assert nRow == nRow / m * m + nRow % m;
  }

  // ----- what is kept -----

  /** Keys come in order. */
  ghost predicate Ordered(s: seq<Sample>, total: nat) {
    && (forall i, j :: 0 <= i < j < |s| ==> s[i].nLt + s[i].nEq <= s[j].nLt)
    && (forall i :: 0 <= i < |s| ==> s[i].nEq > 0 && s[i].nLt + s[i].nEq <= total)
  }

  ghost predicate MinAt(s: seq<Sample>, i: nat) {
    && i < |s| && !s[i].isPSample
    && forall j :: 0 <= j < |s| && !s[j].isPSample ==> AtMost(s[i], s[j])
  }

  /** No lost key was periodic, nor better than a kept one that is not periodic. */
  ghost predicate Best(s: seq<Sample>, lost: multiset<Sample>) {
    forall x :: x in lost ==> !x.isPSample && forall j :: 0 <= j < |s| && !s[j].isPSample ==> AtMost(x, s[j])
  }

  function Without(s: seq<Sample>, i: nat): (r: seq<Sample>)
    requires i < |s|
    ensures |r| == |s| - 1 && forall j :: 0 <= j < |r| ==> r[j] == if j < i then s[j] else s[j + 1]
  {
    s[..i] + s[i + 1..]
  }

  lemma WithoutBag(s: seq<Sample>, i: nat)
    requires i < |s|
    ensures multiset(Without(s, i)) + multiset{s[i]} == multiset(s)
  {
    assert s == s[..i] + [s[i]] + s[i + 1..];
    assert multiset(s) == multiset(s[..i]) + multiset{s[i]} + multiset(s[i + 1..]);
  }

  lemma WithoutPeriodic(s: seq<Sample>, i: nat)
    requires i < |s|
    ensures Periodic(Without(s, i)) == Periodic(s) - if s[i].isPSample then 1 else 0
  {
    hide Periodic;
    assert s == s[..i] + [s[i]] + s[i + 1..];
    PeriodicAppend(s[..i] + [s[i]], s[i + 1..]);
    PeriodicAppend(s[..i], [s[i]]);
    PeriodicAppend(s[..i], s[i + 1..]);
    PeriodicOne(s[i]);
  }

  lemma OrderedAppend(s: seq<Sample>, total: nat, x: Sample)
    requires Ordered(s, total) && x.nEq > 0 && x.nLt == total
    ensures Ordered(s + [x], total + x.nEq)
  {
  }

  lemma OrderedWithout(s: seq<Sample>, total: nat, i: nat)
    requires Ordered(s, total) && i < |s|
    ensures Ordered(Without(s, i), total)
  {
  }

  lemma PeriodicAdded(s: seq<Sample>, total: nat, p: nat, x: Sample)
    requires p > 0 && Periodic(s) <= total / p && (x.isPSample ==> Crosses(total, x.nEq, p))
    ensures Periodic(s + [x]) <= (total + x.nEq) / p
  {
    PeriodicAppend(s, [x]);
    PeriodicOne(x);
    DivMono(total, total + x.nEq, p);
  }

  lemma BestReplaced(s: seq<Sample>, lost: multiset<Sample>, x: Sample, i: nat)
    requires Best(s, lost) && MinAt(s, i) && (x.isPSample || AtMost(s[i], x))
    ensures Best(Without(s, i) + [x], lost + multiset{s[i]})
  {
    var r := Without(s, i) + [x];
    forall y, j | y in lost + multiset{s[i]} && 0 <= j < |r| && !r[j].isPSample ensures AtMost(y, r[j]) {
      if y in lost { assert AtMost(y, s[i]); }
      if j < |s| - 1 {
        assert r[j] == s[if j < i then j else j + 1];
      }
    }
  }

  // ----- periods -----

  predicate MultipleOf(m: nat, p: nat)
    requires p > 0
  {
    m > 0 && m % p == 0
  }

  /** Row number m, counted from 1, has this key. */
  predicate Spans(x: Sample, m: nat) { x.nLt < m <= x.nLt + x.nEq }

  /** The key has a row whose number is a multiple of the period. */
  ghost predicate Hits(x: Sample, p: nat)
    requires p > 0
  {
    exists m: nat :: MultipleOf(m, p) && Spans(x, m)
  }

  lemma DivIs(a: nat, p: nat)
    requires p > 0
    ensures a / p * p <= a < (a / p + 1) * p && a == a / p * p + a % p
  {
  }

  lemma CrossesHits(x: Sample, p: nat)
    requires p > 0
    ensures Crosses(x.nLt, x.nEq, p) <==> Hits(x, p)
  {
    var a, b := x.nLt, x.nLt + x.nEq;
    DivMono(a, b, p);
    if a / p < b / p { HitBetween(x, p); }
    forall m: nat | MultipleOf(m, p) && Spans(x, m) ensures a / p < b / p { BetweenHit(a, m, b, p); }
  }

  lemma HitBetween(x: Sample, p: nat)
    requires p > 0 && x.nLt / p < (x.nLt + x.nEq) / p
    ensures Hits(x, p)
  {
    var b := x.nLt + x.nEq;
    var k: nat := b / p;
    DivIs(x.nLt, p);
    DivIs(b, p);
    MulMono(x.nLt / p + 1, k, p);
    TimesPeriod(k, p);
    var m := k * p;
    assert MultipleOf(m, p) && Spans(x, m);
  }

  lemma BetweenHit(a: nat, m: nat, b: nat, p: nat)
    requires p > 0 && m % p == 0 && a < m <= b
    ensures a / p < b / p
  {
    DivMono(m, b, p);
    DivIs(a, p);
    DivIs(m, p);
    if m / p <= a / p { MulMono(m / p, a / p, p); }
  }

  lemma TimesPeriod(k: nat, p: nat)
    requires p > 0
    ensures (k * p) % p == 0 && (k > 0 ==> k * p > 0)
  {
    var a := k * p;
    assert a == a / p * p + a % p;
    if a / p < k { MulMono(a / p + 1, k, p); }
    if a / p > k { MulMono(k + 1, a / p, p); }
  }

  /** The keys seen are periodic just where they hit a multiple of the period, and every multiple so far is hit. */
  ghost predicate Covered(seen: multiset<Sample>, total: nat, p: nat)
    requires p > 0
  {
    && (forall x :: x in seen ==> (x.isPSample <==> Hits(x, p)))
    && forall m: nat :: MultipleOf(m, p) && m <= total ==> exists x :: x in seen && Spans(x, m)
  }

  lemma CoveredMore(seen: multiset<Sample>, total: nat, p: nat, x: Sample)
    requires p > 0 && Covered(seen, total, p) && x.nLt == total && x.isPSample == Crosses(total, x.nEq, p)
    ensures Covered(seen + multiset{x}, total + x.nEq, p)
  {
    hide Hits, Crosses;
    CrossesHits(x, p);
    var seen' := seen + multiset{x};
    forall m: nat | MultipleOf(m, p) && m <= total + x.nEq ensures exists y :: y in seen' && Spans(y, m) {
      if m <= total {
        var y :| y in seen && Spans(y, m);
        assert y in seen';
      } else {
        assert x in seen' && Spans(x, m);
      }
    }
  }

  /** What holds of the samples kept, out of all that came, when total rows have been seen. */
  ghost predicate Sampling(s: seq<Sample>, lost: multiset<Sample>, seen: multiset<Sample>, total: nat, nRow: nat, mxSample: nat) {
    && |s| <= mxSample && total <= nRow && multiset(s) + lost == seen
    && Ordered(s, total) && Periodic(s) <= total / Period(nRow, mxSample) && Best(s, lost)
    && (lost != multiset{} ==> |s| == mxSample)
    && Covered(seen, total, Period(nRow, mxSample))
  }

  /** A key that is sampled while there is room. */
  lemma Added(s: seq<Sample>, lost: multiset<Sample>, seen: multiset<Sample>, total: nat, nRow: nat, mxSample: nat, x: Sample)
    requires Sampling(s, lost, seen, total, nRow, mxSample) && |s| < mxSample && x.nEq > 0 && x.nLt == total && total + x.nEq <= nRow
    requires x.isPSample == Crosses(total, x.nEq, Period(nRow, mxSample))
    ensures Sampling(s + [x], lost, seen + multiset{x}, total + x.nEq, nRow, mxSample)
  {
    hide Periodic, Period, Ordered, Covered, Crosses;
    CoveredMore(seen, total, Period(nRow, mxSample), x);
    PeriodicAdded(s, total, Period(nRow, mxSample), x);
    OrderedAppend(s, total, x);
    if lost != multiset{} { assert false; }
    assert Best(s + [x], lost);
  }

  /** A key that takes the place of the least one. */
  lemma Replaced(s: seq<Sample>, lost: multiset<Sample>, seen: multiset<Sample>, total: nat, nRow: nat, mxSample: nat, x: Sample, i: nat)
    requires Sampling(s, lost, seen, total, nRow, mxSample) && |s| == mxSample && MinAt(s, i)
    requires x.nEq > 0 && x.nLt == total && total + x.nEq <= nRow
    requires x.isPSample == Crosses(total, x.nEq, Period(nRow, mxSample)) && (x.isPSample || AtMost(s[i], x))
    ensures Sampling(Without(s, i) + [x], lost + multiset{s[i]}, seen + multiset{x}, total + x.nEq, nRow, mxSample)
  {
    hide Periodic, Period, Ordered, Best, MinAt, Without, Covered, Crosses;
    CoveredMore(seen, total, Period(nRow, mxSample), x);
    MinIs(s, i);
    WithoutBag(s, i);
    WithoutPeriodic(s, i);
    OrderedWithout(s, total, i);
    OrderedAppend(Without(s, i), total, x);
    PeriodicAdded(Without(s, i), total, Period(nRow, mxSample), x);
    BestReplaced(s, lost, x, i);
    assert multiset(Without(s, i) + [x]) == multiset(Without(s, i)) + multiset{x};
  }

  lemma MinIs(s: seq<Sample>, i: nat)
    requires MinAt(s, i)
    ensures i < |s| && !s[i].isPSample
  {
  }

  /** A key that is not sampled. */
  lemma Passed(s: seq<Sample>, lost: multiset<Sample>, seen: multiset<Sample>, total: nat, nRow: nat, mxSample: nat, x: Sample, i: nat)
    requires Sampling(s, lost, seen, total, nRow, mxSample) && |s| == mxSample && MinAt(s, i)
    requires x.nEq > 0 && x.nLt == total && total + x.nEq <= nRow && !x.isPSample && AtMost(x, s[i])
    requires !Crosses(total, x.nEq, Period(nRow, mxSample))
    ensures Sampling(s, lost + multiset{x}, seen + multiset{x}, total + x.nEq, nRow, mxSample)
  {
    hide Periodic, Period, Covered, Crosses;
    CoveredMore(seen, total, Period(nRow, mxSample), x);
    DivMono(total, total + x.nEq, Period(nRow, mxSample));
  }

  class Stat3Accum {
    const nRow: nat
    const nPSample: nat
    const mxSample: nat
    var iMin: nat
    var nSample: nat
    var iPrn: nat
    const a: array<Sample>
    /** The rows and keys that have come so far, and the keys that were not kept. */
    ghost var total: nat
    ghost var seen: multiset<Sample>
    ghost var lost: multiset<Sample>

    ghost predicate Valid()
      reads this, a
    {
      && a.Length == mxSample > 0 && nSample <= mxSample && nPSample == Period(nRow, mxSample)
      && Sampling(a[..nSample], lost, seen, total, nRow, mxSample)
      && (nSample == mxSample ==> MinAt(a[..nSample], iMin))
    }

    /** stat3_init: the seed comes from outside. */
    constructor (nRow: nat, mxSample: nat, seed: nat)
      requires mxSample > 0
      ensures Valid() && this.nRow == nRow && this.mxSample == mxSample && nSample == 0 && total == 0 && seen == multiset{}
    {
      this.nRow, this.mxSample, nPSample := nRow, mxSample, nRow / (mxSample / 3 + 1) + 1;
      iMin, nSample, iPrn := 0, 0, seed;
      a := new Sample[mxSample](_ => Sample(0, 0, 0, 0, false, 0));
      total, seen, lost := 0, multiset{}, multiset{};
    }

    /** stat3_push, for the next key of the index. */
    method Push(nEq: nat, nLt: nat, nDLt: nat, rowid: int)
      requires Valid() && nLt == total && total + nEq <= nRow
      modifies this, a
      ensures Valid() && total == old(total) + nEq
      ensures iPrn == if nEq == 0 then old(iPrn) else NextPrn(old(iPrn))
      ensures seen == old(seen) + if nEq == 0 then multiset{}
                                  else multiset{Sample(rowid, nEq, nLt, nDLt, Crosses(nLt, nEq, nPSample), iPrn)}
      ensures nSample == if nEq > 0 && old(nSample) < mxSample then old(nSample) + 1 else old(nSample)
    {
      hide Sampling, MinAt, Period, Crosses, NextPrn;
      if nEq == 0 { return; }
      iPrn := NextPrn(iPrn);
      var x := Sample(rowid, nEq, nLt, nDLt, Crosses(nLt, nEq, nPSample), iPrn);
      ghost var s := a[..nSample];
      if nSample == mxSample { MinIs(s, iMin); }
      var doInsert := x.isPSample || nSample < mxSample || nEq > a[iMin].nEq || (nEq == a[iMin].nEq && iPrn > a[iMin].iHash);
      if doInsert {
        Store(x);
      } else {
        Passed(s, lost, seen, total, nRow, mxSample, x, iMin);
        lost, seen, total := lost + multiset{x}, seen + multiset{x}, total + nEq;
      }
    }

    /** Stores a sample at the end, in place of the least one if there is no room, and looks for the new least one. */
    method Store(x: Sample)
      requires Valid() && x.nEq > 0 && x.nLt == total && total + x.nEq <= nRow && x.isPSample == Crosses(total, x.nEq, nPSample)
      requires nSample == mxSample ==> iMin < mxSample && (x.isPSample || AtMost(a[iMin], x))
      modifies a, this`iMin, this`nSample, this`total, this`seen, this`lost
      ensures Valid() && total == old(total) + x.nEq && seen == old(seen) + multiset{x}
      ensures nSample == if old(nSample) < mxSample then old(nSample) + 1 else old(nSample)
    {
      hide Sampling, MinAt, Period, Crosses, AtMost;
      ghost var s := a[..nSample];
      if nSample == mxSample {
        Replaced(s, lost, seen, total, nRow, mxSample, x, iMin);
        lost := lost + multiset{a[iMin]};
        MoveDown(iMin);
        a[nSample - 1] := x;
        assert a[..nSample] == Without(s, iMin) + [x];
      } else {
        Added(s, lost, seen, total, nRow, mxSample, x);
        a[nSample] := x;
        nSample := nSample + 1;
        assert a[..nSample] == s + [x];
      }
      total, seen := total + x.nEq, seen + multiset{x};
      if nSample == mxSample {
        iMin := FindMin();
      }
    }

    /** The memmove that closes the gap at i. */
    method MoveDown(i: nat)
      requires i < nSample <= a.Length
      modifies a
      ensures a[..nSample - 1] == Without(old(a[..nSample]), i)
    {
      var k := i;
      while k < nSample - 1
        invariant i <= k <= nSample - 1
        invariant forall j :: 0 <= j < nSample ==> a[j] == if i <= j < k then old(a[j + 1]) else old(a[j])
      {
        a[k] := a[k + 1];
        k := k + 1;
      }
    }

    /** The least sample that is not periodic; there is one. */
    method FindMin() returns (m: nat)
      requires a.Length == mxSample == nSample > 0 && Sampling(a[..nSample], lost, seen, total, nRow, mxSample)
      ensures MinAt(a[..nSample], m)
    {
      hide Period, Ordered, Best, Periodic, Covered;
      PeriodsFit(nRow, mxSample, total);
      ghost var o := SomeOrdinary(a[..nSample]);
      var i := 0;
      while a[i].isPSample
        invariant i <= o && forall j :: 0 <= j < i ==> a[j].isPSample
        decreases o - i
      {
        i := i + 1;
      }
      m := i;
      i := i + 1;
      while i < nSample
        invariant m < i <= nSample && !a[m].isPSample
        invariant forall j :: 0 <= j < i && !a[j].isPSample ==> AtMost(a[m], a[j])
      {
        if !a[i].isPSample && (a[i].nEq < a[m].nEq || (a[i].nEq == a[m].nEq && a[i].iHash < a[m].iHash)) {
          m := i;
        }
        i := i + 1;
      }
    }
  }

  /** What has been kept in the end: every periodic key, in order, and no more of them than a third of the room; of the others the best. */
  lemma Kept(s: seq<Sample>, lost: multiset<Sample>, seen: multiset<Sample>, total: nat, nRow: nat, mxSample: nat)
    requires Sampling(s, lost, seen, total, nRow, mxSample)
    ensures Periodic(s) <= mxSample / 3
    ensures forall x :: x in seen && x.isPSample ==> x in s && seen[x] == multiset(s)[x]
    ensures forall x, y :: x in s && !x.isPSample && y in seen && y !in s ==> AtMost(y, x)
    ensures |seen| <= mxSample ==> multiset(s) == seen
    ensures forall i, j :: 0 <= i < j < |s| ==> s[i].nLt < s[j].nLt
    ensures forall m: nat :: MultipleOf(m, Period(nRow, mxSample)) && m <= total ==> exists x :: x in s && x.isPSample && Spans(x, m)
    ensures forall x :: x in s ==> (x.isPSample <==> Hits(x, Period(nRow, mxSample)))
  {
    hide Period, Periodic;
    forall m: nat | MultipleOf(m, Period(nRow, mxSample)) && m <= total ensures exists x :: x in s && x.isPSample && Spans(x, m) {
      var x :| x in seen && Spans(x, m);
      assert Hits(x, Period(nRow, mxSample)) && x in multiset(s) + lost;
    }
    forall x | x in s ensures x in seen { assert x in multiset(s) + lost; }
    PeriodsFit(nRow, mxSample, total);
    assert |seen| == |s| + |lost|;
    if |seen| <= mxSample && lost != multiset{} {
      assert false;
    }
  }
}
