/** Setting a bit of a vector that is too large to be split: its hash table is emptied and filled again without end. */
module BitvecStuck {
  import opened BitvecHash

  /** The state after a call, or that it is still running when calls are nested so deep. */
  datatype Outcome = Running | Done(h: seq<nat>, nSet: nat)

  function Empty(): (r: seq<nat>)
    ensures |r| == NINT && forall s :: 0 <= s < NINT ==> r[s] == 0
  {
    seq(NINT, s requires 0 <= s < NINT => 0)
  }

  /** Where a probe for v ends, k steps from its home at the earliest. */
  function Ends(h: seq<nat>, v: nat, k: nat): (s: nat)
    requires |h| == NINT && v > 0 && k < NINT
    ensures s < NINT
    decreases NINT - k
  {
    var s := Slot(Home(v), k);
    if h[s] == 0 || h[s] == v || k + 1 == NINT then s else Ends(h, v, k + 1)
  }

  /** The values of a table, in the order of their slots. */
  function Values(h: seq<nat>): (r: seq<nat>)
    ensures forall x :: x in r <==> x in h && x != 0
  {
    if h == [] then []
    else
      assert h == h[..|h| - 1] + [h[|h| - 1]];
      Values(h[..|h| - 1]) + if h[|h| - 1] != 0 then [h[|h| - 1]] else []
  }

  /** sqlite3BitvecSet for a vector whose divisor is 0, also once it has been split: the table is cleared but nSet stays. */
  function SetFlat(h: seq<nat>, nSet: nat, v: nat, depth: nat): Outcome
    requires |h| == NINT && v > 0
    decreases depth, 0
  {
    var s := Ends(h, v, 0);
    if h[s] == v then Done(h, nSet)
    else if h[s] != 0 then Running
    else if !Crowded(h, nSet, v) then Done(h[s := v], nSet + 1)
    else if depth == 0 then Running
    else SetEach(Empty(), nSet, [v] + Values(h), depth - 1)
  }

  function SetEach(h: seq<nat>, nSet: nat, vs: seq<nat>, depth: nat): Outcome
    requires |h| == NINT && 0 !in vs
    decreases depth, |vs| + 1
  {
    if vs == [] then Done(h, nSet)
    else
      match SetFlat(h, nSet, vs[0], depth)
      case Running => Running
      case Done(h', n) => if |h'| == NINT then SetEach(h', n, vs[1..], depth) else Running
  }

  lemma {:induction false} Full(h: seq<nat>, nSet: nat, v: nat, depth: nat)
    requires |h| == NINT && v > 0 && v !in h && nSet >= NINT - 1
    ensures SetFlat(h, nSet, v, depth) == Running
    decreases depth
  {
    if depth > 0 { Full(Empty(), nSet, v, depth - 1); }
  }

  /** A call that ends has counted its value, and keeps no others than were there. */
  lemma {:induction false} Grows(h: seq<nat>, nSet: nat, v: nat, depth: nat)
    requires |h| == NINT && v > 0 && SetFlat(h, nSet, v, depth).Done?
    ensures var r := SetFlat(h, nSet, v, depth);
      && |r.h| == NINT && r.nSet >= nSet && (v !in h ==> nSet < r.nSet && nSet < NINT - 1)
      && forall x :: x in r.h && x != 0 ==> x in h || x == v
    decreases depth, 0
  {
    if v !in h && nSet >= NINT - 1 { Full(h, nSet, v, depth); }
    var s := Ends(h, v, 0);
    if h[s] == 0 && Crowded(h, nSet, v) {
      GrowEach(Empty(), nSet, [v] + Values(h), depth - 1);
    }
  }

  lemma {:induction false} GrowEach(h: seq<nat>, nSet: nat, vs: seq<nat>, depth: nat)
    requires |h| == NINT && 0 !in vs && SetEach(h, nSet, vs, depth).Done?
    ensures var r := SetEach(h, nSet, vs, depth);
      && |r.h| == NINT && r.nSet >= nSet && (vs != [] && vs[0] !in h ==> nSet < r.nSet)
      && forall x :: x in r.h && x != 0 ==> x in h || x in vs
    decreases depth, |vs| + 1
  {
    if vs != [] {
      Grows(h, nSet, vs[0], depth);
      var r := SetFlat(h, nSet, vs[0], depth);
      GrowEach(r.h, r.nSet, vs[1..], depth);
    }
  }

  ghost predicate Distinct(vs: seq<nat>) {
    forall i, j :: 0 <= i < j < |vs| ==> vs[i] != vs[j]
  }

  /** There is no room to set so many values. */
  lemma {:induction false} TooMany(h: seq<nat>, nSet: nat, vs: seq<nat>, depth: nat)
    requires |h| == NINT && 0 !in vs && Distinct(vs) && (forall x :: x in vs ==> x !in h) && vs != [] && nSet + |vs| >= NINT
    ensures SetEach(h, nSet, vs, depth) == Running
    decreases |vs|
  {
    var r := SetFlat(h, nSet, vs[0], depth);
    if r.Done? {
      Grows(h, nSet, vs[0], depth);
      assert |vs| > 1;
      forall x | x in vs[1..] ensures x !in r.h {
        assert x in vs && x != vs[0];
      }
      TooMany(r.h, r.nSet, vs[1..], depth);
    }
  }

  lemma {:induction false} ValuesUsed(h: seq<nat>)
    ensures |Values(h)| == |Used(h)|
  {
    if h != [] {
      var init := h[..|h| - 1];
      ValuesUsed(init);
      assert Used(h) == if h[|h| - 1] != 0 then Used(init) + {|h| - 1} else Used(init);
    }
  }

  lemma {:induction false} ValuesDistinct(h: seq<nat>)
    requires forall s, t :: 0 <= s < t < |h| && h[s] != 0 ==> h[s] != h[t]
    ensures Distinct(Values(h))
  {
    if h != [] {
      var init, x := h[..|h| - 1], h[|h| - 1];
      ValuesDistinct(init);
      forall i, j | 0 <= i < j < |Values(h)| ensures Values(h)[i] != Values(h)[j] {
        assert Values(init)[i] in Values(init);
      }
    }
  }

  lemma {:induction false} EndsAt(h: seq<nat>, nSet: nat, v: nat, k: nat)
    requires HashOk(h, nSet) && Probed(h, v, k)
    ensures h[Ends(h, v, k)] == if v in h then v else 0
    decreases NINT - k
  {
    var s := Slot(Home(v), k);
    hide HashOk, Home, Slot, Probed;
    if h[s] == 0 {
      ProbeEnds(h, nSet, v, k);
    } else if h[s] != v {
      ProbeStep(h, nSet, v, k);
      EndsAt(h, nSet, v, k + 1);
    }
  }

  /** However deep calls may be nested, the call ends exactly if the value is there already or the table is not too full for it. */
  lemma SetReturns(h: seq<nat>, nSet: nat, v: nat, depth: nat)
    requires HashOk(h, nSet) && v > 0
    ensures SetFlat(h, nSet, v, depth).Done? <==> v in h || !Crowded(h, nSet, v)
  {
    hide HashOk, Home;
    ApartValues(h, nSet);
    ProbeStart(h, v);
    EndsAt(h, nSet, v, 0);
    if v !in h && Crowded(h, nSet, v) && depth > 0 {
      ValuesUsed(h);
      TooMany(Empty(), nSet, [v] + Values(h), depth - 1);
    }
  }

  lemma ApartValues(h: seq<nat>, nSet: nat)
    requires HashOk(h, nSet)
    ensures Distinct(Values(h)) && nSet == |Used(h)| && |h| == NINT
  {
    hide Reachable;
    ValuesDistinct(h);
  }
}
