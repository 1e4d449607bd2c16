/** The hash table inside a bit vector: open addressing with linear probing over NINT slots, 0 marking a free one. */
module BitvecHash {

  // Sizes for a structure of 512 bytes, three integers of 4 bytes and pointers of 8: (512 - 12) / 8 * 8 bytes are left for the union.
  const NELEM: nat := 496
  const NBIT: nat := 3968
  const NINT: nat := 124
  const MXHASH: nat := 62
  const NPTR: nat := 62

  /** BITVEC_HASH of value v, stored as v > 0 for bit v - 1. */
  function Home(v: nat): (h: nat)
    requires v > 0
    ensures h < NINT
  {
    (v - 1) % NINT
  }

  /** The slot k steps after a. */
  function Slot(a: nat, k: nat): (s: nat)
    requires a < NINT && k < NINT
    ensures s < NINT
  {
    if a + k < NINT then a + k else a + k - NINT
  }

  function Next(s: nat): (r: nat)
    requires s < NINT
    ensures r < NINT && r == (s + 1) % NINT
  {
    if s + 1 >= NINT then 0 else s + 1
  }

  /** How many steps lead from slot a to slot s. */
  function Dist(a: nat, s: nat): (k: nat)
    requires a < NINT && s < NINT
    ensures k < NINT && Slot(a, k) == s
  {
    if a <= s then s - a else s + NINT - a
  }

  function Used(h: seq<nat>): (u: set<nat>)
  {
    set s: nat | s < |h| && h[s] != 0
  }

  /** No free slot lies on the way from a to s. */
  ghost predicate Reachable(h: seq<nat>, a: nat, s: nat)
    requires |h| == NINT && a < NINT && s < NINT
  {
    forall k: nat :: k < Dist(a, s) ==> h[Slot(a, k)] != 0
  }

  ghost predicate HashOk(h: seq<nat>, nSet: nat) {
    && |h| == NINT && nSet == |Used(h)| < NINT
    && (forall s: nat :: s < NINT && h[s] != 0 ==> Reachable(h, Home(h[s]), s))
    && (forall s: nat, t: nat :: s < t < NINT && h[s] != 0 ==> h[s] != h[t])
  }

  lemma SlotDist(a: nat, k: nat)
    requires a < NINT && k < NINT
    ensures Dist(a, Slot(a, k)) == k
  {
  }

  lemma {:induction false} AllUsed(h: seq<nat>)
    requires forall s :: 0 <= s < |h| ==> h[s] != 0
    ensures |Used(h)| == |h|
  {
    if h != [] {
      var init := h[..|h| - 1];
      AllUsed(init);
      assert Used(h) == Used(init) + {|h| - 1};
    }
  }

  /** There is always a free slot, so probing ends. */
  lemma FreeSlot(h: seq<nat>, nSet: nat) returns (e: nat)
    requires HashOk(h, nSet)
    ensures e < NINT && h[e] == 0
  {
    hide Reachable;
    if forall s :: 0 <= s < NINT ==> h[s] != 0 {
      AllUsed(h);
      assert false;
    }
    e :| e < NINT && h[e] == 0;
  }

  /** Where a probe for v stands: the k slots from its home on are taken by others. */
  ghost predicate Probed(h: seq<nat>, v: nat, k: nat) {
    && |h| == NINT && v > 0 && k < NINT
    && forall j: nat :: j < k ==> h[Slot(Home(v), j)] != 0 && h[Slot(Home(v), j)] != v
  }

  lemma ProbeStart(h: seq<nat>, v: nat)
    requires |h| == NINT && v > 0
    ensures Probed(h, v, 0) && Slot(Home(v), 0) == Home(v)
  {
  }

  lemma ProbeStep(h: seq<nat>, nSet: nat, v: nat, k: nat)
    requires HashOk(h, nSet) && Probed(h, v, k) && h[Slot(Home(v), k)] != 0 && h[Slot(Home(v), k)] != v
    ensures k + 1 < NINT && Probed(h, v, k + 1) && Slot(Home(v), k + 1) == Next(Slot(Home(v), k))
  {
    var e := FreeSlot(h, nSet);
    hide HashOk, Home;
    var d := Dist(Home(v), e);
    assert h[Slot(Home(v), d)] == 0;
    assert k < d;
    NextSlot(Home(v), k);
  }

  lemma NextSlot(a: nat, k: nat)
    requires a < NINT && k + 1 < NINT
    ensures Slot(a, k + 1) == Next(Slot(a, k))
  {
  }

  lemma WayTaken(h: seq<nat>, nSet: nat, s: nat, j: nat)
    requires HashOk(h, nSet) && s < NINT && h[s] != 0 && j < Dist(Home(h[s]), s)
    ensures h[Slot(Home(h[s]), j)] != 0
  {
    assert Reachable(h, Home(h[s]), s);
  }

  /** A probe that finds a free slot has shown that v is not there. */
  lemma ProbeEnds(h: seq<nat>, nSet: nat, v: nat, k: nat)
    requires HashOk(h, nSet) && Probed(h, v, k) && h[Slot(Home(v), k)] == 0
    ensures v !in h
  {
    forall s: nat | s < NINT ensures h[s] != v {
      hide Home, Slot;
      var d := Dist(Home(v), s);
      if h[s] == v && k < d {
        WayTaken(h, nSet, s, k);
        assert false;
      }
    }
  }

  /** Storing v in the free slot its probe found. */
  lemma Stored(h: seq<nat>, nSet: nat, v: nat, k: nat)
    requires HashOk(h, nSet) && Probed(h, v, k) && h[Slot(Home(v), k)] == 0 && nSet + 1 < NINT
    ensures HashOk(h[Slot(Home(v), k) := v], nSet + 1)
    ensures forall x :: x != 0 ==> (x in h[Slot(Home(v), k) := v] <==> x in h || x == v)
  {
    var at := Slot(Home(v), k);
    var h' := h[at := v];
    ProbeEnds(h, nSet, v, k);
    SlotDist(Home(v), k);
    assert Used(h') == Used(h) + {at};
    forall s: nat | s < NINT && h'[s] != 0 ensures Reachable(h', Home(h'[s]), s) {
      if s != at { assert Reachable(h, Home(h[s]), s); }
    }
    forall x | x != 0 && x in h ensures x in h' {
      var s: nat :| s < NINT && h[s] == x;
      assert h'[s] == x;
    }
    assert h'[at] == v;
  }

  lemma EmptyHash(h: seq<nat>)
    requires |h| == NINT && forall s :: 0 <= s < NINT ==> h[s] == 0
    ensures HashOk(h, 0)
  {
    assert Used(h) == {};
  }

  /** A value that is not there and would make the table too full: a little fuller is allowed where there is no collision. */
  predicate Crowded(h: seq<nat>, nSet: nat, v: nat)
    requires |h| == NINT && v > 0
  {
    if h[Home(v)] == 0 then nSet >= NINT - 1 else nSet >= MXHASH
  }

  /** Too full is a table with one free slot at most, or half full where the value's first slot is taken. */
  lemma CrowdedWhen(h: seq<nat>, nSet: nat, v: nat)
    requires |h| == NINT && v > 0
    ensures Crowded(h, nSet, v) <==> NINT <= nSet + 1 || (h[Home(v)] > 0 && NINT / 2 <= nSet)
  {
  }

  lemma NotFull(h: seq<nat>, nSet: nat, v: nat)
    requires |h| == NINT && v > 0 && !Crowded(h, nSet, v)
    ensures nSet + 1 < NINT
  {
  }
}
