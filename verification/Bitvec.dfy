/** A set of the integers 1..iSize that is a bitmap, a hash table or a table of smaller sets, as its size and contents need. */
module Bitvecs {
  import opened Arith
  import opened BitvecHash

  // ----- arithmetic -----

  /** (iSize + NPTR - 1) / NPTR in 32-bit arithmetic. */
  function Divisor(iSize: nat): nat {
    (iSize + NPTR - 1) % 0x1_0000_0000 / NPTR
  }

  /** The sum does not wrap around. */
  predicate Dividable(iSize: nat) { iSize + NPTR - 1 < 0x1_0000_0000 }

  lemma DivisorFits(iSize: nat)
    requires NBIT < iSize && Dividable(iSize)
    ensures 0 < Divisor(iSize) < iSize <= NPTR * Divisor(iSize)
  {
  }

  /** For sizes that wrap around there is no divisor. */
  lemma DivisorVanishes(iSize: nat)
    requires NBIT < iSize < 0x1_0000_0000
    ensures Divisor(iSize) > 0 <==> Dividable(iSize)
    ensures Divisor(0xFFFF_FFFF) == 0
  {
  }

  /** Which part bit i falls in, and which bit of it it is. */
  function Bin(i: nat, d: nat): nat
    requires i > 0 && d > 0
  {
    (i - 1) / d
  }

  function Rest(i: nat, d: nat): nat
    requires i > 0 && d > 0
  {
    (i - 1) % d + 1
  }

  lemma BinRest(i: nat, iSize: nat)
    requires 0 < i <= iSize && NBIT < iSize && Dividable(iSize)
    ensures Bin(i, Divisor(iSize)) < NPTR && 0 < Rest(i, Divisor(iSize)) <= Divisor(iSize) < iSize
  {
    DivisorFits(iSize);
    BinInRange(i - 1, Divisor(iSize), NPTR);
  }

  /** Different bits differ in the part or in the place there. */
  lemma BinRestUnique(i: nat, j: nat, d: nat)
    requires i > 0 && j > 0 && d > 0
    ensures Bin(i, d) == Bin(j, d) && Rest(i, d) == Rest(j, d) <==> i == j
  {
    assert i - 1 == (i - 1) / d * d + (i - 1) % d;
    assert j - 1 == (j - 1) / d * d + (j - 1) % d;
  }

  lemma BinInRange(i: nat, d: nat, n: nat)
    requires d > 0 && i < n * d
    ensures i / d < n && i == i / d * d + i % d && i % d < d
  {
    if i / d >= n { MulMono(n, i / d, d); }
  }

  // ----- bits of a byte -----

  function Bit(k: nat): bv8
    requires k < 8
  {
    1 << k
  }

  predicate BitIn(b: bv8, k: nat)
    requires k < 8
  {
    b & Bit(k) != 0
  }

  predicate One(x: bv8) {
    x == 1 || x == 2 || x == 4 || x == 8 || x == 16 || x == 32 || x == 64 || x == 128
  }

  lemma OneBit(j: nat, k: nat)
    requires j < 8 && k < 8
    ensures One(Bit(j)) && One(Bit(k)) && (Bit(j) == Bit(k) <==> j == k)
  {
  }

  lemma MaskChanged(b: bv8, x: bv8, y: bv8)
    requires One(x) && One(y)
    ensures (b | y) & x != 0 <==> b & x != 0 || x == y
    ensures (b & !y) & x != 0 <==> b & x != 0 && x != y
    ensures 0 & x == 0
  {
  }

  lemma BitChanged(b: bv8, j: nat, k: nat)
    requires j < 8 && k < 8
    ensures BitIn(b | Bit(k), j) <==> BitIn(b, j) || j == k
    ensures BitIn(b & !Bit(k), j) <==> BitIn(b, j) && j != k
    ensures !BitIn(0, j)
  {
    hide Bit, One;
    OneBit(j, k);
    MaskChanged(b, Bit(j), Bit(k));
  }

  predicate BitAt(m: seq<bv8>, i: nat)
    requires i < 8 * |m|
  {
    BitIn(m[i / 8], i % 8)
  }

  function BitSet(m: seq<bv8>, i: nat): (r: seq<bv8>)
    requires i < 8 * |m|
    ensures |r| == |m|
  {
    m[i / 8 := m[i / 8] | Bit(i % 8)]
  }

  function BitCleared(m: seq<bv8>, i: nat): (r: seq<bv8>)
    requires i < 8 * |m|
    ensures |r| == |m|
  {
    m[i / 8 := m[i / 8] & !Bit(i % 8)]
  }

  lemma ByteChanged(m: seq<bv8>, a: nat, k: nat, b: nat, l: nat)
    requires a < |m| && b < |m| && k < 8 && l < 8
    ensures BitIn(m[a := m[a] | Bit(k)][b], l) <==> BitIn(m[b], l) || (a == b && k == l)
    ensures BitIn(m[a := m[a] & !Bit(k)][b], l) <==> BitIn(m[b], l) && !(a == b && k == l)
  {
    hide Bit, BitIn;
    BitChanged(m[a], l, k);
  }

  lemma SamePlace(i: nat, j: nat)
    ensures i / 8 == j / 8 && i % 8 == j % 8 <==> i == j
  {
    assert i == i / 8 * 8 + i % 8 && j == j / 8 * 8 + j % 8;
  }

  lemma BitIsSet(m: seq<bv8>, i: nat, j: nat)
    requires i < 8 * |m| && j < 8 * |m|
    ensures BitAt(BitSet(m, i), j) <==> BitAt(m, j) || j == i
  {
    hide Bit, BitIn;
    ByteChanged(m, i / 8, i % 8, j / 8, j % 8);
    SamePlace(i, j);
  }

  lemma BitIsCleared(m: seq<bv8>, i: nat, j: nat)
    requires i < 8 * |m| && j < 8 * |m|
    ensures BitAt(BitCleared(m, i), j) <==> BitAt(m, j) && j != i
  {
    hide Bit, BitIn;
    ByteChanged(m, i / 8, i % 8, j / 8, j % 8);
    SamePlace(i, j);
  }

  ghost predicate Below(h: seq<nat>, n: nat) {
    forall v :: v in h ==> v <= n
  }

  class Bitvec {
    const iSize: nat
    var nSet: nat
    var iDivisor: nat
    // Of these three, which share their space, one is in use.
    var aBitmap: seq<bv8>
    var aHash: seq<nat>
    var apSub: seq<Bitvec?>
    ghost var Repr: set<Bitvec>

    /** The k-th part, if there is one, is a set on its own. */
    ghost predicate PartOk(k: nat)
      requires k < |apSub|
      reads this, Repr
      decreases iSize, 0
    {
      var s := apSub[k];
      s != null ==>
        s in Repr && s in s.Repr && s.Repr <= Repr && this !in s.Repr && s.iSize == iDivisor < iSize && s.Valid()
    }

    ghost predicate Valid()
      reads this, Repr
      decreases iSize, 1
    {
      && this in Repr && |aBitmap| == NELEM && |aHash| == NINT && |apSub| == NPTR && iSize < 0x1_0000_0000
      && if iDivisor == 0 then
           NBIT < iSize ==> HashOk(aHash, nSet) && Below(aHash, iSize)
         else
           && NBIT < iSize && Dividable(iSize) && iDivisor == Divisor(iSize)
           && (forall k: nat :: k < NPTR ==> PartOk(k))
           && (forall j: nat, k: nat :: j < k < NPTR ==> Apart(j, k))
    }

    ghost predicate Apart(j: nat, k: nat)
      requires j < |apSub| && k < |apSub|
      reads this, Repr
    {
      apSub[j] != null && apSub[k] != null ==> apSub[j] in Repr && apSub[k] in Repr && apSub[j].Repr !! apSub[k].Repr
    }

    /** i is in the set. */
    predicate Has(i: nat)
      requires Valid()
      reads this, Repr
      decreases iSize
    {
      if i == 0 || i > iSize then false
      else if iDivisor > 0 then
        BinRest(i, iSize);
        var k := Bin(i, iDivisor);
        assert PartOk(k);
        apSub[k] != null && apSub[k].Has(Rest(i, iDivisor))
      else if iSize <= NBIT then BitAt(aBitmap, i - 1)
      else i in aHash
    }

    /** sqlite3BitvecCreate. */
    constructor (iSize: nat)
      requires iSize < 0x1_0000_0000
      ensures Valid() && fresh(Repr) && Repr == {this} && this.iSize == iSize && iDivisor == 0
      ensures forall i: nat :: !Has(i)
    {
      this.iSize := iSize;
      nSet, iDivisor := 0, 0;
      aBitmap, aHash, apSub := seq(NELEM, _ => 0), seq(NINT, _ => 0), seq(NPTR, _ => null);
      Repr := {this};
      new;
      EmptyHash(aHash);
      forall i: nat ensures !Has(i) {
        if 0 < i <= iSize <= NBIT { BitChanged(0, (i - 1) % 8, 0); }
      }
    }

    /** Makes room for a part. */
    method AddPart(bin: nat)
      requires Valid() && iDivisor > 0 && bin < NPTR && apSub[bin] == null
      modifies this
      ensures Valid() && fresh(Repr - old(Repr)) && iDivisor == old(iDivisor) && apSub[bin] != null
      ensures forall j: nat :: Has(j) <==> old(Has(j))
    {
      DivisorFits(iSize);
      var s := new Bitvec(iDivisor);
      ghost var was := Repr;
      apSub := apSub[bin := s];
      Repr := Repr + s.Repr;
      assert PartOk(bin);
      forall k: nat | k < NPTR && k != bin ensures PartOk(k) && (k < bin ==> Apart(k, bin)) && (k > bin ==> Apart(bin, k)) {
        assert old(PartOk(k));
      }
      forall j: nat, k: nat | j < k < NPTR ensures Apart(j, k) {
        if j != bin && k != bin { assert old(Apart(j, k)); }
      }
      forall j: nat ensures Has(j) <==> old(Has(j)) {
        if 0 < j <= iSize {
          BinRest(j, iSize);
          var k := Bin(j, iDivisor);
          assert old(PartOk(k));
        }
      }
    }

    /** Passes the bit on to its part. */
    method SetInPart(i: nat)
      requires Valid() && iDivisor > 0 && 0 < i <= iSize
      modifies Repr
      ensures Valid() && fresh(Repr - old(Repr)) && iDivisor == old(iDivisor)
      ensures forall j: nat :: Has(j) <==> old(Has(j)) || j == i
      decreases iSize, 0
    {
      BinRest(i, iSize);
      var bin := Bin(i, iDivisor);
      if apSub[bin] == null { AddPart(bin); }
      label Parts:
      var s := apSub[bin];
      assert PartOk(bin);
      var ok := s.Set(Rest(i, iDivisor));
      Repr := Repr + s.Repr;
      forall k: nat | k < NPTR && k != bin
        ensures PartOk(k) && (k < bin ==> Apart(k, bin)) && (k > bin ==> Apart(bin, k))
        ensures apSub[k] != null ==> apSub[k].Repr == old@Parts(apSub[k].Repr)
      {
        assert old@Parts(PartOk(k)) && old@Parts(if k < bin then Apart(k, bin) else Apart(bin, k));
      }
      assert PartOk(bin);
      forall j: nat, k: nat | j < k < NPTR ensures Apart(j, k) {
        if j != bin && k != bin { assert old@Parts(Apart(j, k)) && old@Parts(PartOk(j)) && old@Parts(PartOk(k)); }
      }
      forall j: nat ensures Has(j) <==> old@Parts(Has(j)) || j == i {
        if 0 < j <= iSize {
          BinRest(j, iSize);
          BinRestUnique(i, j, iDivisor);
          var k := Bin(j, iDivisor);
          assert old@Parts(PartOk(k));
          if k != bin { assert old@Parts(if k < bin then Apart(k, bin) else Apart(bin, k)); }
        }
      }
    }

    /** The hash table is too full for i, and has no divisor to be split by. */
    predicate Stuck(i: nat)
      requires Valid() && i > 0
      reads this, Repr
    {
      NBIT < iSize && iDivisor == 0 && !Dividable(iSize) && i !in aHash && Crowded(aHash, nSet, i)
    }

    /** sqlite3BitvecSet.  When it is stuck it does not return (BitvecStuck.SetReturns); the model then stops. */
    method Set(i: nat) returns (ok: bool)
      requires Valid() && 0 < i <= iSize
      modifies Repr
      ensures Valid() && fresh(Repr - old(Repr)) && (ok <==> !old(Stuck(i)))
      ensures forall j: nat :: Has(j) <==> old(Has(j)) || (ok && j == i)
      decreases iSize, if iDivisor == 0 then 2 else 1
    {
      if iSize > NBIT && iDivisor > 0 {
        SetInPart(i);
        ok := true;
      } else if iSize <= NBIT {
        SetInBitmap(i);
        ok := true;
      } else {
        ok := SetInHash(i);
      }
    }

    method SetInBitmap(i: nat)
      requires Valid() && 0 < i <= iSize <= NBIT
      modifies this`aBitmap
      ensures Valid() && Repr == old(Repr)
      ensures forall j: nat :: Has(j) <==> old(Has(j)) || j == i
    {
      hide BitSet, BitCleared, BitAt, HashOk, Below;
      ghost var was := aBitmap;
      aBitmap := BitSet(aBitmap, i - 1);
      forall j: nat ensures Has(j) <==> old(Has(j)) || j == i {
        if 0 < j <= iSize { BitIsSet(was, i - 1, j - 1); }
      }
    }

    method SetInHash(i: nat) returns (ok: bool)
      requires Valid() && 0 < i <= iSize && NBIT < iSize && iDivisor == 0
      modifies Repr
      ensures Valid() && fresh(Repr - old(Repr)) && (ok <==> !old(Stuck(i)))
      ensures forall j: nat :: Has(j) <==> old(Has(j)) || (ok && j == i)
      decreases iSize, 1
    {
      hide HashOk, Home, Probed, Crowded, Divisor;
      var found, h, k := Probe(aHash, nSet, i);
      if found { return true; }
      if !Crowded(aHash, nSet, i) {
        NotFull(aHash, nSet, i);
        Stored(aHash, nSet, i, k);
        nSet := nSet + 1;
        AllBelow(aHash, h, i, iSize);
        aHash := aHash[h := i];
        ok := true;
      } else if Divisor(iSize) > 0 {
        DivisorVanishes(iSize);
        Subdivide(i);
        ok := true;
      } else {
        DivisorVanishes(iSize);
        ok := false;
      }
    }

    /** Turns the hash table into a table of parts, and puts its values and i there. */
    method Subdivide(i: nat)
      requires Valid() && 0 < i <= iSize && NBIT < iSize && iDivisor == 0 && Dividable(iSize)
      modifies Repr
      ensures Valid() && fresh(Repr - old(Repr)) && iDivisor > 0
      ensures forall j: nat :: Has(j) <==> old(Has(j)) || j == i
      decreases iSize, 1, 0
    {
      var aiValues := aHash;
      assert Below(aiValues, iSize);
      apSub := seq(NPTR, _ => null);
      iDivisor := Divisor(iSize);
      DivisorFits(iSize);
      forall j: nat | j < NPTR ensures PartOk(j) {
      }
      forall j: nat, k: nat | j < k < NPTR ensures Apart(j, k) {
      }
      forall j: nat ensures !Has(j) {
        if 0 < j <= iSize { BinRest(j, iSize); }
      }
      SetInPart(i);
      var j := 0;
      while j < NINT
        invariant j <= NINT && Valid() && fresh(Repr - old(Repr)) && iDivisor > 0
        invariant forall x: nat :: Has(x) <==> x == i || (x != 0 && x in aiValues[..j])
      {
        if aiValues[j] != 0 {
          assert aiValues[j] in aiValues;
          SetInPart(aiValues[j]);
        }
        j := j + 1;
      }
      assert aiValues[..j] == aiValues;
    }

    /** sqlite3BitvecClear. */
    method Clear(i: nat)
      requires Valid() && 0 < i <= iSize
      modifies Repr
      ensures Valid() && Repr == old(Repr)
      ensures forall j: nat :: Has(j) <==> old(Has(j)) && j != i
      decreases iSize
    {
      if iDivisor > 0 {
        BinRest(i, iSize);
        assert PartOk(Bin(i, iDivisor));
        if apSub[Bin(i, iDivisor)] == null {
          ClearNowhere(i);
        } else {
          ClearInPart(i);
        }
      } else if iSize <= NBIT {
        ClearInBitmap(i);
      } else {
        aHash, nSet := Rebuild(aHash, nSet, i, iSize);
      }
    }

    method ClearInBitmap(i: nat)
      requires Valid() && 0 < i <= iSize <= NBIT
      modifies this`aBitmap
      ensures Valid() && Repr == old(Repr)
      ensures forall j: nat :: Has(j) <==> old(Has(j)) && j != i
    {
      hide BitSet, BitCleared, BitAt, HashOk, Below;
      ghost var was := aBitmap;
      aBitmap := BitCleared(aBitmap, i - 1);
      forall j: nat ensures Has(j) <==> old(Has(j)) && j != i {
        if 0 < j <= iSize { BitIsCleared(was, i - 1, j - 1); }
      }
    }

    lemma ClearNowhere(i: nat)
      requires Valid() && iDivisor > 0 && 0 < i <= iSize && Bin(i, iDivisor) < NPTR && apSub[Bin(i, iDivisor)] == null
      ensures !Has(i)
    {
    }

    method ClearInPart(i: nat)
      requires Valid() && iDivisor > 0 && 0 < i <= iSize && Bin(i, iDivisor) < NPTR && apSub[Bin(i, iDivisor)] != null
      modifies Repr
      ensures Valid() && Repr == old(Repr)
      ensures forall j: nat :: Has(j) <==> old(Has(j)) && j != i
      decreases iSize, 0
    {
      BinRest(i, iSize);
      var bin := Bin(i, iDivisor);
      var s := apSub[bin];
      assert PartOk(bin);
      s.Clear(Rest(i, iDivisor));
      forall k: nat | k < NPTR && k != bin
        ensures PartOk(k) && (k < bin ==> Apart(k, bin)) && (k > bin ==> Apart(bin, k))
        ensures apSub[k] != null ==> apSub[k].Repr == old(apSub[k].Repr)
      {
        assert old(PartOk(k)) && old(if k < bin then Apart(k, bin) else Apart(bin, k));
      }
      assert PartOk(bin);
      forall j: nat, k: nat | j < k < NPTR ensures Apart(j, k) {
        if j != bin && k != bin { assert old(Apart(j, k)) && old(PartOk(j)) && old(PartOk(k)); }
      }
      forall j: nat ensures Has(j) <==> old(Has(j)) && j != i {
        if 0 < j <= iSize {
          BinRest(j, iSize);
          BinRestUnique(i, j, iDivisor);
          var k := Bin(j, iDivisor);
          assert old(PartOk(k));
          if k != bin { assert old(if k < bin then Apart(k, bin) else Apart(bin, k)); }
        }
      }
    }
  }

  /** Puts every value but i into an empty table again. */
  method Rebuild(aiValues: seq<nat>, n: nat, i: nat, iSize: nat) returns (aHash: seq<nat>, nSet: nat)
    requires HashOk(aiValues, n) && i > 0 && Below(aiValues, iSize)
    ensures HashOk(aHash, nSet) && Below(aHash, iSize)
    ensures forall x :: x != 0 ==> (x in aHash <==> x in aiValues && x != i)
  {
    hide HashOk, Home, Slot, Probed, Used;
    HashLength(aiValues, n);
    NothingUsed();
    aHash, nSet := seq(NINT, _ => 0), 0;
    EmptyHash(aHash);
    var j := 0;
    while j < NINT
      invariant j <= NINT && HashOk(aHash, nSet) && Below(aHash, iSize)
      invariant forall x :: x != 0 ==> (x in aHash <==> x in aiValues[..j] && x != i)
      invariant nSet <= |Used(aiValues[..j])|
    {
      NextValue(aiValues, n, j);
      TakeIn(aiValues, j);
      assert aiValues[j] in aiValues;
      if aiValues[j] != 0 && aiValues[j] != i {
        var found, h, k := Probe(aHash, nSet, aiValues[j]);
        Stored(aHash, nSet, aiValues[j], k);
        AllBelow(aHash, h, aiValues[j], iSize);
        nSet := nSet + 1;
        aHash := aHash[h := aiValues[j]];
      }
      j := j + 1;
    }
    assert aiValues[..j] == aiValues;
  }

  lemma TakeIn(s: seq<nat>, j: nat)
    requires j < |s|
    ensures forall x :: x in s[..j + 1] <==> x in s[..j] || x == s[j]
  {
    assert s[..j + 1] == s[..j] + [s[j]];
  }

  lemma NothingUsed()
    ensures Used([]) == {}
  {
  }

  lemma NextValue(h: seq<nat>, n: nat, j: nat)
    requires HashOk(h, n) && j < NINT
    ensures h[j] != 0 ==> h[j] !in h[..j]
    ensures |Used(h[..j + 1])| == |Used(h[..j])| + (if h[j] != 0 then 1 else 0) <= n < NINT
    ensures h[..j + 1] == h[..j] + [h[j]]
  {
    hide Reachable;
    var u := Used(h[..j + 1]);
    assert u == if h[j] != 0 then Used(h[..j]) + {j} else Used(h[..j]);
    SubsetSize(u, Used(h));
  }

  lemma AllBelow(h: seq<nat>, at: nat, v: nat, n: nat)
    requires at < |h| && v <= n && Below(h, n)
    ensures Below(h[at := v], n)
  {
    var h' := h[at := v];
    forall s | 0 <= s < |h'| ensures h'[s] <= n {
      if s != at { assert h[s] in h; }
    }
  }

  /** Looks for v from its home on, up to the first free slot. */
  method Probe(aHash: seq<nat>, nSet: nat, v: nat) returns (found: bool, h: nat, ghost k: nat)
    requires HashOk(aHash, nSet) && v > 0
    ensures h < NINT == |aHash| && k < NINT && (found <==> v in aHash)
    ensures !found ==> Probed(aHash, v, k) && h == Slot(Home(v), k) && aHash[h] == 0
  {
    hide HashOk, Home, Slot, Next, Probed;
    HashLength(aHash, nSet);
    h, k := Home(v), 0;
    ProbeStart(aHash, v);
    while aHash[h] != 0
      invariant h < NINT && k < NINT && Probed(aHash, v, k) && h == Slot(Home(v), k)
      decreases NINT - k
    {
      if aHash[h] == v { return true, h, k; }
      ProbeStep(aHash, nSet, v, k);
      h := Next(h);
      k := k + 1;
    }
    ProbeEnds(aHash, nSet, v, k);
    found := false;
  }

  lemma HashLength(h: seq<nat>, nSet: nat)
    requires HashOk(h, nSet)
    ensures |h| == NINT
  {
  }

  /** sqlite3BitvecTest. */
  method Test(p: Bitvec?, i: nat) returns (r: bool)
    requires p != null ==> p.Valid()
    ensures r <==> p != null && p.Has(i)
  {
    if p == null || i > p.iSize || i == 0 { return false; }
    var q: Bitvec, x := p, i;
    while q.iDivisor > 0
      invariant q.Valid() && 0 < x <= q.iSize && (p.Has(i) <==> q.Has(x))
      decreases q.iSize
    {
      BinRest(x, q.iSize);
      var bin := Bin(x, q.iDivisor);
      assert q.PartOk(bin);
      if q.apSub[bin] == null { return false; }
      x := Rest(x, q.iDivisor);
      q := q.apSub[bin];
    }
    if q.iSize <= NBIT {
      r := BitIn(q.aBitmap[(x - 1) / 8], (x - 1) % 8);
    } else {
      var found, h, k := Probe(q.aHash, q.nSet, x);
      r := found;
    }
  }
}
