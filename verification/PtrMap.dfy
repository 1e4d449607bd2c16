/** The layout of an auto-vacuum database: pointer-map pages, their entries, and the size of the file after a vacuum. */
module PtrMap {
  import opened Arith

  /** entries: pointers that fit on a map page; pending: the page that holds the byte used for locking, never used. */
  datatype Geometry = Geometry(usable: nat, pending: nat) {
    predicate Sane() { usable >= 480 && pending > 2 }
    function Entries(): (n: nat)
      requires Sane()
      ensures n >= 96
    {
      usable / 5
    }

    /** The map page for page p, 0 for page 1. */
    function MapOf(p: nat): nat
      requires Sane()
    {
      if p < 2 then 0
      else
        var group := Entries() + 1;
        var ret := (p - 2) / group * group + 2;
        if ret == pending then ret + 1 else ret
    }

    predicate IsMap(p: nat)
      requires Sane()
    {
      MapOf(p) == p
    }

    /** Page p can hold database content. */
    predicate Usable(p: nat)
      requires Sane()
    {
      p > 0 && !IsMap(p) && p != pending
    }

    function Offset(p: nat): int
      requires Sane()
    {
      5 * (p - MapOf(p) - 1)
    }

    /** Usable pages among pages 1 .. n. */
    function Count(n: nat): nat
      requires Sane()
    {
      if n == 0 then 0 else Count(n - 1) + if Usable(n) then 1 else 0
    }
  }

  // ----- division -----

  lemma DivMod(a: nat, m: nat)
    requires m > 0
    ensures a == a / m * m + a % m && a % m < m
  {
  }

  lemma DivStep(q: nat, r: nat, m: nat)
    requires m > 0 && r < m
    ensures (q * m + r) / m == q && (q * m + r) % m == r
  {
    var a := q * m + r;
    DivMod(a, m);
    if a / m < q { MulMono(a / m + 1, q, m); }
    if a / m > q { MulMono(q + 1, a / m, m); }
  }

  // ----- one group of pages -----

  /** A page p > 1 is number r of group q; the map page comes first, or second where the pending page is first. */
  lemma InGroup(g: Geometry, p: nat) returns (q: nat, r: nat)
    requires g.Sane() && p >= 2
    ensures r <= g.Entries() && p == q * (g.Entries() + 1) + 2 + r
    ensures g.MapOf(p) == (var b := q * (g.Entries() + 1) + 2; if b == g.pending then b + 1 else b)
  {
    var m := g.Entries() + 1;
    DivMod(p - 2, m);
    q, r := (p - 2) / m, (p - 2) % m;
  }

  lemma MapAt(g: Geometry, q: nat, r: nat)
    requires g.Sane() && r <= g.Entries()
    ensures var b := q * (g.Entries() + 1) + 2; g.MapOf(b + r) == if b == g.pending then b + 1 else b
  {
    DivStep(q, r, g.Entries() + 1);
  }

  /** Every usable page but page 1 has its own entry, inside the map page. */
  lemma EntryInside(g: Geometry, p: nat)
    requires g.Sane() && p >= 2 && g.Usable(p)
    ensures 0 <= g.Offset(p) <= g.usable - 5 && g.Offset(p) % 5 == 0
    ensures g.MapOf(p) < p && g.IsMap(g.MapOf(p)) && g.MapOf(p) != g.pending
  {
    hide Geometry.MapOf, Geometry.Entries;
    var q, r := InGroup(g, p);
    MapAt(g, q, 0);
    MapAt(g, q, 1);
    EntriesFit(g);
  }

  lemma EntriesFit(g: Geometry)
    requires g.Sane()
    ensures 5 * g.Entries() <= g.usable
  {
  }

  /** A map page holds as many entries of 5 bytes as fit. */
  lemma EntriesFill(g: Geometry)
    requires g.Sane()
    ensures 5 * g.Entries() <= g.usable < 5 * (g.Entries() + 1)
  {
  }

  ghost predicate NoMapBetween(g: Geometry, m: nat, p: nat)
    requires g.Sane()
  {
    forall x: nat :: m < x <= p ==> !g.IsMap(x)
  }

  /** The pages after a map page, up to the next one, are just those with entries on it, the pending page aside. */
  lemma MapCovers(g: Geometry, m: nat, p: nat)
    requires g.Sane() && m >= 2 && g.IsMap(m) && m < p && p != g.pending
    ensures g.MapOf(p) == m <==> NoMapBetween(g, m, p)
  {
    hide Geometry.Entries, Geometry.MapOf;
    var q, r := InGroup(g, p);
    var q', r' := InGroup(g, m);
    MapIs(g, q);
    var b := MapPage(g, q);
    if q' < q {
      MapsApart(g, q', q);
      assert m == MapPage(g, q') && !NoMapBetween(g, m, p) by { assert g.IsMap(b) && m < b <= p; }
    } else {
      if q < q' { MapsApart(g, q, q'); }
      forall x: nat | m < x <= p ensures !g.IsMap(x) { InsideGroup(g, q, x - q * (g.Entries() + 1) - 2); }
    }
  }

  lemma MapIs(g: Geometry, q: nat)
    requires g.Sane()
    ensures g.IsMap(MapPage(g, q))
  {
    hide Geometry.Entries, Geometry.MapOf;
    MapAt(g, q, 0);
    MapAt(g, q, 1);
  }

  lemma MapsApart(g: Geometry, a: nat, b: nat)
    requires g.Sane() && a < b
    ensures a * (g.Entries() + 1) + 2 + g.Entries() < b * (g.Entries() + 1) + 2 && MapPage(g, a) < MapPage(g, b)
  {
    hide Geometry.Entries;
    MulMono(a + 1, b, g.Entries() + 1);
  }

  lemma InsideGroup(g: Geometry, q: nat, r: nat)
    requires g.Sane() && r <= g.Entries() && MapPage(g, q) < q * (g.Entries() + 1) + 2 + r
    ensures !g.IsMap(q * (g.Entries() + 1) + 2 + r)
  {
    hide Geometry.Entries, Geometry.MapOf;
    MapAt(g, q, r);
  }

  /** Map page number q: one for every Entries() + 1 pages from page 2 on, and a page later where the pending page is in the way. */
  function MapPage(g: Geometry, q: nat): nat
    requires g.Sane()
  {
    var b := q * (g.Entries() + 1) + 2;
    if b == g.pending then b + 1 else b
  }

  lemma MapPages(g: Geometry, p: nat)
    requires g.Sane()
    ensures p > 0 && g.IsMap(p) <==> exists q: nat :: p == MapPage(g, q)
  {
    hide Geometry.Entries, Geometry.MapOf;
    FirstPage(g);
    if p >= 2 {
      var q, r := InGroup(g, p);
      assert g.IsMap(p) ==> p == MapPage(g, q);
    }
    forall q: nat | p == MapPage(g, q) ensures g.IsMap(p) && p > 0 {
      MapAt(g, q, 0);
      MapAt(g, q, 1);
    }
  }

  lemma EntryOwn(g: Geometry, p: nat, p': nat)
    requires g.Sane() && p >= 2 && p' >= 2 && g.Usable(p) && g.Usable(p') && g.MapOf(p) == g.MapOf(p') && g.Offset(p) == g.Offset(p')
    ensures p == p'
  {
  }

  // ----- counting usable pages -----

  /** The pages of the first q groups, with page 1. */
  function Base(g: Geometry, q: nat): nat
    requires g.Sane()
  {
    q * (g.Entries() + 1) + 1
  }

  /** Usable pages among the first r pages after Base(q): all but the map page and the pending page. */
  lemma {:induction false} CountInGroup(g: Geometry, q: nat, r: nat)
    requires g.Sane() && r <= g.Entries() + 1
    ensures g.Count(Base(g, q) + r) == g.Count(Base(g, q)) + r
            - (if r >= 1 && g.pending != Base(g, q) + 1 then 1 else 0) - (if r >= 2 && g.pending == Base(g, q) + 1 then 1 else 0)
            - (if Base(g, q) < g.pending <= Base(g, q) + r then 1 else 0)
    decreases r
  {
    if r > 0 {
      CountInGroup(g, q, r - 1);
      MapAt(g, q, r - 1);
    }
  }

  lemma {:induction false} CountBase(g: Geometry, q: nat)
    requires g.Sane()
    ensures g.Count(Base(g, q)) == q * g.Entries() + 1 - if g.pending <= Base(g, q) then 1 else 0
    decreases q
  {
    if q == 0 {
      assert g.Count(0) == 0 && g.Usable(1);
      assert g.Count(1) == 1;
    } else {
      CountBase(g, q - 1);
      CountInGroup(g, q - 1, g.Entries() + 1);
      assert Base(g, q) == Base(g, q - 1) + g.Entries() + 1;
      assert q * g.Entries() == (q - 1) * g.Entries() + g.Entries();
    }
  }

  lemma {:induction false} CountMonotone(g: Geometry, a: nat, b: nat)
    requires g.Sane() && a <= b
    ensures g.Count(a) <= g.Count(b) <= g.Count(a) + (b - a)
    ensures a < b && g.Usable(b) ==> g.Count(a) < g.Count(b)
    decreases b
  {
    if a < b { CountMonotone(g, a, b - 1); }
  }

  /** A usable page is known by how many usable pages there are up to it. */
  lemma CountInjective(g: Geometry, a: nat, b: nat)
    requires g.Sane() && g.Usable(a) && g.Usable(b) && g.Count(a) == g.Count(b)
    ensures a == b
  {
    if a < b { CountMonotone(g, a, b); } else if b < a { CountMonotone(g, b, a); }
  }

  /** The page after a map page is not a map page. */
  lemma NextToMap(g: Geometry, p: nat)
    requires g.Sane() && g.IsMap(p) && p >= 1
    ensures !g.IsMap(p + 1) && (p + 1 == g.pending ==> !g.IsMap(p + 2))
  {
    hide Geometry.Entries, Geometry.MapOf;
    FirstPage(g);
    var q, r := InGroup(g, p);
    MapAt(g, q, r + 1);
    MapAt(g, q, r + 2);
  }

  /** A page that can be used is never more than two pages away. */
  lemma UsableSoon(g: Geometry, p: nat) returns (t: nat)
    requires g.Sane() && p >= 1
    ensures p <= t <= p + 2 && g.Usable(t)
  {
    hide Geometry.Entries, Geometry.MapOf;
    if g.Usable(p) { return p; }
    if g.Usable(p + 1) { return p + 1; }
    if g.IsMap(p) { NextToMap(g, p); } else { NextToMap(g, p + 1); }
    t := p + 2;
  }

  // ----- the size after a vacuum -----

  lemma Distribute(q: nat, e: nat)
    requires q > 0
    ensures q * e == (q - 1) * e + e
  {
  }

  lemma CountStep(g: Geometry, n: nat)
    requires g.Sane() && n > 0
    ensures g.Count(n) == g.Count(n - 1) + if g.Usable(n) then 1 else 0
  {
  }

  /** Counting down from the end of a group, short of its map page. */
  lemma CountFromEnd(g: Geometry, q: nat, c: nat)
    requires g.Sane() && c < g.Entries() && (q == 0 ==> c == 0)
    ensures c < Base(g, q)
    ensures g.Count(Base(g, q) - c) == q * g.Entries() + 1 - c - if g.pending <= Base(g, q) - c then 1 else 0
  {
    hide Geometry.Count, Geometry.MapOf, Geometry.Entries;
    CountBase(g, q);
    if q > 0 {
      CountBase(g, q - 1);
      CountInGroup(g, q - 1, g.Entries() + 1 - c);
      Distribute(q, g.Entries());
      Distribute(q, g.Entries() + 1);
    }
  }

  /** The page reached is usable where it comes before the pending page. */
  lemma UsableFromEnd(g: Geometry, q: nat, c: nat)
    requires g.Sane() && c < g.Entries() && (q == 0 ==> c == 0) && c < Base(g, q) && Base(g, q) - c < g.pending
    ensures g.Usable(Base(g, q) - c)
  {
    hide Geometry.Count, Geometry.MapOf, Geometry.Entries;
    if q > 0 {
      Distribute(q, g.Entries() + 1);
      MapAt(g, q - 1, g.Entries() - c);
    } else {
      FirstPage(g);
    }
  }

  lemma FirstPage(g: Geometry)
    requires g.Sane()
    ensures g.Usable(1) && g.Count(1) == 1 && g.MapOf(1) == 0 && g.Count(0) == 0
  {
    assert g.Count(0) == 0;
  }

  /** The usable pages up to a usable page, by its group and its place after the map page. */
  lemma CountOf(g: Geometry, p: nat) returns (q: nat)
    requires g.Sane() && p >= 2 && g.Usable(p)
    ensures g.MapOf(p) == Base(g, q) + if g.pending == Base(g, q) + 1 then 2 else 1
    ensures 1 <= p - g.MapOf(p) <= g.Entries()
    ensures g.Count(p) == q * g.Entries() + 1 + (p - g.MapOf(p)) - if g.pending <= p && g.pending != Base(g, q) + 1 then 1 else 0
    ensures forall n: nat :: g.MapOf(p) < n <= p ==>
      g.Count(n) == q * g.Entries() + 1 + (n - g.MapOf(p)) - (if g.pending <= n && g.pending != Base(g, q) + 1 then 1 else 0)
      && (g.Usable(n) <==> n != g.pending)
  {
    var r;
    q, r := InGroup(g, p);
    assert p == Base(g, q) + 1 + r;
    CountBase(g, q);
    forall n: nat | g.MapOf(p) < n <= p
      ensures g.Count(n) == q * g.Entries() + 1 + (n - g.MapOf(p)) - (if g.pending <= n && g.pending != Base(g, q) + 1 then 1 else 0)
      ensures g.Usable(n) <==> n != g.pending
    {
      CountInGroup(g, q, n - Base(g, q));
      MapAt(g, q, n - Base(g, q) - 1);
    }
  }

  /** Freeing fewer pages than follow the last map page. */
  lemma ShrinkInGroup(g: Geometry, nOrig: nat, nFree: nat)
    requires g.Sane() && nOrig >= 2 && g.Usable(nOrig) && nFree < nOrig - g.MapOf(nOrig)
    ensures var n := nOrig - nFree;
      var nFin := if nOrig > g.pending && n < g.pending then n - 1 else n;
      nFin >= 1 && g.Count(nFin) + nFree == g.Count(nOrig)
  {
    var q := CountOf(g, nOrig);
    var n := nOrig - nFree;
    assert g.Count(n) == if g.Usable(n) then g.Count(n - 1) + 1 else g.Count(n - 1);
  }

  lemma Groups(g: Geometry, q: nat, k: nat, a: nat)
    requires g.Sane() && q == k + a
    ensures Base(g, q) >= Base(g, k) + a
    ensures Base(g, q) == Base(g, k) + a * g.Entries() + a && q * g.Entries() == k * g.Entries() + a * g.Entries()
  {
    hide Geometry.Entries;
    var e := g.Entries();
    assert q * e == k * e + a * e;
    MulMono(0, a, e);
    assert q * (e + 1) == q * e + q && k * (e + 1) == k * e + k;
  }

  /** The last page kept is in group q - a, or that group is the first and page 1 is kept. */
  lemma GroupsLeft(g: Geometry, nOrig: nat, q: nat, a: nat, c: nat)
    requires g.Sane() && a * g.Entries() + c < q * g.Entries() + 1
    ensures a <= q && (q == a ==> c == 0)
  {
    hide Geometry.Entries;
    if q < a { MulMono(q + 1, a, g.Entries()); }
  }

  /** Freeing those and a further a groups and c pages. */
  lemma ShrinkPastGroups(g: Geometry, nOrig: nat, nFree: nat, a: nat, c: nat)
    requires g.Sane() && nOrig >= 2 && g.Usable(nOrig) && nFree < g.Count(nOrig)
    requires nFree == nOrig - g.MapOf(nOrig) + a * g.Entries() + c && c < g.Entries()
    ensures var n := nOrig - nFree - (a + 1);
      n >= 1 &&
      var nFin := if nOrig > g.pending && n < g.pending then n - 1 else n;
      nFin >= 1 && g.Count(nFin) + nFree == g.Count(nOrig)
  {
    hide Geometry.Count, Geometry.MapOf, Geometry.Entries, Geometry.Usable, Base;
    var q := CountOf(g, nOrig);
    FirstPage(g);
    GroupsLeft(g, nOrig, q, a, c);
    var k := q - a;
    Groups(g, q, k, a);
    CountFromEnd(g, k, c);
    var m := Base(g, k) - c;
    CountStep(g, m);
    if m < g.pending { UsableFromEnd(g, k, c); }
    if g.pending == Base(g, q) + 1 && a == 0 && c == 0 {
      CountStep(g, m + 1);
      NotUsable(g);
    }
  }

  lemma NotUsable(g: Geometry)
    requires g.Sane()
    ensures !g.Usable(g.pending) && !g.Usable(0)
  {
  }

  /** How many map pages go with nFree pages, by the code's formula. */
  lemma MapsFreed(g: Geometry, nFree: nat, t: nat) returns (a: nat, c: nat)
    requires g.Sane() && t > 0
    ensures nFree - t + g.Entries() >= 0 ==> (nFree - t + g.Entries()) / g.Entries() == if nFree < t then 0 else a + 1
    ensures nFree >= t ==> nFree == t + a * g.Entries() + c && c < g.Entries()
  {
    hide Geometry.Entries;
    var e := g.Entries();
    if nFree < t {
      a, c := 0, 0;
      if nFree - t + e >= 0 { DivStep(0, nFree - t + e, e); }
    } else {
      DivMod(nFree - t, e);
      a, c := (nFree - t) / e, (nFree - t) % e;
      Distribute(a + 1, e);
      DivStep(a + 1, c, e);
    }
  }

  /** The number found before unusable pages are skipped. */
  lemma Shrink(g: Geometry, nOrig: nat, nFree: nat)
    requires g.Sane() && g.Usable(nOrig) && nFree < g.Count(nOrig)
    ensures nFree - nOrig + g.MapOf(nOrig) + g.Entries() >= 0
    ensures var n := nOrig - nFree - (nFree - nOrig + g.MapOf(nOrig) + g.Entries()) / g.Entries();
      n >= 1 &&
      var nFin := if nOrig > g.pending && n < g.pending then n - 1 else n;
      1 <= nFin <= nOrig && g.Count(nFin) + nFree == g.Count(nOrig)
  {
    hide Geometry.Count, Geometry.MapOf, Geometry.Entries, Geometry.Usable, Base;
    FirstPage(g);
    NotUsable(g);
    var t := nOrig - g.MapOf(nOrig);
    if nOrig == 1 {
      var a, c := MapsFreed(g, nFree, 1);
    } else {
      var q := CountOf(g, nOrig);
      var a, c := MapsFreed(g, nFree, t);
      if nFree < t { ShrinkInGroup(g, nOrig, nFree); } else { ShrinkPastGroups(g, nOrig, nFree, a, c); }
    }
  }

  /** The size, in pages, of a database of nOrig pages with nFree free ones once it has been vacuumed: the last page is usable and
      there are exactly nFree usable pages less. */
  method FinalDbSize(g: Geometry, nOrig: nat, nFree: nat) returns (nFin: nat)
    requires g.Sane() && g.Usable(nOrig) && nFree < g.Count(nOrig)
    ensures g.Usable(nFin) && nFin <= nOrig && g.Count(nFin) + nFree == g.Count(nOrig)
  {
    hide Geometry.Count, Geometry.MapOf, Geometry.Entries;
    Shrink(g, nOrig, nFree);
    FirstPage(g);
    var nEntry := g.Entries();
    var nPtrmap := (nFree - nOrig + g.MapOf(nOrig) + nEntry) / nEntry;
    nFin := nOrig - nFree - nPtrmap;
    if nOrig > g.pending && nFin < g.pending { nFin := nFin - 1; }
    while g.IsMap(nFin) || nFin == g.pending
      invariant 1 <= nFin <= nOrig && g.Count(nFin) + nFree == g.Count(nOrig)
      decreases nFin
    {
      CountStep(g, nFin);
      nFin := nFin - 1;
    }
  }
}
