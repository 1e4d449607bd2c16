/** The pages of a database and the pointers between them, with the pointer map that leads from a page back to its parent. */
module PageGraph {

  /** A b-tree page with the numbers of its children and of the first overflow pages of its cells, or an overflow page with the
      number of the next one, 0 if it is the last.  The rest of the page is opaque. */
  datatype Content =
    | Btree(kids: seq<nat>, ovfls: seq<nat>, rest: seq<bv8>)
    | Overflow(next: nat, rest: seq<bv8>)

  datatype PtrType = RootPage | BtreePage | Overflow1 | Overflow2

  datatype Entry = Entry(eType: PtrType, parent: nat)

  ghost predicate NoRepeats(s: seq<nat>) { forall i, j :: 0 <= i < j < |s| ==> s[i] != s[j] }

  /** The pages a page points to, with the entry the pointer map must hold for each. */
  predicate PointsTo(c: Content, p: nat, t: PtrType) {
    match c
    case Btree(kids, ovfls, _) => (t.BtreePage? && p in kids) || (t.Overflow1? && p in ovfls)
    case Overflow(next, _) => t.Overflow2? && p == next && p != 0
  }

  ghost predicate Tidy(c: Content) {
    c.Btree? ==> NoRepeats(c.kids) && NoRepeats(c.ovfls)
  }

  /** Page p has the shape its entry calls for. */
  predicate ShapeFits(c: Content, t: PtrType) {
    c.Btree? <==> t.RootPage? || t.BtreePage?
  }

  /** Every pointer leads to a page whose entry names the page it comes from, and every entry names a page with such a pointer. */
  ghost predicate PtrOk(page: map<nat, Content>, ptr: map<nat, Entry>) {
    && (forall q :: q in page ==> Tidy(page[q]))
    && (forall q, p, t :: q in page && PointsTo(page[q], p, t) ==> p in page && p in ptr && ptr[p] == Entry(t, q))
    && (forall p :: p in page ==> p in ptr && ShapeFits(page[p], ptr[p].eType))
    && (forall p :: p in page && !ptr[p].eType.RootPage? ==>
          ptr[p].parent in page && ptr[p].parent != p && PointsTo(page[ptr[p].parent], p, ptr[p].eType))
    && 0 !in page
  }

  // ----- moving page a to b -----

  function To(a: nat, b: nat, p: nat): nat { if p == a then b else p }

  function ToAll(a: nat, b: nat, s: seq<nat>): (r: seq<nat>)
    ensures |r| == |s|
    ensures forall i :: 0 <= i < |s| ==> r[i] == To(a, b, s[i])
  {
    seq(|s|, i requires 0 <= i < |s| => To(a, b, s[i]))
  }

  function Renamed(a: nat, b: nat, c: Content): Content {
    match c
    case Btree(kids, ovfls, rest) => Btree(ToAll(a, b, kids), ToAll(a, b, ovfls), rest)
    case Overflow(next, rest) => Overflow(if next == 0 then 0 else To(a, b, next), rest)
  }

  /** The same graph with page a called b. */
  ghost predicate Moves(a: nat, b: nat, page: map<nat, Content>, ptr: map<nat, Entry>, page': map<nat, Content>, ptr': map<nat, Entry>) {
    && page'.Keys == page.Keys - {a} + {b}
    && (forall p :: p in page ==> To(a, b, p) in page' && page'[To(a, b, p)] == Renamed(a, b, page[p]))
    && (forall p :: p in page && p in ptr ==>
          To(a, b, p) in ptr' && ptr'[To(a, b, p)] == Entry(ptr[p].eType, if ptr[p].eType.RootPage? then ptr[p].parent else To(a, b, ptr[p].parent)))
  }

  lemma RenamedPoints(a: nat, b: nat, c: Content, p: nat, t: PtrType)
    requires a != 0 && b != 0 && !PointsTo(c, b, t)
    ensures PointsTo(c, p, t) ==> PointsTo(Renamed(a, b, c), To(a, b, p), t)
    ensures PointsTo(Renamed(a, b, c), p, t) ==> p != a || a == b
    ensures PointsTo(Renamed(a, b, c), p, t) ==> PointsTo(c, if p == b then a else p, t)
  {
    match c
    case Btree(kids, ovfls, _) =>
      ToAllHas(a, b, kids, p);
      ToAllHas(a, b, ovfls, p);
    case Overflow(next, _) =>
  }

  lemma ToAllHas(a: nat, b: nat, s: seq<nat>, p: nat)
    ensures p in s ==> To(a, b, p) in ToAll(a, b, s)
    ensures b !in s && p in ToAll(a, b, s) ==> (if p == b then a else p) in s && (p != a || a == b)
  {
    var r := ToAll(a, b, s);
    if p in s {
      var i :| 0 <= i < |s| && s[i] == p;
      assert r[i] == To(a, b, p);
    }
    if b !in s && p in r {
      var i :| 0 <= i < |r| && r[i] == p;
      assert s[i] == if p == b then a else p;
    }
  }

  lemma RenamedTidy(a: nat, b: nat, c: Content)
    requires Tidy(c) && forall t :: !PointsTo(c, b, t)
    ensures Tidy(Renamed(a, b, c))
  {
    if c.Btree? {
      assert !PointsTo(c, b, BtreePage) && !PointsTo(c, b, Overflow1);
    }
  }

  /** Moving a page keeps the pointer map true. */
  lemma MovedOk(a: nat, b: nat, page: map<nat, Content>, ptr: map<nat, Entry>, page': map<nat, Content>, ptr': map<nat, Entry>)
    requires PtrOk(page, ptr) && a in page && b !in page && b != 0 && Moves(a, b, page, ptr, page', ptr')
    ensures PtrOk(page', ptr')
  {
    hide Renamed, Tidy;
    forall q | q in page ensures forall t :: !PointsTo(page[q], b, t) {}
    forall q' | q' in page' ensures Tidy(page'[q']) {
      var q := if q' == b then a else q';
      assert To(a, b, q) == q';
      RenamedTidy(a, b, page[q]);
    }
    forall q', p', t | q' in page' && PointsTo(page'[q'], p', t) ensures p' in page' && p' in ptr' && ptr'[p'] == Entry(t, q') {
      MovedPointer(a, b, page, ptr, page', ptr', q', p', t);
    }
    forall p' | p' in page' ensures p' in ptr' && ShapeFits(page'[p'], ptr'[p'].eType) {
      MovedEntry(a, b, page, ptr, page', ptr', p');
    }
    forall p' | p' in page' && p' in ptr' && !ptr'[p'].eType.RootPage?
      ensures ptr'[p'].parent in page' && ptr'[p'].parent != p' && PointsTo(page'[ptr'[p'].parent], p', ptr'[p'].eType)
    {
      MovedEntry(a, b, page, ptr, page', ptr', p');
    }
  }

  lemma MovedPointer(a: nat, b: nat, page: map<nat, Content>, ptr: map<nat, Entry>, page': map<nat, Content>, ptr': map<nat, Entry>,
                     q': nat, p': nat, t: PtrType)
    requires PtrOk(page, ptr) && a in page && b !in page && b != 0 && Moves(a, b, page, ptr, page', ptr')
    requires q' in page' && PointsTo(page'[q'], p', t)
    ensures p' in page' && p' in ptr' && ptr'[p'] == Entry(t, q')
  {
    hide Renamed, Tidy, ShapeFits;
    var q, p := if q' == b then a else q', if p' == b then a else p';
    assert To(a, b, q) == q';
    RenamedPoints(a, b, page[q], p', t);
    assert PointsTo(page[q], p, t);
    assert To(a, b, p) == p';
    NeverRoot(page[q], p, t);
  }

  lemma NeverRoot(c: Content, p: nat, t: PtrType)
    requires PointsTo(c, p, t)
    ensures !t.RootPage?
  {
  }

  lemma MovedEntry(a: nat, b: nat, page: map<nat, Content>, ptr: map<nat, Entry>, page': map<nat, Content>, ptr': map<nat, Entry>, p': nat)
    requires PtrOk(page, ptr) && a in page && b !in page && b != 0 && Moves(a, b, page, ptr, page', ptr') && p' in page'
    ensures p' in ptr' && ShapeFits(page'[p'], ptr'[p'].eType)
    ensures !ptr'[p'].eType.RootPage? ==>
      ptr'[p'].parent in page' && ptr'[p'].parent != p' && PointsTo(page'[ptr'[p'].parent], p', ptr'[p'].eType)
  {
    hide Tidy, PointsTo;
    var p := if p' == b then a else p';
    assert To(a, b, p) == p';
    var q := ptr[p].parent;
    if !ptr[p].eType.RootPage? {
      RenamedPoints(a, b, page[q], p, ptr[p].eType);
      assert To(a, b, q) in page';
    }
  }

  // ----- the pointers that change when a page moves -----

  ghost predicate Avoids(c: Content, p: nat) { forall t :: !PointsTo(c, p, t) }

  /** The map once every page that c points to has the entry that names q. */
  ghost predicate Reparented(ptr: map<nat, Entry>, ptr': map<nat, Entry>, c: Content, q: nat) {
    && (forall p, t :: PointsTo(c, p, t) ==> p in ptr' && ptr'[p] == Entry(t, q))
    && (forall p :: Avoids(c, p) ==> (p in ptr' <==> p in ptr) && (p in ptr ==> ptr'[p] == ptr[p]))
  }

  lemma RenamedSame(a: nat, b: nat, c: Content)
    requires forall t :: !PointsTo(c, a, t)
    requires a != 0
    ensures Renamed(a, b, c) == c
  {
    match c
    case Btree(kids, ovfls, _) =>
      assert !PointsTo(c, a, BtreePage) && !PointsTo(c, a, Overflow1);
      assert ToAll(a, b, kids) == kids && ToAll(a, b, ovfls) == ovfls;
    case Overflow(next, _) =>
      assert !PointsTo(c, a, Overflow2);
  }

  /** The page's pointer of type t to a, redirected to b. */
  function Redirected(c: Content, a: nat, b: nat, t: PtrType, i: nat): Content
    requires t.BtreePage? ==> c.Btree? && i < |c.kids|
    requires t.Overflow1? ==> c.Btree? && i < |c.ovfls|
    requires t.Overflow2? ==> c.Overflow?
    requires !t.RootPage?
  {
    if t.BtreePage? then c.(kids := c.kids[i := b])
    else if t.Overflow1? then c.(ovfls := c.ovfls[i := b])
    else c.(next := b)
  }

  lemma RedirectedIs(c: Content, a: nat, b: nat, t: PtrType, i: nat)
    requires Tidy(c) && a != 0 && PointsTo(c, a, t) && forall t' :: PointsTo(c, a, t') ==> t' == t
    requires t.BtreePage? ==> i < |c.kids| && c.kids[i] == a
    requires t.Overflow1? ==> i < |c.ovfls| && c.ovfls[i] == a
    ensures Redirected(c, a, b, t, i) == Renamed(a, b, c)
  {
    if c.Btree? {
      if t.BtreePage? {
        assert !PointsTo(c, a, Overflow1);
        assert ToAll(a, b, c.ovfls) == c.ovfls && ToAll(a, b, c.kids) == c.kids[i := b];
      } else {
        assert !PointsTo(c, a, BtreePage);
        assert ToAll(a, b, c.kids) == c.kids && ToAll(a, b, c.ovfls) == c.ovfls[i := b];
      }
    }
  }

  /** Moving the content, reparenting its children and redirecting the one pointer to it renames the page in the whole graph. */
  lemma Relocated(a: nat, b: nat, page: map<nat, Content>, ptr: map<nat, Entry>, i: nat, ptr1: map<nat, Entry>)
    requires PtrOk(page, ptr) && a in page && b !in page && b != 0 && !ptr[a].eType.RootPage?
    requires var c := page[ptr[a].parent];
      && (ptr[a].eType.BtreePage? ==> i < |c.kids| && c.kids[i] == a) && (ptr[a].eType.Overflow1? ==> i < |c.ovfls| && c.ovfls[i] == a)
    requires Reparented(ptr, ptr1, page[a], b)
    ensures var q, t := ptr[a].parent, ptr[a].eType;
      Moves(a, b, page, ptr, (page - {a})[b := page[a]][q := Redirected(page[q], a, b, t, i)], ptr1[b := Entry(t, q)])
  {
    RelocatedContent(a, b, page, ptr, i);
    RelocatedEntries(a, b, page, ptr, ptr1);
  }

  lemma RelocatedContent(a: nat, b: nat, page: map<nat, Content>, ptr: map<nat, Entry>, i: nat)
    requires PtrOk(page, ptr) && a in page && b !in page && !ptr[a].eType.RootPage?
    requires var c := page[ptr[a].parent];
      && (ptr[a].eType.BtreePage? ==> i < |c.kids| && c.kids[i] == a) && (ptr[a].eType.Overflow1? ==> i < |c.ovfls| && c.ovfls[i] == a)
    ensures var q, t := ptr[a].parent, ptr[a].eType;
            var page' := (page - {a})[b := page[a]][q := Redirected(page[q], a, b, t, i)];
      && page'.Keys == page.Keys - {a} + {b}
      && forall p :: p in page ==> To(a, b, p) in page' && page'[To(a, b, p)] == Renamed(a, b, page[p])
  {
    var q, t := ptr[a].parent, ptr[a].eType;
    assert PointsTo(page[q], a, t);
    RedirectedIs(page[q], a, b, t, i);
    hide Redirected, Renamed;
    var page' := (page - {a})[b := page[a]][q := Redirected(page[q], a, b, t, i)];
    forall p | p in page ensures To(a, b, p) in page' && page'[To(a, b, p)] == Renamed(a, b, page[p]) {
      if p != q { RenamedSame(a, b, page[p]); }
    }
  }

  lemma RelocatedEntries(a: nat, b: nat, page: map<nat, Content>, ptr: map<nat, Entry>, ptr1: map<nat, Entry>)
    requires PtrOk(page, ptr) && a in page && b !in page && !ptr[a].eType.RootPage? && Reparented(ptr, ptr1, page[a], b)
    ensures var ptr' := ptr1[b := ptr[a]];
      forall p :: p in page && p in ptr ==>
        To(a, b, p) in ptr' && ptr'[To(a, b, p)] == Entry(ptr[p].eType, if ptr[p].eType.RootPage? then ptr[p].parent else To(a, b, ptr[p].parent))
  {
    hide ShapeFits, Tidy;
    forall p | p in page && p != a && ptr[p].parent == a && !ptr[p].eType.RootPage? ensures p in ptr1 && ptr1[p] == Entry(ptr[p].eType, b) {
      assert PointsTo(page[a], p, ptr[p].eType);
    }
    forall p | p in page && (ptr[p].parent != a || ptr[p].eType.RootPage?) ensures p in ptr1 && ptr1[p] == ptr[p] {
      forall t' ensures !PointsTo(page[a], p, t') {
        if PointsTo(page[a], p, t') { NeverRoot(page[a], p, t'); }
      }
      assert Avoids(page[a], p);
    }
  }

  // ----- runs of moves -----

  ghost predicate Injective(ren: map<nat, nat>) { forall p, q :: p in ren && q in ren && ren[p] == ren[q] ==> p == q }

  ghost predicate Onto(ren: map<nat, nat>, keys: set<nat>) {
    (forall p :: p in ren ==> ren[p] in keys) && (forall q :: q in keys ==> exists p :: p in ren && ren[p] == q)
  }

  /** ren says where each page of the first graph is in the second. */
  ghost predicate Same(page: map<nat, Content>, page': map<nat, Content>, ren: map<nat, nat>) {
    && ren.Keys == page.Keys && Injective(ren) && Onto(ren, page'.Keys)
    && (forall p :: p in page ==> Closed(page[p], ren) && page'[ren[p]] == Through(page[p], ren))
  }

  predicate Closed(c: Content, ren: map<nat, nat>) {
    match c
    case Btree(kids, ovfls, _) => (forall i :: 0 <= i < |kids| ==> kids[i] in ren) && (forall i :: 0 <= i < |ovfls| ==> ovfls[i] in ren)
    case Overflow(next, _) => next != 0 ==> next in ren
  }

  function All(s: seq<nat>, ren: map<nat, nat>): (r: seq<nat>)
    requires forall i :: 0 <= i < |s| ==> s[i] in ren
    ensures |r| == |s|
    ensures forall i :: 0 <= i < |s| ==> r[i] == ren[s[i]]
  {
    seq(|s|, i requires 0 <= i < |s| => ren[s[i]])
  }

  /** The content with every page number renamed. */
  function Through(c: Content, ren: map<nat, nat>): Content
    requires Closed(c, ren)
  {
    match c
    case Btree(kids, ovfls, rest) => Btree(All(kids, ren), All(ovfls, ren), rest)
    case Overflow(next, rest) => Overflow(if next == 0 then 0 else ren[next], rest)
  }

  lemma SameSelf(page: map<nat, Content>, ptr: map<nat, Entry>)
    requires PtrOk(page, ptr)
    ensures Same(page, page, map p | p in page :: p)
  {
    var ren := map p | p in page :: p;
    forall p | p in page ensures Closed(page[p], ren) && page[ren[p]] == Through(page[p], ren) {
      var c := page[p];
      if c.Btree? {
        forall i | 0 <= i < |c.kids| ensures c.kids[i] in ren { assert PointsTo(c, c.kids[i], BtreePage); }
        forall i | 0 <= i < |c.ovfls| ensures c.ovfls[i] in ren { assert PointsTo(c, c.ovfls[i], Overflow1); }
        assert All(c.kids, ren) == c.kids && All(c.ovfls, ren) == c.ovfls;
      } else if c.next != 0 {
        assert PointsTo(c, c.next, Overflow2);
      }
    }
  }

  /** One more move. */
  function Then(ren: map<nat, nat>, a: nat, b: nat): map<nat, nat> { map p | p in ren :: To(a, b, ren[p]) }

  lemma SameThen(page0: map<nat, Content>, page: map<nat, Content>, ren: map<nat, nat>, a: nat, b: nat, ptr: map<nat, Entry>,
                 page': map<nat, Content>, ptr': map<nat, Entry>)
    requires Same(page0, page, ren) && Moves(a, b, page, ptr, page', ptr') && b !in page && 0 !in page && a in page
    ensures Same(page0, page', Then(ren, a, b))
  {
    hide Moves, Renamed, Through, Closed, Onto, Injective, Then;
    MovesKeys(a, b, page, ptr, page', ptr');
    OntoThen(ren, page.Keys, a, b);
    forall p | p in page0 ensures Closed(page0[p], Then(ren, a, b)) && page'[Then(ren, a, b)[p]] == Through(page0[p], Then(ren, a, b)) {
      ThroughThen(page0[p], ren, a, b, page);
      assert ren[p] in page by { OntoInto(ren, page.Keys, p); }
    }
  }

  lemma OntoInto(ren: map<nat, nat>, keys: set<nat>, p: nat)
    requires Onto(ren, keys) && p in ren
    ensures ren[p] in keys
  {
  }

  lemma OntoThen(ren: map<nat, nat>, keys: set<nat>, a: nat, b: nat)
    requires Onto(ren, keys) && Injective(ren) && a in keys && b !in keys
    ensures Then(ren, a, b).Keys == ren.Keys && Onto(Then(ren, a, b), keys - {a} + {b}) && Injective(Then(ren, a, b))
    ensures forall p :: p in ren ==> Then(ren, a, b)[p] == To(a, b, ren[p])
  {
    var ren' := Then(ren, a, b);
    forall q | q in keys - {a} + {b} ensures exists p :: p in ren' && ren'[p] == q {
      var q0 := if q == b then a else q;
      var p :| p in ren && ren[p] == q0;
      assert ren'[p] == q;
    }
  }

  lemma MovesKeys(a: nat, b: nat, page: map<nat, Content>, ptr: map<nat, Entry>, page': map<nat, Content>, ptr': map<nat, Entry>)
    requires Moves(a, b, page, ptr, page', ptr')
    ensures page'.Keys == page.Keys - {a} + {b}
    ensures forall p :: p in page ==> To(a, b, p) in page' && page'[To(a, b, p)] == Renamed(a, b, page[p])
  {
  }

  lemma ThroughThen(c: Content, ren: map<nat, nat>, a: nat, b: nat, page: map<nat, Content>)
    requires Closed(c, ren) && 0 !in page && Onto(ren, page.Keys)
    ensures Closed(c, Then(ren, a, b)) && Renamed(a, b, Through(c, ren)) == Through(c, Then(ren, a, b))
  {
    var ren' := Then(ren, a, b);
    if c.Btree? {
      assert ToAll(a, b, All(c.kids, ren)) == All(c.kids, ren');
      assert ToAll(a, b, All(c.ovfls, ren)) == All(c.ovfls, ren');
    }
  }
}
