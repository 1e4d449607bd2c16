/** The pages of one b-tree, nested by value: a page holds its cells in order and, unless it is a leaf,
    one child more than it has cells.  Reading a tree from left to right gives its Walk. */
module BtreeNode {

  /** Keys are only ever compared.  The keys of an index are byte strings under some collating order, those
      of a table are 64-bit integers; every countable total order embeds in the reals. */
  type Key = real

  type Data = seq<bv8>

  /** A table tree keeps all entries on its leaves and bare keys on interior pages; an index tree keeps entries
      on every page. */
  datatype Kind = Table | Index

  /** `body` is the number of bytes the cell takes on its page without the 4-byte child pointer, `keyLen` the length
      of the key written as a varint. */
  datatype Cell = Cell(key: Key, keyLen: nat, body: nat, data: Data)

  /** One step of an in-order walk: an entry of the tree, or the key that divides two children of a table page. */
  datatype Item = Ent(cell: Cell) | Div(cell: Cell)

  /** Cells ovAt .. ovAt+nOv of an overfull page do not fit on the page and are carried on the side; `lost` bytes of the page are
      taken by nothing and yet not free. */
  datatype Node = Node(pgno: nat, leaf: bool, cells: seq<Cell>, kids: seq<Node>, ovAt: nat, nOv: nat, lost: nat)

  // ----- in-order walks -----

  function Ents(cells: seq<Cell>): (r: seq<Item>)
    ensures |r| == |cells|
    ensures forall i :: 0 <= i < |r| ==> r[i] == Ent(cells[i])
  {
    seq(|cells|, i requires 0 <= i < |cells| => Ent(cells[i]))
  }

  function Mid(kind: Kind, c: Cell): Item {
    if kind.Index? then Ent(c) else Div(c)
  }

  /** parts[0], cells[0], parts[1], cells[1], ... */
  function Weave(kind: Kind, cells: seq<Cell>, parts: seq<seq<Item>>): seq<Item> {
    if |parts| == 0 then []
    else if |parts| == 1 || |cells| == 0 then parts[0]
    else parts[0] + [Mid(kind, cells[0])] + Weave(kind, cells[1..], parts[1..])
  }

  function Walk(kind: Kind, n: Node): seq<Item> {
    if n.leaf then Ents(n.cells) else Weave(kind, n.cells, Walks(kind, n.kids))
  }

  function Walks(kind: Kind, kids: seq<Node>): (r: seq<seq<Item>>)
    ensures |r| == |kids|
    ensures forall i :: 0 <= i < |kids| ==> r[i] == Walk(kind, kids[i])
  {
    if kids == [] then [] else [Walk(kind, kids[0])] + Walks(kind, kids[1..])
  }

  lemma WalksAppend(kind: Kind, a: seq<Node>, b: seq<Node>)
    ensures Walks(kind, a + b) == Walks(kind, a) + Walks(kind, b)
  {
  }

  lemma {:induction false} WeaveAppend(kind: Kind, a: seq<Cell>, pa: seq<seq<Item>>, c: Cell, b: seq<Cell>, pb: seq<seq<Item>>)
    requires |pa| == |a| + 1 && |pb| == |b| + 1
    ensures Weave(kind, a + [c] + b, pa + pb) == Weave(kind, a, pa) + [Mid(kind, c)] + Weave(kind, b, pb)
    decreases |a|
  {
    if a == [] {
      assert (a + [c] + b)[1..] == b;
      assert (pa + pb)[1..] == pb;
    } else {
      WeaveAppend(kind, a[1..], pa[1..], c, b, pb);
      assert (a + [c] + b)[1..] == a[1..] + [c] + b;
      assert (pa + pb)[1..] == pa[1..] + pb;
    }
  }

  /** The children and dividers to the left of child number |a|. */
  function WeaveLeft(kind: Kind, a: seq<Cell>, pa: seq<seq<Item>>): seq<Item> {
    if a == [] then [] else Weave(kind, a[..|a| - 1], pa) + [Mid(kind, a[|a| - 1])]
  }

  function WeaveRight(kind: Kind, b: seq<Cell>, pb: seq<seq<Item>>): seq<Item> {
    if b == [] then [] else [Mid(kind, b[0])] + Weave(kind, b[1..], pb)
  }

  lemma Assoc<T>(a: seq<T>, b: seq<T>, c: seq<T>)
    ensures a + b + c == a + (b + c)
  {
  }

  /** A run of children, and the dividers between them, is a run of the walk. */
  lemma {:induction false} WeaveMiddle(kind: Kind, a: seq<Cell>, pa: seq<seq<Item>>, d: seq<Cell>, pd: seq<seq<Item>>,
                                       b: seq<Cell>, pb: seq<seq<Item>>)
    requires |pa| == |a| && |pd| == |d| + 1 && |pb| == |b|
    ensures Weave(kind, a + d + b, pa + pd + pb) == WeaveLeft(kind, a, pa) + Weave(kind, d, pd) + WeaveRight(kind, b, pb)
  {
    WeaveTail(kind, d, pd, b, pb);
    Assoc(a, d, b);
    Assoc(pa, pd, pb);
    Assoc(WeaveLeft(kind, a, pa), Weave(kind, d, pd), WeaveRight(kind, b, pb));
    WeaveHead(kind, a, pa, d + b, pd + pb);
  }

  lemma {:induction false} WeaveHead(kind: Kind, a: seq<Cell>, pa: seq<seq<Item>>, d: seq<Cell>, pd: seq<seq<Item>>)
    requires |pa| == |a| && |pd| == |d| + 1
    ensures Weave(kind, a + d, pa + pd) == WeaveLeft(kind, a, pa) + Weave(kind, d, pd)
  {
    if a == [] {
      assert a + d == d && pa + pd == pd;
    } else {
      WeaveAppend(kind, a[..|a| - 1], pa, a[|a| - 1], d, pd);
      assert a + d == a[..|a| - 1] + [a[|a| - 1]] + d;
    }
  }

  lemma {:induction false} WeaveTail(kind: Kind, d: seq<Cell>, pd: seq<seq<Item>>, b: seq<Cell>, pb: seq<seq<Item>>)
    requires |pd| == |d| + 1 && |pb| == |b|
    ensures Weave(kind, d + b, pd + pb) == Weave(kind, d, pd) + WeaveRight(kind, b, pb)
  {
    if b == [] {
      assert d + b == d && pd + pb == pd;
    } else {
      WeaveAppend(kind, d, pd, b[0], b[1..], pb);
      assert d + b == d + [b[0]] + b[1..];
    }
  }

  // ----- order -----

  /** Left of a divider lie the keys up to and including its own, right of it the larger ones. */
  predicate Before(x: Item, y: Item) {
    x.cell.key < y.cell.key || (x.cell.key == y.cell.key && x.Ent? && y.Div?)
  }

  ghost predicate Sorted(w: seq<Item>) {
    forall i, j :: 0 <= i < j < |w| ==> Before(w[i], w[j])
  }

  ghost predicate AllBefore(a: seq<Item>, b: seq<Item>) {
    forall i, j :: 0 <= i < |a| && 0 <= j < |b| ==> Before(a[i], b[j])
  }

  lemma SortedConcat(a: seq<Item>, b: seq<Item>)
    ensures Sorted(a + b) <==> Sorted(a) && Sorted(b) && AllBefore(a, b)
  {
    var w := a + b;
    if Sorted(w) {
      forall i, j | 0 <= i < j < |a| ensures Before(a[i], a[j]) { assert w[i] == a[i] && w[j] == a[j]; }
      forall i, j | 0 <= i < j < |b| ensures Before(b[i], b[j]) { assert w[|a| + i] == b[i] && w[|a| + j] == b[j]; }
      forall i, j | 0 <= i < |a| && 0 <= j < |b| ensures Before(a[i], b[j]) { assert w[i] == a[i] && w[|a| + j] == b[j]; }
    }
  }

  // ----- the entries of a walk -----

  function Entries(w: seq<Item>): seq<Cell> {
    if w == [] then []
    else Entries(w[..|w| - 1]) + if w[|w| - 1].Ent? then [w[|w| - 1].cell] else []
  }

  lemma {:induction false} EntriesAppend(a: seq<Item>, b: seq<Item>)
    ensures Entries(a + b) == Entries(a) + Entries(b)
    decreases |b|
  {
    if b == [] {
      assert a + b == a;
    } else {
      EntriesAppend(a, b[..|b| - 1]);
      assert (a + b)[..|a + b| - 1] == a + b[..|b| - 1];
    }
  }

  lemma {:induction false} EntriesOfEnts(cells: seq<Cell>)
    ensures Entries(Ents(cells)) == cells
    decreases |cells|
  {
    if cells != [] {
      var front := cells[..|cells| - 1];
      EntriesOfEnts(front);
      assert Ents(cells)[..|cells| - 1] == Ents(front);
      assert cells == front + [cells[|cells| - 1]];
    }
  }

  /** What a tree stores, as a map. */
  function MapOf(cells: seq<Cell>): map<Key, Data> {
    if cells == [] then map[]
    else MapOf(cells[..|cells| - 1])[cells[|cells| - 1].key := cells[|cells| - 1].data]
  }

  /** A walk whose dividers each repeat the key of the entry on their left, with a further entry on their right. */
  ghost predicate Backed(w: seq<Item>) {
    && (w != [] ==> w[|w| - 1].Ent?)
    && forall i :: 0 <= i < |w| && w[i].Div? ==> 0 < i && w[i - 1].Ent? && w[i - 1].cell.key == w[i].cell.key
  }

  ghost predicate Increasing(e: seq<Cell>) {
    forall i, j :: 0 <= i < j < |e| ==> e[i].key < e[j].key
  }

  /** The i-th item of a walk, when it is an entry, is entry number |Entries(w[..i])|. */
  lemma {:induction false} EntryAt(w: seq<Item>, i: nat)
    requires i < |w| && w[i].Ent?
    ensures |Entries(w[..i])| < |Entries(w)| && Entries(w)[|Entries(w[..i])|] == w[i].cell
  {
    EntriesAppend(w[..i + 1], w[i + 1..]);
    assert w[..i + 1] + w[i + 1..] == w;
    assert w[..i + 1][..i] == w[..i];
  }

  lemma {:induction false} EntryIndexGrows(w: seq<Item>, i: nat, j: nat)
    requires i < j <= |w| && w[i].Ent?
    ensures |Entries(w[..i])| < |Entries(w[..j])|
  {
    EntryAt(w[..j], i);
    assert w[..j][..i] == w[..i];
  }

  lemma {:induction false} EntryOrigin(w: seq<Item>, k: nat) returns (i: nat)
    requires k < |Entries(w)|
    ensures i < |w| && w[i] == Ent(Entries(w)[k]) && |Entries(w[..i])| == k
    decreases |w|
  {
    var front := w[..|w| - 1];
    if k < |Entries(front)| {
      i := EntryOrigin(front, k);
      assert front[..i] == w[..i];
    } else {
      i := |w| - 1;
    }
  }

  lemma SortedEntries(w: seq<Item>)
    requires Sorted(w)
    ensures Increasing(Entries(w))
  {
    var e := Entries(w);
    forall a, b | 0 <= a < b < |e| ensures e[a].key < e[b].key {
      var i := EntryOrigin(w, a);
      var j := EntryOrigin(w, b);
      if j < i { EntryIndexGrows(w, j, i); }
      assert i != j;
      assert Before(w[i], w[j]);
    }
  }

  lemma EntPairInOrder(v: seq<Item>, i: nat, j: nat)
    requires Increasing(Entries(v)) && i < j < |v| && v[i].Ent? && v[j].Ent?
    ensures v[i].cell.key < v[j].cell.key
  {
    EntryAt(v, i);
    EntryAt(v, j);
    EntryIndexGrows(v, i, j);
  }

  lemma BackedSorted(v: seq<Item>)
    requires Backed(v) && Increasing(Entries(v))
    ensures Sorted(v)
  {
    forall i, j | 0 <= i < j < |v| ensures Before(v[i], v[j]) {
      var i', j' := if v[i].Ent? then i else i - 1, if v[j].Ent? then j else j - 1;
      if i' < j' { EntPairInOrder(v, i', j'); }
    }
  }

  /** Re-dividing a stretch of a sorted table walk keeps it sorted. */
  lemma RedivideSorted(p: seq<Item>, w: seq<Item>, v: seq<Item>, q: seq<Item>)
    requires Sorted(p + w + q) && Entries(w) == Entries(v) && Backed(v)
    ensures Sorted(p + v + q)
  {
    SortedConcat(p + w, q);
    SortedConcat(p, w);
    SortedEntries(w);
    BackedSorted(v);
    forall i, j | 0 <= i < |p| && 0 <= j < |v| ensures Before(p[i], v[j]) {
      var j' := if v[j].Ent? then j else j - 1;
      EntryAt(v, j');
      var k := EntryOrigin(w, |Entries(v[..j'])|);
      assert Before(p[i], w[k]);
    }
    SortedConcat(p, v);
    forall i, j | 0 <= i < |p + v| && 0 <= j < |q| ensures Before((p + v)[i], q[j]) {
      if i < |p| {
        assert (p + w)[i] == p[i];
        assert Before((p + w)[i], q[j]);
      } else {
        var a := i - |p|;
        var a' := if v[a].Ent? then a else |v| - 1;
        EntryAt(v, a');
        var k := EntryOrigin(w, |Entries(v[..a'])|);
        assert (p + w)[|p| + k] == w[k];
        assert Before((p + w)[|p| + k], q[j]);
        if v[a].Div? { assert Before(v[a], v[a']); }
      }
    }
    SortedConcat(p + v, q);
  }

  function Around(p: seq<Item>, w: seq<Item>, q: seq<Item>): seq<Item> { p + w + q }

  /** The same walk, or one in which a stretch of a table's leaves has been divided anew. */
  ghost predicate Redivided(kind: Kind, a: seq<Item>, b: seq<Item>) {
    a == b ||
    (kind.Table? && exists p, w, v, q :: a == Around(p, w, q) && b == Around(p, v, q) && Entries(w) == Entries(v) && Backed(v))
  }

  lemma EntriesAround(p: seq<Item>, w: seq<Item>, q: seq<Item>)
    ensures Entries(p + w + q) == Entries(p) + Entries(w) + Entries(q)
  {
    EntriesAppend(p + w, q);
    EntriesAppend(p, w);
  }

  lemma AssocAround(a: seq<Item>, p: seq<Item>, w: seq<Item>, q: seq<Item>, b: seq<Item>)
    ensures a + Around(p, w, q) + b == Around(a + p, w, q + b)
  {
  }

  /** Dividing a part of a tree anew keeps the entries and the order of the whole. */
  lemma RedividedWithin(kind: Kind, pre: seq<Item>, a: seq<Item>, b: seq<Item>, post: seq<Item>)
    requires Redivided(kind, a, b)
    ensures Redivided(kind, pre + a + post, pre + b + post)
    ensures Entries(pre + a + post) == Entries(pre + b + post)
    ensures Sorted(pre + a + post) ==> Sorted(pre + b + post)
  {
    if a != b {
      var p, w, v, q :| a == Around(p, w, q) && b == Around(p, v, q) && Entries(w) == Entries(v) && Backed(v);
      AssocAround(pre, p, w, q, post);
      AssocAround(pre, p, v, q, post);
      EntriesAround(pre + p, w, q + post);
      EntriesAround(pre + p, v, q + post);
      if Sorted(pre + a + post) { RedivideSorted(pre + p, w, v, q + post); }
    }
  }
}
