/** Foreign keys: a counter for the deferred and one for the immediate constraints follow the rows that are inserted and deleted. */
module FKeys {

  datatype Value = Null | Val(v: int)

  /** A row's table and its rowid. */
  datatype Id = Id(table: nat, rowid: int)

  /** The rowid first, then the columns. */
  type Row = seq<Value>

  /** Column from[i] of a row of table child refers to column to[i] of a row of table parent. */
  datatype FKey = FKey(child: nat, parent: nat, from: seq<nat>, to: seq<nat>, isDeferred: bool)

  type Rows = map<Id, Row>

  // ----- keys and violations -----

  function Column(row: Row, i: nat): Value { if i < |row| then row[i] else Null }

  function KeyOf(row: Row, cols: seq<nat>): seq<Value> {
    seq(|cols|, i requires 0 <= i < |cols| => Column(row, cols[i]))
  }

  /** A key with a NULL in it refers to nothing and is referred to by nothing. */
  predicate Refers(f: FKey, child: Row, parent: Row) {
    Null !in KeyOf(child, f.from) && KeyOf(child, f.from) == KeyOf(parent, f.to)
  }

  predicate HasParent(rows: Rows, f: FKey, child: Row) {
    exists p :: p in rows && p.table == f.parent && Refers(f, child, rows[p])
  }

  predicate Violates(rows: Rows, f: FKey, child: Row) {
    Null !in KeyOf(child, f.from) && !HasParent(rows, f, child)
  }

  /** The constraint, by number, and the child row that violates it. */
  datatype Pair = Pair(k: nat, id: Id)

  ghost predicate InViolation(rows: Rows, fks: seq<FKey>, d: bool, v: Pair) {
    v.k < |fks| && fks[v.k].isDeferred == d && v.id in rows && v.id.table == fks[v.k].child && Violates(rows, fks[v.k], rows[v.id])
  }

  ghost function Count(s: set<Pair>): nat { |s| }

  ghost function Violations(rows: Rows, fks: seq<FKey>, d: bool): set<Pair> {
    set k: nat, id | k < |fks| && id in rows && InViolation(rows, fks, d, Pair(k, id)) :: Pair(k, id)
  }

  lemma InViolations(rows: Rows, fks: seq<FKey>, d: bool, v: Pair)
    ensures v in Violations(rows, fks, d) <==> InViolation(rows, fks, d, v)
  {
    if InViolation(rows, fks, d, v) { assert v == Pair(v.k, v.id); }
  }

  /** Parent keys are unique, and a row starts with its rowid. */
  ghost predicate UniqueParents(rows: Rows, fks: seq<FKey>) {
    forall k: nat, p, q, c: Row ::
      k < |fks| && p in rows && q in rows && p.table == fks[k].parent == q.table && Refers(fks[k], c, rows[p]) && Refers(fks[k], c, rows[q]) ==> p == q
  }

  /** Child rows, other than the row itself, that refer to a row of table t through constraint k. */
  ghost function Children(rows: Rows, fks: seq<FKey>, d: bool, id: Id, row: Row, n: nat): set<Pair> {
    set k: nat, c | k < |fks| && k < n && c in rows && fks[k].isDeferred == d && fks[k].parent == id.table && c.table == fks[k].child && c != id
      && Refers(fks[k], rows[c], row) :: Pair(k, c)
  }

  /** The row's own violations, of the first n constraints. */
  ghost function Own(rows: Rows, fks: seq<FKey>, d: bool, id: Id, n: nat): set<Pair> {
    set k: nat | k < |fks| && k < n && InViolation(rows, fks, d, Pair(k, id)) :: Pair(k, id)
  }

  /** Deleting a row ends its own violations and makes those of the rows that refer to it. */
  lemma AfterDelete(rows: Rows, fks: seq<FKey>, d: bool, id: Id)
    requires id in rows && UniqueParents(rows, fks)
    ensures Violations(rows - {id}, fks, d) == Violations(rows, fks, d) - Own(rows, fks, d, id, |fks|) + Children(rows, fks, d, id, rows[id], |fks|)
    ensures Own(rows, fks, d, id, |fks|) <= Violations(rows, fks, d)
    ensures Violations(rows, fks, d) !! Children(rows, fks, d, id, rows[id], |fks|)
  {
  }

  /** Inserting a row makes its own violations and ends those of the rows that refer to it. */
  lemma AfterInsert(rows: Rows, fks: seq<FKey>, d: bool, id: Id, row: Row)
    requires id !in rows && UniqueParents(rows[id := row], fks)
    ensures var rows' := rows[id := row];
      && Violations(rows', fks, d) == Violations(rows, fks, d) + Own(rows', fks, d, id, |fks|) - Children(rows, fks, d, id, row, |fks|)
      && Violations(rows, fks, d) !! Own(rows', fks, d, id, |fks|)
      && Children(rows, fks, d, id, row, |fks|) <= Violations(rows, fks, d)
  {
  }

  /** The next constraint's part of a row's own violations. */
  lemma OwnNext(rows: Rows, fks: seq<FKey>, d: bool, id: Id, k: nat)
    requires k < |fks|
    ensures Own(rows, fks, d, id, 0) == {}
    ensures Own(rows, fks, d, id, k + 1) == Own(rows, fks, d, id, k) + if InViolation(rows, fks, d, Pair(k, id)) then {Pair(k, id)} else {}
    ensures Pair(k, id) !in Own(rows, fks, d, id, k)
  {
  }

  /** The child rows of one constraint. */
  function ChildRows(rows: Rows, f: FKey, id: Id, row: Row): set<Id> {
    set c | c in rows && c.table == f.child && c != id && Refers(f, rows[c], row)
  }

  lemma ChildrenNext(rows: Rows, fks: seq<FKey>, d: bool, id: Id, row: Row, k: nat)
    requires k < |fks|
    ensures Children(rows, fks, d, id, row, 0) == {}
    ensures var more := set c | c in ChildRows(rows, fks[k], id, row) :: Pair(k, c);
      && Children(rows, fks, d, id, row, k + 1)
         == Children(rows, fks, d, id, row, k) + (if fks[k].isDeferred == d && fks[k].parent == id.table then more else {})
      && more !! Children(rows, fks, d, id, row, k) && |more| == |ChildRows(rows, fks[k], id, row)|
  {
    hide Refers;
    SameSize(ChildRows(rows, fks[k], id, row), k);
  }

  lemma {:induction false} SameSize(s: set<Id>, k: nat)
    ensures |set c | c in s :: Pair(k, c)| == |s|
  {
    if s != {} {
      var x :| x in s;
      SameSize(s - {x}, k);
      assert (set c | c in s :: Pair(k, c)) == (set c | c in s - {x} :: Pair(k, c)) + {Pair(k, x)};
    }
  }

  lemma Disjoint<T>(a: set<T>, b: set<T>)
    requires a !! b
    ensures |a + b| == |a| + |b|
  {
  }

  lemma Minus<T>(a: set<T>, b: set<T>)
    requires b <= a
    ensures |a - b| == |a| - |b|
  {
    assert a == (a - b) + b;
  }

  class Database {
    const fks: seq<FKey>
    var rows: Rows
    var nDeferredCons: int
    var nFkConstraint: int

    function Counter(d: bool): int
      reads this
    {
      if d then nDeferredCons else nFkConstraint
    }

    /** Each counter is the number of violations of its kind. */
    ghost predicate Valid()
      reads this
    {
      && UniqueParents(rows, fks)
      && nDeferredCons == |Violations(rows, fks, true)| && nFkConstraint == |Violations(rows, fks, false)|
    }

    constructor (fks: seq<FKey>)
      ensures Valid() && this.fks == fks && rows == map[]
    {
      this.fks, rows, nDeferredCons, nFkConstraint := fks, map[], 0, 0;
      new;
      assert Violations(rows, fks, true) == {} && Violations(rows, fks, false) == {};
    }

    /** OP_FkCounter. */
    method AddCounter(d: bool, n: int)
      modifies this`nDeferredCons, this`nFkConstraint
      ensures Counter(d) == old(Counter(d)) + n && Counter(!d) == old(Counter(!d))
    {
      if d { nDeferredCons := nDeferredCons + n; } else { nFkConstraint := nFkConstraint + n; }
    }

    /** The part of fkLookupParent before the counter is changed: whether it will be. */
    method LooksBad(f: FKey, id: Id, row: Row, nIncr: int) returns (bad: bool)
      requires nIncr in {-1, 1}
      ensures bad <==> Violates(if nIncr > 0 then rows[id := row] else rows, f, row) && (nIncr < 0 ==> Counter(f.isDeferred) != 0)
      requires f.child == id.table && (nIncr > 0 ==> id !in rows)
    {
      if nIncr < 0 && Counter(f.isDeferred) == 0 { return false; }
      if Null in KeyOf(row, f.from) { return false; }
      if f.parent == f.child && nIncr == 1 && KeyOf(row, f.from) == KeyOf(row, f.to) {
        assert nIncr > 0 ==> id in rows[id := row] && Refers(f, row, rows[id := row][id]);
        return false;
      }
      if HasParent(rows, f, row) {
        var p :| p in rows && p.table == f.parent && Refers(f, row, rows[p]);
        assert nIncr > 0 ==> rows[id := row][p] == rows[p];
        return false;
      }
      bad := true;
    }

    /** fkScanChildren. */
    method ScanChildren(f: FKey, id: Id, row: Row, nIncr: int)
      requires nIncr in {-1, 1} && f.parent == id.table && (id in rows ==> nIncr > 0)
      modifies this`nDeferredCons, this`nFkConstraint
      ensures Counter(!f.isDeferred) == old(Counter(!f.isDeferred))
      ensures Counter(f.isDeferred) == old(Counter(f.isDeferred))
                + if nIncr > 0 then |ChildRows(rows, f, id, row)| else if old(Counter(f.isDeferred)) == 0 then 0 else -|ChildRows(rows, f, id, row)|
    {
      if nIncr < 0 && Counter(f.isDeferred) == 0 { return; }
      var todo := set c | c in rows && c.table == f.child && Refers(f, rows[c], row)
                          && (f.parent == f.child && nIncr > 0 ==> c.rowid != id.rowid);
      assert todo == ChildRows(rows, f, id, row);
      ghost var n := 0;
      while todo != {}
        invariant Counter(!f.isDeferred) == old(Counter(!f.isDeferred))
        invariant Counter(f.isDeferred) == old(Counter(f.isDeferred)) + (if nIncr > 0 then n else -n) && n + |todo| == |ChildRows(rows, f, id, row)|
      {
        var c :| c in todo;
        todo := todo - {c};
        AddCounter(f.isDeferred, nIncr);
        n := n + 1;
      }
    }

    /** Each counter is the size of its set. */
    ghost predicate Counts(s: set<Pair>, t: set<Pair>)
      reads this
    {
      Counter(true) == Count(s) && Counter(false) == Count(t)
    }

    /** sqlite3FkCheck before a row is deleted. */
    method CheckOld(id: Id)
      requires Valid() && id in rows
      modifies this`nDeferredCons, this`nFkConstraint
      ensures Counts(Violations(rows - {id}, fks, true), Violations(rows - {id}, fks, false))
    {
      hide Violations, Own, Children, UniqueParents, InViolation, ChildRows, Violates;
      var row := rows[id];
      AfterDelete(rows, fks, true, id);
      AfterDelete(rows, fks, false, id);
      LoseOwn(id, row);
      GainChildren(id, row, Violations(rows, fks, true) - Own(rows, fks, true, id, |fks|),
                   Violations(rows, fks, false) - Own(rows, fks, false, id, |fks|));
    }

    /** D.1: what the row itself violates is violated no more. */
    method LoseOwn(id: Id, row: Row)
      requires Valid() && id in rows && row == rows[id]
      modifies this`nDeferredCons, this`nFkConstraint
      ensures Counts(Violations(rows, fks, true) - Own(rows, fks, true, id, |fks|), Violations(rows, fks, false) - Own(rows, fks, false, id, |fks|))
    {
      hide Own, UniqueParents, Violates, InViolation, Violations;
      var k := 0;
      OwnNone(rows, fks, id);
      while k < |fks|
        invariant k <= |fks|
        invariant Counts(Violations(rows, fks, true) - Own(rows, fks, true, id, k), Violations(rows, fks, false) - Own(rows, fks, false, id, k))
      {
        OwnFewer(rows, fks, true, id, k);
        OwnFewer(rows, fks, false, id, k);
        if fks[k].child == id.table {
          var bad := LooksBad(fks[k], id, row, -1);
          if bad { AddCounter(fks[k].isDeferred, -1); }
        }
        k := k + 1;
      }
    }

    /** D.2: the rows that refer to the row will have no parent. */
    method GainChildren(id: Id, row: Row, ghost a: set<Pair>, ghost b: set<Pair>)
      requires id in rows && Counts(a, b)
      requires a !! Children(rows, fks, true, id, row, |fks|) && b !! Children(rows, fks, false, id, row, |fks|)
      modifies this`nDeferredCons, this`nFkConstraint
      ensures Counts(a + Children(rows, fks, true, id, row, |fks|), b + Children(rows, fks, false, id, row, |fks|))
    {
      hide Children, ChildRows, Refers, Count;
      var k := 0;
      ChildrenNone(rows, fks, id, row);
      assert a + Children(rows, fks, true, id, row, 0) == a && b + Children(rows, fks, false, id, row, 0) == b;
      while k < |fks|
        invariant k <= |fks|
        invariant Counts(a + Children(rows, fks, true, id, row, k), b + Children(rows, fks, false, id, row, k))
      {
        ChildrenMore(rows, fks, true, id, row, k, a);
        ChildrenMore(rows, fks, false, id, row, k, b);
        if fks[k].parent == id.table {
          ScanChildren(fks[k], id, row, 1);
        }
        k := k + 1;
      }
    }

    /** I.2: the rows that refer to the new row will have a parent.  A statement that inserts a single row leaves the immediate
        constraints out, as none can be violated then. */
    method LoseChildren(id: Id, row: Row, single: bool, ghost a: set<Pair>, ghost b: set<Pair>)
      requires id !in rows && Counts(a, b) && (single ==> b == {})
      requires Children(rows, fks, true, id, row, |fks|) <= a && Children(rows, fks, false, id, row, |fks|) <= b
      modifies this`nDeferredCons, this`nFkConstraint
      ensures Counts(a - Children(rows, fks, true, id, row, |fks|), b - Children(rows, fks, false, id, row, |fks|))
    {
      hide Children, ChildRows, Refers, Count;
      var k := 0;
      ChildrenNone(rows, fks, id, row);
      assert a - Children(rows, fks, true, id, row, 0) == a && b - Children(rows, fks, false, id, row, 0) == b;
      while k < |fks|
        invariant k <= |fks|
        invariant Counts(a - Children(rows, fks, true, id, row, k), b - Children(rows, fks, false, id, row, k))
      {
        ChildrenFewer(rows, fks, true, id, row, k, a);
        ChildrenFewer(rows, fks, false, id, row, k, b);
        if fks[k].parent == id.table && !(single && !fks[k].isDeferred) {
          ScanChildren(fks[k], id, row, -1);
        }
        k := k + 1;
      }
    }

    /** I.1: what the new row violates.  For a statement that inserts a single row an immediate violation ends it at once, at constraint m. */
    method GainOwn(id: Id, row: Row, single: bool, ghost a: set<Pair>, ghost b: set<Pair>) returns (ok: bool, ghost m: nat)
      requires id !in rows && Counts(a, b)
      requires a !! Own(rows[id := row], fks, true, id, |fks|) && b !! Own(rows[id := row], fks, false, id, |fks|)
      modifies this`nDeferredCons, this`nFkConstraint
      ensures ok ==> Counts(a + Own(rows[id := row], fks, true, id, |fks|), b + Own(rows[id := row], fks, false, id, |fks|))
      ensures ok <==> !single || Own(rows[id := row], fks, false, id, |fks|) == {}
      ensures !ok ==> m < |fks| && FirstImmediate(rows[id := row], fks, id, m) && Counts(a + Own(rows[id := row], fks, true, id, m), b)
    {
      hide Own, Violates, InViolation, Count;
      ghost var rows' := rows[id := row];
      var k := 0;
      m := 0;
      OwnNone(rows', fks, id);
      assert a + Own(rows', fks, true, id, 0) == a && b + Own(rows', fks, false, id, 0) == b;
      while k < |fks|
        invariant k <= |fks| && (single ==> Own(rows', fks, false, id, k) == {})
        invariant Counts(a + Own(rows', fks, true, id, k), b + Own(rows', fks, false, id, k))
      {
        OwnMore(rows', fks, true, id, k, a);
        OwnMore(rows', fks, false, id, k, b);
        OwnSeen(rows', fks, id, k);
        if fks[k].child == id.table {
          var bad := LooksBad(fks[k], id, row, 1);
          if bad {
            if !fks[k].isDeferred && single {
              OwnGrow(rows', fks, false, id, k + 1);
              return false, k;
            }
            AddCounter(fks[k].isDeferred, 1);
          }
        }
        k := k + 1;
      }
      ok := true;
    }

    /** sqlite3FkCheck before a row is inserted. */
    method CheckNew(id: Id, row: Row, single: bool) returns (ok: bool, ghost m: nat)
      requires Valid() && id !in rows && UniqueParents(rows[id := row], fks) && (single ==> nFkConstraint == 0)
      modifies this`nDeferredCons, this`nFkConstraint
      ensures ok ==> Counts(Violations(rows[id := row], fks, true), Violations(rows[id := row], fks, false))
      ensures ok <==> !single || Own(rows[id := row], fks, false, id, |fks|) == {}
      ensures !ok ==> m < |fks| && FirstImmediate(rows[id := row], fks, id, m) && nFkConstraint == old(nFkConstraint)
      ensures !ok ==> nDeferredCons == old(nDeferredCons) + |Own(rows[id := row], fks, true, id, m)|
    {
      hide Violations, Own, Children, UniqueParents, InViolation, ChildRows, Violates;
      ghost var rows' := rows[id := row];
      AfterInsert(rows, fks, true, id, row);
      AfterInsert(rows, fks, false, id, row);
      ok, m := GainOwn(id, row, single, Violations(rows, fks, true), Violations(rows, fks, false));
      if ok {
        LoseChildren(id, row, single, Violations(rows, fks, true) + Own(rows', fks, true, id, |fks|),
                     Violations(rows, fks, false) + Own(rows', fks, false, id, |fks|));
      } else {
        OwnGrow(rows', fks, true, id, m);
        Disjoint(Violations(rows, fks, true), Own(rows', fks, true, id, m));
      }
    }

    // ----- statements -----

    method Delete(id: Id)
      requires Valid() && id in rows
      modifies this`rows, this`nDeferredCons, this`nFkConstraint
      ensures Valid() && rows == old(rows) - {id}
    {
      hide Violations;
      CheckOld(id);
      rows := rows - {id};
    }

    /** single: the statement inserts just this row and opens no statement transaction.  When an immediate violation aborts it, at
        constraint m, what it has added to the deferred counter stays. */
    method Insert(id: Id, row: Row, single: bool) returns (ok: bool, ghost m: nat)
      requires Valid() && id !in rows && UniqueParents(rows[id := row], fks) && (single ==> nFkConstraint == 0)
      modifies this`rows, this`nDeferredCons, this`nFkConstraint
      ensures ok <==> !single || Own(old(rows)[id := row], fks, false, id, |fks|) == {}
      ensures ok ==> Valid() && rows == old(rows)[id := row]
      ensures !ok ==> rows == old(rows) && m < |fks| && FirstImmediate(rows[id := row], fks, id, m)
      ensures !ok ==> nDeferredCons == old(nDeferredCons) + |Own(rows[id := row], fks, true, id, m)|
      ensures !ok ==> (Valid() <==> Own(rows[id := row], fks, true, id, m) == {})
    {
      hide Violations, UniqueParents, Own, InViolation;
      ok, m := CheckNew(id, row, single);
      if ok { rows := rows[id := row]; }
    }

    /** The old row is deleted before the new one, perhaps with another rowid, is inserted. */
    method Update(id: Id, id': Id, row: Row)
      requires Valid() && id in rows && id' !in rows - {id} && UniqueParents((rows - {id})[id' := row], fks)
      modifies this`rows, this`nDeferredCons, this`nFkConstraint
      ensures Valid() && rows == (old(rows) - {id})[id' := row]
    {
      Delete(id);
      ghost var m;
      var ok;
      ok, m := Insert(id', row, false);
    }

    /** sqlite3VdbeCheckFk: at the end of a statement for the immediate constraints, at commit for the deferred ones. */
    method CheckFk(deferred: bool) returns (ok: bool)
      requires Valid()
      ensures ok <==> forall k, id :: !InViolation(rows, fks, deferred, Pair(k, id))
    {
      ok := Counter(deferred) <= 0;
      NoViolations(rows, fks, deferred);
    }
  }

  /** Constraint m is the first immediate one the row violates. */
  ghost predicate FirstImmediate(rows: Rows, fks: seq<FKey>, id: Id, m: nat) {
    InViolation(rows, fks, false, Pair(m, id)) && Own(rows, fks, false, id, m) == {}
  }

  lemma OwnGrow(rows: Rows, fks: seq<FKey>, d: bool, id: Id, k: nat)
    requires k <= |fks|
    ensures Own(rows, fks, d, id, k) <= Own(rows, fks, d, id, |fks|)
  {
  }

  /** An aborted INSERT of a single row can leave the deferred counter above zero although nothing is violated: row 1 of table 1 refers,
      deferred, to table 2 and, immediately, to table 3, both empty. */
  lemma AbortLeavesCount()
    ensures var fks := [FKey(1, 2, [1], [1], true), FKey(1, 3, [1], [1], false)];
      var id, row := Id(1, 1), [Val(1), Val(5)];
      var rows: Rows := map[id := row];
      FirstImmediate(rows, fks, id, 1) && Own(rows, fks, true, id, 1) == {Pair(0, id)} && Violations(map[], fks, true) == {}
  {
    var fks := [FKey(1, 2, [1], [1], true), FKey(1, 3, [1], [1], false)];
    var id, row := Id(1, 1), [Val(1), Val(5)];
    var rows: Rows := map[id := row];
    assert KeyOf(row, [1]) == [Val(5)];
    assert forall k: nat :: k < 2 ==> Violates(rows, fks[k], row);
    assert InViolation(rows, fks, true, Pair(0, id)) && InViolation(rows, fks, false, Pair(1, id));
  }

  lemma NoViolations(rows: Rows, fks: seq<FKey>, d: bool)
    ensures |Violations(rows, fks, d)| == 0 <==> forall k, id :: !InViolation(rows, fks, d, Pair(k, id))
  {
    forall k: nat, id ensures Pair(k, id) in Violations(rows, fks, d) <==> InViolation(rows, fks, d, Pair(k, id)) {
      InViolations(rows, fks, d, Pair(k, id));
    }
    if |Violations(rows, fks, d)| != 0 {
      var v :| v in Violations(rows, fks, d);
      assert v == Pair(v.k, v.id);
    }
  }

  lemma ChildrenNone(rows: Rows, fks: seq<FKey>, id: Id, row: Row)
    ensures Children(rows, fks, true, id, row, 0) == Children(rows, fks, false, id, row, 0) == {}
  {
  }

  lemma ChildrenGrow(rows: Rows, fks: seq<FKey>, d: bool, id: Id, row: Row, k: nat)
    requires k <= |fks|
    ensures Children(rows, fks, d, id, row, k) <= Children(rows, fks, d, id, row, |fks|)
  {
  }

  /** The sizes, while the child rows of one constraint after the other are added. */
  lemma ChildrenMore(rows: Rows, fks: seq<FKey>, d: bool, id: Id, row: Row, k: nat, a: set<Pair>)
    requires k < |fks| && a !! Children(rows, fks, d, id, row, |fks|)
    ensures Count(a + Children(rows, fks, d, id, row, k + 1)) == Count(a + Children(rows, fks, d, id, row, k))
              + if fks[k].isDeferred == d && fks[k].parent == id.table then |ChildRows(rows, fks[k], id, row)| else 0
  {
    hide Children, ChildRows;
    ChildrenNext(rows, fks, d, id, row, k);
    ChildrenGrow(rows, fks, d, id, row, k);
    ChildrenGrow(rows, fks, d, id, row, k + 1);
    Disjoint(a, Children(rows, fks, d, id, row, k));
    Disjoint(a, Children(rows, fks, d, id, row, k + 1));
    var more := set c | c in ChildRows(rows, fks[k], id, row) :: Pair(k, c);
    Disjoint(Children(rows, fks, d, id, row, k), more);
  }

  lemma ChildrenFewer(rows: Rows, fks: seq<FKey>, d: bool, id: Id, row: Row, k: nat, a: set<Pair>)
    requires k < |fks| && Children(rows, fks, d, id, row, |fks|) <= a
    ensures Count(a - Children(rows, fks, d, id, row, k + 1)) == Count(a - Children(rows, fks, d, id, row, k))
              - if fks[k].isDeferred == d && fks[k].parent == id.table then |ChildRows(rows, fks[k], id, row)| else 0
    ensures a == {} && fks[k].isDeferred == d && fks[k].parent == id.table ==> |ChildRows(rows, fks[k], id, row)| == 0
  {
    hide Children, ChildRows;
    ChildrenNext(rows, fks, d, id, row, k);
    ChildrenGrow(rows, fks, d, id, row, k);
    ChildrenGrow(rows, fks, d, id, row, k + 1);
    Minus(a, Children(rows, fks, d, id, row, k));
    Minus(a, Children(rows, fks, d, id, row, k + 1));
    var more := set c | c in ChildRows(rows, fks[k], id, row) :: Pair(k, c);
    Disjoint(Children(rows, fks, d, id, row, k), more);
  }

  /** The sizes, while one violation of the row's own after the other is dropped; a size of 0 means that there is nothing to drop. */
  lemma OwnFewer(rows: Rows, fks: seq<FKey>, d: bool, id: Id, k: nat)
    requires k < |fks| && id in rows
    ensures var bad := fks[k].isDeferred == d && fks[k].child == id.table && Violates(rows, fks[k], rows[id]);
      && Count(Violations(rows, fks, d) - Own(rows, fks, d, id, k + 1)) == Count(Violations(rows, fks, d) - Own(rows, fks, d, id, k)) - (if bad then 1 else 0)
      && (Count(Violations(rows, fks, d) - Own(rows, fks, d, id, k)) == 0 ==> !bad)
  {
    hide Violations, Own, Violates;
    var v := Pair(k, id);
    OwnNext(rows, fks, d, id, k);
    InViolations(rows, fks, d, v);
    OneLess(Violations(rows, fks, d), Own(rows, fks, d, id, k), v);
  }

  /** Whether a violation of the row's own is immediate. */
  lemma OwnSeen(rows: Rows, fks: seq<FKey>, id: Id, k: nat)
    requires k < |fks| && id in rows
    ensures var bad := !fks[k].isDeferred && fks[k].child == id.table && Violates(rows, fks[k], rows[id]);
      && (bad <==> InViolation(rows, fks, false, Pair(k, id)))
      && (bad ==> Own(rows, fks, false, id, k + 1) != {})
      && (!bad ==> Own(rows, fks, false, id, k + 1) == Own(rows, fks, false, id, k))
  {
    OwnNext(rows, fks, false, id, k);
    if InViolation(rows, fks, false, Pair(k, id)) { assert Pair(k, id) in Own(rows, fks, false, id, k + 1); }
  }

  lemma OwnMore(rows: Rows, fks: seq<FKey>, d: bool, id: Id, k: nat, a: set<Pair>)
    requires k < |fks| && a !! Own(rows, fks, d, id, |fks|)
    requires id in rows
    ensures Count(a + Own(rows, fks, d, id, k + 1)) == Count(a + Own(rows, fks, d, id, k))
              + if fks[k].isDeferred == d && fks[k].child == id.table && Violates(rows, fks[k], rows[id]) then 1 else 0
  {
    OwnNext(rows, fks, d, id, k);
    var v := Pair(k, id);
    if InViolation(rows, fks, d, v) {
      assert v in Own(rows, fks, d, id, |fks|);
      assert a + Own(rows, fks, d, id, k + 1) == (a + Own(rows, fks, d, id, k)) + {v};
    }
  }

  lemma OwnNone(rows: Rows, fks: seq<FKey>, id: Id)
    ensures Own(rows, fks, true, id, 0) == Own(rows, fks, false, id, 0) == {}
  {
  }

  lemma OneLess<T>(a: set<T>, b: set<T>, v: T)
    requires v !in b
    ensures |a - (b + {v})| == |a - b| - (if v in a then 1 else 0)
    ensures a - (b + {}) == a - b
    ensures |a - b| == 0 ==> v !in a
  {
    if v in a {
      assert v in a - b;
      assert a - (b + {v}) == (a - b) - {v};
    } else {
      assert a - (b + {v}) == a - b;
    }
  }
}