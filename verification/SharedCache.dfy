/** Transactions and table locks of the connections that share one b-tree. */
module SharedCache {

  const NONE: nat := 0
  const READ: nat := 1
  const WRITE: nat := 2

  /** p: the handle that holds the lock; level: READ or WRITE. */
  datatype Lock = Lock(p: nat, iTable: nat, level: nat)

  datatype Rc = OK | LOCKED | READONLY | BUSY

  // ----- the list of locks -----

  ghost predicate Distinct(locks: seq<Lock>) {
    forall i, j :: 0 <= i < j < |locks| ==> locks[i].p != locks[j].p || locks[i].iTable != locks[j].iTable
  }

  predicate Conflict(a: Lock, b: Lock) {
    a.p != b.p && a.iTable == b.iTable && (a.level == WRITE || b.level == WRITE)
  }

  ghost predicate Compatible(locks: seq<Lock>, l: Lock) {
    forall k :: k in locks ==> !Conflict(k, l)
  }

  function Others(locks: seq<Lock>, p: nat): (r: seq<Lock>)
    ensures forall l :: l in r <==> l in locks && l.p != p
  {
    if locks == [] then []
    else
      var rest := Others(locks[..|locks| - 1], p);
      var last := locks[|locks| - 1];
      assert locks == locks[..|locks| - 1] + [last];
      if last.p == p then rest else rest + [last]
  }

  lemma {:induction false} OthersDistinct(locks: seq<Lock>, p: nat)
    requires Distinct(locks)
    ensures Distinct(Others(locks, p))
  {
    if locks != [] {
      var init, last := locks[..|locks| - 1], locks[|locks| - 1];
      OthersDistinct(init, p);
      var r := Others(init, p);
      forall i | 0 <= i < |r| ensures r[i].p != last.p || r[i].iTable != last.iTable {
        assert r[i] in init;
      }
    }
  }

  function AllRead(locks: seq<Lock>): (r: seq<Lock>)
    ensures |r| == |locks| && forall i :: 0 <= i < |r| ==> r[i] == locks[i].(level := READ)
  {
    seq(|locks|, i requires 0 <= i < |locks| => locks[i].(level := READ))
  }

  /** The list with the lock of l's handle on l's table raised to l, or with l put first. */
  function WithLock(locks: seq<Lock>, l: Lock): (r: seq<Lock>)
    ensures l.level > 0 ==> exists k :: k in r && k.p == l.p && k.iTable == l.iTable && k.level >= l.level
  {
    var i := Find(locks, l.p, l.iTable);
    if i == |locks| then var r := [l] + locks; assert r[0] == l; r
    else if l.level > locks[i].level then var r := locks[i := l]; assert r[i] == l; r
    else assert locks[i] in locks; locks
  }

  /** The first lock of p on a table. */
  function Find(locks: seq<Lock>, p: nat, iTable: nat): (i: nat)
    ensures i <= |locks|
    ensures i < |locks| ==> locks[i].p == p && locks[i].iTable == iTable
    ensures forall j :: 0 <= j < i ==> locks[j].p != p || locks[j].iTable != iTable
  {
    if locks == [] || (locks[0].p == p && locks[0].iTable == iTable) then 0 else 1 + Find(locks[1..], p, iTable)
  }

  /** Every lock is an old one or the new one; every old one is there, at no lower a level. */
  lemma WithLockIn(locks: seq<Lock>, l: Lock)
    requires Distinct(locks)
    ensures Distinct(WithLock(locks, l))
    ensures forall k :: k in WithLock(locks, l) ==> k in locks || k == l
    ensures forall k :: k in locks ==> k in WithLock(locks, l) || (k.p == l.p && k.iTable == l.iTable && k.level < l.level && l in WithLock(locks, l))
  {
    var i := Find(locks, l.p, l.iTable);
    if i < |locks| && l.level > locks[i].level {
      var r := locks[i := l];
      assert r[i] == l;
      forall k | k in locks ensures k in r || k == locks[i] {
        var j :| 0 <= j < |locks| && locks[j] == k;
        if j != i { assert r[j] == k; }
      }
    }
  }

  // ----- handles -----

  function Open(inTrans: map<nat, nat>): set<nat> {
    set p | p in inTrans && inTrans[p] > NONE
  }

  lemma OpenAdd(t: map<nat, nat>, p: nat, v: nat)
    requires v > NONE
    ensures Open(t[p := v]) == Open(t) + {p}
    ensures p in Open(t) ==> |Open(t[p := v])| == |Open(t)|
    ensures p !in Open(t) ==> |Open(t[p := v])| == |Open(t)| + 1
  {
    assert Open(t[p := v]) == Open(t) + {p};
    if p in Open(t) { assert Open(t) + {p} == Open(t); }
  }

  lemma OpenDrop(t: map<nat, nat>, p: nat)
    requires p in t && t[p] > NONE
    ensures Open(t[p := NONE]) == Open(t) - {p} && |Open(t[p := NONE])| == |Open(t)| - 1
  {
    assert Open(t[p := NONE]) == Open(t) - {p};
  }

  lemma TwoOpen(s: set<nat>, a: nat, b: nat)
    requires a in s && b in s && a != b
    ensures |s| >= 2 && (|s| == 2 ==> s == {a, b})
  {
    var r := s - {a, b};
    assert s == r + {a, b};
    if |s| == 2 { assert |r| == 0; }
  }

  lemma SomeOther(s: set<nat>, a: nat, b: nat) returns (c: nat)
    requires a in s && b in s && a != b && |s| > 2
    ensures c in s && c != a && c != b
  {
    var r := s - {a, b};
    assert s == r + {a, b};
    assert |s| <= |r| + |{a, b}|;
    c :| c in r;
  }

  datatype Writer = Null | Handle(p: nat)

  // ----- what holds between calls -----

  /** At most one handle has a write transaction open: pWriter. */
  ghost predicate OneWriter(t: map<nat, nat>, w: Writer) {
    && (forall p :: p in t ==> t[p] <= WRITE && (t[p] == WRITE ==> w == Handle(p)))
    && (w.Handle? ==> w.p in t && t[w.p] == WRITE)
  }

  ghost predicate HasLock(locks: seq<Lock>, p: nat, iTable: nat, level: nat) {
    exists l :: l in locks && l.p == p && l.iTable == iTable && l.level >= level
  }

  /** Locks belong to open transactions of at least their level, agree with each other, and every open transaction locks table 1. */
  ghost predicate LocksOk(sharable: bool, t: map<nat, nat>, locks: seq<Lock>) {
    && Distinct(locks)
    && (forall l :: l in locks ==> l.p in t && READ <= l.level <= t[l.p])
    && (forall a, b :: a in locks && b in locks ==> !Conflict(a, b))
    && (if sharable then forall p :: p in Open(t) ==> HasLock(locks, p, 1, READ) else locks == [] && forall p, q :: p in t && q in t ==> p == q)
  }

  /** An exclusive writer is alone; a pending writer is not. */
  ghost predicate FlagsOk(t: map<nat, nat>, w: Writer, exclusive: bool, pending: bool) {
    && (w.Null? ==> !exclusive && !pending)
    && (exclusive ==> forall p :: p in Open(t) ==> w == Handle(p))
    && (pending ==> exists p :: p in Open(t) && w != Handle(p))
  }

  ghost predicate CountsOk(t: map<nat, nat>, w: Writer, nTransaction: nat, inTransaction: nat) {
    nTransaction == |Open(t)| && inTransaction == if Open(t) == {} then NONE else if w.Handle? then WRITE else READ
  }

  ghost predicate State(sharable: bool, t: map<nat, nat>, locks: seq<Lock>, w: Writer, exclusive: bool, pending: bool, nTransaction: nat, inTransaction: nat) {
    OneWriter(t, w) && LocksOk(sharable, t, locks) && FlagsOk(t, w, exclusive, pending) && CountsOk(t, w, nTransaction, inTransaction)
  }

  lemma EmptyState(sharable: bool)
    ensures State(sharable, map[], [], Null, false, false, 0, NONE)
  {
    assert Open(map[]) == {};
  }

  /** The end of p's transaction: the locks of all others stay; p loses its own, or reads where it held one. */
  ghost predicate LocksLeft(was: seq<Lock>, now: seq<Lock>, p: nat, reading: bool) {
    && (forall l: Lock :: l.p != p ==> (l in now <==> l in was))
    && (!reading ==> forall l :: l in now ==> l.p != p)
    && (reading ==> forall t: nat :: HasLock(now, p, t, READ) <==> HasLock(was, p, t, READ))
    && (reading ==> forall l :: l in now && l.p == p ==> l.level <= READ)
  }

  class BtShared {
    const sharable: bool

    /** The transaction each handle has open. */
    var inTrans: map<nat, nat>
    var pLock: seq<Lock>
    var pWriter: Writer
    var exclusive: bool
    var pending: bool
    var nTransaction: nat
    var inTransaction: nat

    ghost predicate Valid()
      reads this
    {
      State(sharable, inTrans, pLock, pWriter, exclusive, pending, nTransaction, inTransaction)
    }

    /** p may lock iTable at this level. */
    ghost predicate MayLock(p: nat, iTable: nat, level: nat)
      reads this
    {
      !sharable || ((exclusive ==> pWriter == Handle(p)) && Compatible(pLock, Lock(p, iTable, level)))
    }

    constructor (sharable: bool)
      ensures Valid() && this.sharable == sharable && inTrans == map[]
    {
      hide State;
      EmptyState(sharable);
      this.sharable := sharable;
      inTrans, pLock, pWriter, exclusive, pending, nTransaction, inTransaction := map[], [], Null, false, false, 0, NONE;
    }

    /** querySharedCacheTableLock.  The loop looks only for locks of the other level; as there is one writer at most, that finds every conflict. */
    method QueryLock(p: nat, iTab: nat, level: nat) returns (rc: Rc)
      requires Valid() && p in inTrans && level in {READ, WRITE} && (level == WRITE ==> pWriter == Handle(p))
      modifies this`pending
      ensures Valid() && rc == (if MayLock(p, iTab, level) then OK else LOCKED)
      ensures pending == (old(pending) || (rc == LOCKED && level == WRITE))
    {
      if !sharable { return OK; }
      if pWriter != Handle(p) && exclusive { return LOCKED; }
      var i := 0;
      while i < |pLock|
        invariant i <= |pLock| && pending == old(pending)
        invariant forall k :: 0 <= k < i ==> !Conflict(pLock[k], Lock(p, iTab, level))
      {
        var lock := pLock[i];
        assert lock in pLock;
        if lock.p != p && lock.iTable == iTab && lock.level != level {
          assert Conflict(lock, Lock(p, iTab, level));
          if level == WRITE {
            assert lock.p in Open(inTrans) && pWriter != Handle(lock.p);
            pending := true;
          }
          return LOCKED;
        }
        i := i + 1;
      }
      rc := OK;
    }

    /** setSharedCacheTableLock. */
    method SetLock(p: nat, iTable: nat, level: nat)
      requires Valid() && sharable && p in inTrans && READ <= level <= inTrans[p] && MayLock(p, iTable, level)
      modifies this`pLock
      ensures Valid() && pLock == WithLock(old(pLock), Lock(p, iTable, level))
    {
      hide OneWriter, FlagsOk, CountsOk, WithLock, Find, Open;
      ghost var was := pLock;
      var i := 0;
      while i < |pLock| && (pLock[i].iTable != iTable || pLock[i].p != p)
        invariant i <= |pLock| && pLock == was
        invariant forall j :: 0 <= j < i ==> pLock[j].p != p || pLock[j].iTable != iTable
      {
        i := i + 1;
      }
      FoundAt(pLock, p, iTable, i);
      WithLockSteps(pLock, Lock(p, iTable, level), i);
      if i == |pLock| {
        pLock := [Lock(p, iTable, 0)] + pLock;
        i := 0;
      }
      if level > pLock[i].level {
        pLock := pLock[i := pLock[i].(level := level)];
      }
      LockAdded(was, sharable, inTrans, Lock(p, iTable, level));
    }

    /** sqlite3BtreeLockTable. */
    method LockTable(p: nat, iTab: nat, isWriteLock: bool) returns (rc: Rc)
      requires Valid() && p in inTrans && inTrans[p] != NONE && (isWriteLock ==> pWriter == Handle(p))
      modifies this`pending, this`pLock
      ensures Valid() && rc == (if old(MayLock(p, iTab, if isWriteLock then WRITE else READ)) then OK else LOCKED)
      ensures rc == OK && sharable ==> HasLock(pLock, p, iTab, if isWriteLock then WRITE else READ)
      ensures rc != OK || !sharable ==> pLock == old(pLock)
    {
      rc := OK;
      if sharable {
        var lockType := if isWriteLock then WRITE else READ;
        rc := QueryLock(p, iTab, lockType);
        if rc == OK {
          SetLock(p, iTab, lockType);
        }
      }
    }

    /** clearAllSharedCacheTableLocks. */
    method ClearLocks(p: nat)
      requires Distinct(pLock)
      modifies this`pLock, this`pWriter, this`exclusive, this`pending
      ensures pLock == Others(old(pLock), p)
      ensures pWriter == (if old(pWriter) == Handle(p) then Null else old(pWriter))
      ensures exclusive == (old(exclusive) && old(pWriter) != Handle(p))
      ensures pending == (old(pending) && old(pWriter) != Handle(p) && nTransaction != 2)
    {
      hide Others, Clearing;
      ghost var was := pLock;
      ghost var n := 0;
      var i := 0;
      ClearingStart(was, p);
      while i < |pLock|
        invariant Clearing(was, n, p, pLock, i) && pWriter == old(pWriter) && exclusive == old(exclusive) && pending == old(pending)
        decreases |pLock| - i
      {
        ClearingStep(was, n, p, pLock, i);
        if pLock[i].p == p {
          pLock := pLock[..i] + pLock[i + 1..];
        } else {
          i := i + 1;
        }
        n := n + 1;
      }
      ClearingEnd(was, n, p, pLock, i);
      if pWriter == Handle(p) {
        pWriter, exclusive, pending := Null, false, false;
      } else if nTransaction == 2 {
        pending := false;
      }
    }

    /** downgradeAllSharedCacheTableLocks. */
    method DowngradeLocks(p: nat)
      modifies this`pLock, this`pWriter, this`exclusive, this`pending
      ensures old(pWriter) == Handle(p) ==> pLock == AllRead(old(pLock)) && pWriter == Null && !exclusive && !pending
      ensures old(pWriter) != Handle(p) ==> pLock == old(pLock) && pWriter == old(pWriter) && exclusive == old(exclusive) && pending == old(pending)
    {
      if pWriter == Handle(p) {
        pWriter, exclusive, pending := Null, false, false;
        var i := 0;
        while i < |pLock|
          invariant i <= |pLock| == |old(pLock)| && pWriter == Null && !exclusive && !pending
          invariant forall k :: 0 <= k < |pLock| ==> pLock[k] == if k < i then old(pLock)[k].(level := READ) else old(pLock)[k]
        {
          pLock := pLock[i := pLock[i].(level := READ)];
          i := i + 1;
        }
      }
    }

    /** The state in which btreeEndTransaction is called for p: a writer has already lowered inTransaction. */
    ghost predicate Ending(p: nat)
      reads this
    {
      && p in inTrans
      && OneWriter(inTrans, pWriter) && LocksOk(sharable, inTrans, pLock) && FlagsOk(inTrans, pWriter, exclusive, pending)
      && nTransaction == |Open(inTrans)|
      && inTransaction == (if Open(inTrans) == {} then NONE else if pWriter.Handle? && pWriter != Handle(p) then WRITE else READ)
    }

    /** btreeEndTransaction: other statements still running keep a read transaction open. */
    method EndTransaction(p: nat, activeVdbeCnt: nat)
      requires Ending(p)
      modifies this
      ensures Valid() && inTrans == old(inTrans)[p := if old(inTrans)[p] > NONE && activeVdbeCnt > 1 then READ else NONE]
      ensures pWriter == (if old(pWriter) == Handle(p) then Null else old(pWriter))
      ensures exclusive == (old(exclusive) && old(pWriter) != Handle(p))
      ensures pending == (old(pending) && old(pWriter) != Handle(p) && (nTransaction == old(nTransaction) || old(nTransaction) != 2))
      ensures LocksLeft(old(pLock), pLock, p, old(inTrans)[p] > NONE && activeVdbeCnt > 1)
    {
      hide OneWriter, LocksOk, FlagsOk, Open, Others, AllRead, LocksLeft;
      ghost var t := inTrans;
      OthersLeft(sharable, t, pLock, p);
      OpenIs(t, p);
      WriterIs(t, pWriter, p);
      if inTrans[p] > NONE && activeVdbeCnt > 1 {
        Downgraded(sharable, t, pLock, pWriter, exclusive, pending, p);
        ReadLeft(pLock, t, pWriter, sharable, p);
        OpenAdd(t, p, READ);
        DowngradeLocks(p);
        inTrans := inTrans[p := READ];
      } else {
        if inTrans[p] != NONE {
          Dropped(sharable, t, pLock, pWriter, exclusive, pending, p);
          OpenDrop(t, p);
          ClearLocks(p);
          nTransaction := nTransaction - 1;
          if nTransaction == 0 {
            inTransaction := NONE;
          }
        }
        inTrans := inTrans[p := NONE];
        assert t[p] == NONE ==> inTrans == t;
      }
    }

    /** The second phase of a commit, or a rollback: a writer first lowers inTransaction. */
    method Conclude(p: nat, activeVdbeCnt: nat)
      requires Valid() && p in inTrans
      modifies this
      ensures Valid() && inTrans == old(inTrans)[p := if old(inTrans)[p] > NONE && activeVdbeCnt > 1 then READ else NONE]
      ensures pWriter == (if old(pWriter) == Handle(p) then Null else old(pWriter))
      ensures exclusive == (old(exclusive) && old(pWriter) != Handle(p))
      ensures pending == (old(pending) && old(pWriter) != Handle(p) && (nTransaction == old(nTransaction) || old(nTransaction) != 2))
      ensures LocksLeft(old(pLock), pLock, p, old(inTrans)[p] > NONE && activeVdbeCnt > 1)
    {
      hide LocksOk, FlagsOk;
      if inTrans[p] == WRITE {
        assert p in Open(inTrans);
        inTransaction := READ;
      }
      EndTransaction(p, activeVdbeCnt);
    }

    /** sqlite3BtreeBeginTrans; wrflag is 2 for an exclusive transaction, pager is what the pager answers. */
    method BeginTrans(p: nat, wrflag: nat, isReadOnly: bool, pager: Rc) returns (rc: Rc)
      requires Valid() && p in inTrans && wrflag <= 2 && pager in {OK, BUSY, READONLY}
      modifies this
      ensures Valid() && pending == old(pending)
      ensures rc == if old(Done(p, wrflag)) then OK else if isReadOnly && wrflag > 0 then READONLY else if old(Refused(p, wrflag)) then LOCKED else pager
      ensures if rc == OK && !old(Done(p, wrflag)) then
                && inTrans == old(inTrans)[p := if wrflag > 0 then WRITE else READ]
                && pLock == (if sharable && old(inTrans[p]) == NONE then [Lock(p, 1, READ)] else []) + old(pLock)
                && pWriter == (if wrflag > 0 then Handle(p) else old(pWriter)) && exclusive == (if wrflag > 0 then wrflag > 1 else old(exclusive))
              else
                && inTrans == old(inTrans) && pLock == old(pLock) && pWriter == old(pWriter) && exclusive == old(exclusive)
      ensures old(pending) ==> Open(inTrans) == old(Open(inTrans))
    {
      hide LocksOk, FlagsOk, Open, OneWriter, CountsOk, HasLock, Compatible;
      if inTrans[p] == WRITE || (inTrans[p] == READ && wrflag == 0) { return OK; }
      if isReadOnly && wrflag > 0 { return READONLY; }
      var blocked := Blocked(p, wrflag);
      if blocked { return LOCKED; }
      rc := QueryLock(p, 1, READ);
      if rc != OK { return; }
      rc := pager;
      if rc == OK {
        Start(p, wrflag);
      }
    }

    /** Another handle's write transaction, or an exclusive transaction wanted beside locks of others, is in the way. */
    method Blocked(p: nat, wrflag: nat) returns (blocked: bool)
      requires Valid()
      ensures blocked <==> pending || (wrflag > 0 && pWriter != Null) || (wrflag > 1 && exists l :: l in pLock && l.p != p)
    {
      hide LocksOk, FlagsOk, Open;
      if pWriter.Handle? { WriterIs(inTrans, pWriter, pWriter.p); }
      blocked := false;
      if (wrflag > 0 && inTransaction == WRITE) || pending {
        blocked := true;
      } else if wrflag > 1 {
        var i := 0;
        while i < |pLock| && pLock[i].p == p
          invariant i <= |pLock| && forall k :: 0 <= k < i ==> pLock[k].p == p
        {
          i := i + 1;
        }
        blocked := i < |pLock|;
        NoneOther(pLock, p, i);
      }
    }

    method Start(p: nat, wrflag: nat)
      requires Valid() && p in inTrans && wrflag <= 2 && !pending && !Done(p, wrflag) && MayLock(p, 1, READ)
      requires (wrflag > 0 ==> pWriter == Null) && (wrflag > 1 ==> forall l :: l in pLock ==> l.p == p)
      modifies this`nTransaction, this`pLock, this`inTrans, this`inTransaction, this`pWriter, this`exclusive
      ensures Valid() && inTrans == old(inTrans)[p := if wrflag > 0 then WRITE else READ]
      ensures pLock == (if sharable && old(inTrans[p]) == NONE then [Lock(p, 1, READ)] else []) + old(pLock)
      ensures if wrflag > 0 then pWriter == Handle(p) && exclusive == (wrflag > 1) else pWriter == old(pWriter) && exclusive == old(exclusive)
    {
      hide LocksOk, FlagsOk, Open, OneWriter, HasLock, Compatible, Distinct, Conflict;
      var v := if wrflag > 0 then WRITE else READ;
      WriterIs(inTrans, pWriter, p);
      AloneIfNot(sharable, inTrans, pLock, pWriter, exclusive, pending, p);
      Begun(sharable, inTrans, pLock, pWriter, exclusive, pending, p, wrflag);
      OpenAdd(inTrans, p, v);
      OpenIs(inTrans, p);
      if inTrans[p] == NONE {
        nTransaction := nTransaction + 1;
        if sharable {
          pLock := [Lock(p, 1, READ)] + pLock;
        }
      }
      inTrans := inTrans[p := v];
      if inTrans[p] > inTransaction {
        inTransaction := inTrans[p];
      }
      if wrflag > 0 {
        pWriter, exclusive := Handle(p), wrflag > 1;
      }
    }

    /** BeginTrans has nothing to do. */
    ghost predicate Done(p: nat, wrflag: nat)
      reads this
      requires p in inTrans
    {
      inTrans[p] == WRITE || (inTrans[p] == READ && wrflag == 0)
    }

    /** BeginTrans is refused because of another handle. */
    ghost predicate Refused(p: nat, wrflag: nat)
      reads this
    {
      || pending || (wrflag > 0 && pWriter != Null) || (wrflag > 1 && exists l :: l in pLock && l.p != p) || !MayLock(p, 1, READ)
    }

    /** A new handle: only a sharable b-tree can have more than one. */
    method Connect(p: nat)
      requires Valid() && p !in inTrans && (sharable || inTrans == map[])
      modifies this`inTrans
      ensures Valid() && inTrans == old(inTrans)[p := NONE]
    {
      assert Open(inTrans[p := NONE]) == Open(inTrans);
      inTrans := inTrans[p := NONE];
    }

    /** sqlite3BtreeClose, after its statements have been finalized: rolls back and forgets the handle. */
    method Close(p: nat)
      requires Valid() && p in inTrans
      modifies this
      ensures Valid() && inTrans == old(inTrans) - {p} && pWriter == (if old(pWriter) == Handle(p) then Null else old(pWriter))
      ensures pending == (old(pending) && old(pWriter) != Handle(p) && (nTransaction == old(nTransaction) || old(nTransaction) != 2))
      ensures forall l :: l in pLock <==> l in old(pLock) && l.p != p
    {
      Conclude(p, 0);
      assert Open(inTrans - {p}) == Open(inTrans);
      inTrans := inTrans - {p};
    }
  }

  lemma FoundAt(locks: seq<Lock>, p: nat, iTable: nat, i: nat)
    requires i <= |locks| && forall j :: 0 <= j < i ==> locks[j].p != p || locks[j].iTable != iTable
    requires i < |locks| ==> locks[i].p == p && locks[i].iTable == iTable
    ensures Find(locks, p, iTable) == i
  {
    var f := Find(locks, p, iTable);
    if f < i { assert false; }
  }

  lemma WithLockSteps(locks: seq<Lock>, l: Lock, i: nat)
    requires i == Find(locks, l.p, l.iTable) && l.level > 0
    ensures i == |locks| ==> WithLock(locks, l) == ([Lock(l.p, l.iTable, 0)] + locks)[0 := l]
    ensures i < |locks| && l.level > locks[i].level ==> WithLock(locks, l) == locks[i := locks[i].(level := l.level)]
    ensures i < |locks| && l.level <= locks[i].level ==> WithLock(locks, l) == locks
  {
  }

  lemma LockAdded(locks: seq<Lock>, sharable: bool, t: map<nat, nat>, l: Lock)
    requires sharable && LocksOk(sharable, t, locks) && l.p in t && READ <= l.level <= t[l.p] && Compatible(locks, l)
    ensures LocksOk(sharable, t, WithLock(locks, l))
  {
    hide WithLock, Find, Open;
    WithLockIn(locks, l);
    var r := WithLock(locks, l);
    forall p | p in Open(t) ensures HasLock(r, p, 1, READ) {
      var k :| k in locks && k.p == p && k.iTable == 1 && k.level >= READ;
      if k !in r { assert l in r; }
    }
    forall a, b | a in r && b in r ensures !Conflict(a, b) {
    }
  }

  lemma WriterIs(t: map<nat, nat>, w: Writer, p: nat)
    requires OneWriter(t, w) && p in t
    ensures t[p] <= WRITE && (w == Handle(p) <==> t[p] == WRITE)
    ensures w.Handle? ==> Open(t) != {}
  {
    if w.Handle? { assert w.p in Open(t); }
  }

  /** The first n locks of the old list have been looked at, and those that stay are the first i of the list now. */
  ghost predicate Clearing(was: seq<Lock>, n: nat, p: nat, now: seq<Lock>, i: nat) {
    n <= |was| && i == |Others(was[..n], p)| && now == Others(was[..n], p) + was[n..]
  }

  lemma ClearingStart(was: seq<Lock>, p: nat)
    ensures Clearing(was, 0, p, was, 0)
  {
  }

  lemma ClearingStep(was: seq<Lock>, n: nat, p: nat, now: seq<Lock>, i: nat)
    requires Clearing(was, n, p, now, i) && i < |now|
    ensures if now[i].p == p then Clearing(was, n + 1, p, now[..i] + now[i + 1..], i) else Clearing(was, n + 1, p, now, i + 1)
  {
    var kept := Others(was[..n], p);
    assert was[..n + 1][..n] == was[..n] && was[..n + 1][n] == was[n] && now[i] == was[n];
    assert was[n..] == [was[n]] + was[n + 1..];
    assert now == kept + ([was[n]] + was[n + 1..]);
    if now[i].p == p {
      assert now[..i] + now[i + 1..] == kept + was[n + 1..];
    } else {
      assert now == (kept + [was[n]]) + was[n + 1..];
    }
  }

  lemma ClearingEnd(was: seq<Lock>, n: nat, p: nat, now: seq<Lock>, i: nat)
    requires Clearing(was, n, p, now, i)
    ensures i <= |now| && (i == |now| ==> now == Others(was, p))
  {
    if i == |now| { assert was[..n] == was; }
  }

  lemma OpenIs(t: map<nat, nat>, p: nat)
    requires p in t
    ensures p in Open(t) <==> t[p] > NONE
    ensures t[p] > NONE ==> |Open(t)| > 0
    ensures Open(t) == {} <==> |Open(t)| == 0
  {
  }

  lemma NoneOther(locks: seq<Lock>, p: nat, i: nat)
    requires i <= |locks| && (forall k :: 0 <= k < i ==> locks[k].p == p) && (i < |locks| ==> locks[i].p != p)
    ensures i < |locks| <==> exists l :: l in locks && l.p != p
  {
    if i < |locks| { assert locks[i] in locks; }
  }

  lemma AllReadIn(locks: seq<Lock>, t: map<nat, nat>)
    requires Distinct(locks) && forall l :: l in locks ==> l.p in t && READ <= l.level <= t[l.p]
    ensures Distinct(AllRead(locks)) && forall l :: l in AllRead(locks) ==> l.level == READ && l.p in t && t[l.p] >= READ
  {
    var r := AllRead(locks);
    forall l | l in r ensures l.level == READ && l.p in t && t[l.p] >= READ {
      var i :| 0 <= i < |r| && r[i] == l;
      assert locks[i] in locks;
    }
  }

  /** The locks of one handle become read locks, while nobody else holds more. */
  lemma ReadLeft(locks: seq<Lock>, t: map<nat, nat>, w: Writer, sharable: bool, p: nat)
    requires OneWriter(t, w) && LocksOk(sharable, t, locks) && p in t
    ensures LocksLeft(locks, if w == Handle(p) then AllRead(locks) else locks, p, true)
  {
    hide Compatible, Distinct, Open;
    var r := AllRead(locks);
    if w == Handle(p) {
      forall l: Lock ensures l in r <==> l.level == READ && HasLock(locks, l.p, l.iTable, READ) { InAllRead(locks, t, sharable, l); }
      forall u: nat ensures HasLock(r, p, u, READ) <==> HasLock(locks, p, u, READ) {
        if HasLock(locks, p, u, READ) { assert Lock(p, u, READ) in r; }
      }
      forall l: Lock | l.p != p ensures l in r <==> l in locks { OthersRead(locks, t, w, sharable, p, l); }
    }
  }

  lemma InAllRead(locks: seq<Lock>, t: map<nat, nat>, sharable: bool, l: Lock)
    requires LocksOk(sharable, t, locks)
    ensures l in AllRead(locks) <==> l.level == READ && HasLock(locks, l.p, l.iTable, READ)
  {
    var r := AllRead(locks);
    if l in r {
      var i :| 0 <= i < |r| && r[i] == l;
      assert locks[i] in locks;
    }
    if l.level == READ && HasLock(locks, l.p, l.iTable, READ) {
      var k :| k in locks && k.p == l.p && k.iTable == l.iTable && k.level >= READ;
      var i :| 0 <= i < |locks| && locks[i] == k;
      assert r[i] == l;
    }
  }

  lemma OthersRead(locks: seq<Lock>, t: map<nat, nat>, w: Writer, sharable: bool, p: nat, l: Lock)
    requires OneWriter(t, w) && LocksOk(sharable, t, locks) && w == Handle(p) && l.p != p
    ensures l.level == READ && HasLock(locks, l.p, l.iTable, READ) <==> l in locks
  {
    hide Distinct, Open, Conflict;
  }

  lemma AllReadHas(locks: seq<Lock>, p: nat)
    requires HasLock(locks, p, 1, READ)
    ensures HasLock(AllRead(locks), p, 1, READ)
  {
    var k :| k in locks && k.p == p && k.iTable == 1;
    var i :| 0 <= i < |locks| && locks[i] == k;
    assert AllRead(locks)[i] in AllRead(locks);
  }

  lemma DowngradedLocks(sharable: bool, t: map<nat, nat>, locks: seq<Lock>, p: nat)
    requires LocksOk(sharable, t, locks) && p in t && t[p] > NONE
    ensures LocksOk(sharable, t[p := READ], AllRead(locks))
  {
    hide AllRead, Distinct, Open, HasLock;
    AllReadIn(locks, t);
    OpenAdd(t, p, READ);
    OpenIs(t, p);
    assert Open(t[p := READ]) == Open(t);
    if sharable {
      forall q | q in Open(t) ensures HasLock(AllRead(locks), q, 1, READ) {
        AllReadHas(locks, q);
      }
    } else {
      NoLocks(locks);
    }
  }

  lemma OthersLeft(sharable: bool, t: map<nat, nat>, locks: seq<Lock>, p: nat)
    requires LocksOk(sharable, t, locks) && p in t
    ensures LocksLeft(locks, Others(locks, p), p, false) && (t[p] == NONE ==> LocksLeft(locks, locks, p, false))
  {
  }

  lemma NoLocks(locks: seq<Lock>)
    ensures locks == [] ==> AllRead(locks) == []
  {
  }

  /** The writer p becomes a reader. */
  lemma Downgraded(sharable: bool, t: map<nat, nat>, locks: seq<Lock>, w: Writer, exclusive: bool, pending: bool, p: nat)
    requires OneWriter(t, w) && LocksOk(sharable, t, locks) && FlagsOk(t, w, exclusive, pending) && p in t && t[p] > NONE
    ensures w == Handle(p) ==> OneWriter(t[p := READ], Null) && LocksOk(sharable, t[p := READ], AllRead(locks)) && FlagsOk(t[p := READ], Null, false, false)
    ensures w != Handle(p) ==> t[p := READ] == t
  {
    hide LocksOk, AllRead;
    DowngradedLocks(sharable, t, locks, p);
  }

  /** p's transaction ends. */
  lemma Dropped(sharable: bool, t: map<nat, nat>, locks: seq<Lock>, w: Writer, exclusive: bool, pending: bool, p: nat)
    requires OneWriter(t, w) && LocksOk(sharable, t, locks) && FlagsOk(t, w, exclusive, pending) && p in t && t[p] > NONE
    ensures Distinct(locks) && |Open(t)| > 0
    ensures var t', mine := t[p := NONE], w == Handle(p);
      && OneWriter(t', if mine then Null else w) && LocksOk(sharable, t', Others(locks, p))
      && FlagsOk(t', if mine then Null else w, exclusive && !mine, pending && !mine && |Open(t)| != 2)
  {
    OpenDrop(t, p);
    OthersDistinct(locks, p);
    var t' := t[p := NONE];
    var r := Others(locks, p);
    forall q | q in Open(t') && sharable ensures HasLock(r, q, 1, READ) {
      var k :| k in locks && k.p == q && k.iTable == 1 && k.level >= READ;
      assert k in r;
    }
    if w != Handle(p) && pending && |Open(t)| != 2 {
      assert w.p in Open(t);
      TwoOpen(Open(t), w.p, p);
      var c := SomeOther(Open(t), w.p, p);
      assert c in Open(t');
    }
  }

  lemma PutFirst(locks: seq<Lock>, l: Lock)
    requires Distinct(locks) && forall k :: k in locks ==> k.p != l.p
    ensures Distinct([l] + locks) && forall k :: k in [l] + locks <==> k == l || k in locks
  {
    var r := [l] + locks;
    forall j | 0 < j < |r| ensures r[j].p != l.p {
      assert r[j] in locks;
    }
    assert r[0] == l;
  }

  lemma HasMore(locks: seq<Lock>, l: Lock, q: nat)
    requires HasLock(locks, q, 1, READ) || (q == l.p && l.iTable == 1 && l.level >= READ)
    ensures HasLock([l] + locks, q, 1, READ)
  {
    var r := [l] + locks;
    assert l in r;
    if HasLock(locks, q, 1, READ) {
      var k :| k in locks && k.p == q && k.iTable == 1 && k.level >= READ;
      assert k in r;
    }
  }

  lemma BegunLocks(sharable: bool, t: map<nat, nat>, locks: seq<Lock>, p: nat, v: nat)
    requires LocksOk(sharable, t, locks) && p in t && t[p] < v && (sharable ==> Compatible(locks, Lock(p, 1, READ)))
    ensures LocksOk(sharable, t[p := v], if t[p] == NONE && sharable then [Lock(p, 1, READ)] + locks else locks)
  {
    hide Distinct, Open, HasLock;
    var t' := t[p := v];
    OpenAdd(t, p, v);
    OpenIs(t, p);
    if t[p] == NONE && sharable {
      var l := Lock(p, 1, READ);
      PutFirst(locks, l);
      forall q | q in Open(t') ensures HasLock([l] + locks, q, 1, READ) {
        HasMore(locks, l, q);
      }
    }
  }

  /** p's transaction begins, or turns from a read to a write transaction. */
  lemma Begun(sharable: bool, t: map<nat, nat>, locks: seq<Lock>, w: Writer, exclusive: bool, pending: bool, p: nat, wrflag: nat)
    requires OneWriter(t, w) && LocksOk(sharable, t, locks) && FlagsOk(t, w, exclusive, pending) && p in t && t[p] < WRITE && !pending
    requires (wrflag > 0 ==> w == Null) && (wrflag == 0 ==> t[p] == NONE) && (wrflag > 1 ==> forall l :: l in locks ==> l.p == p)
    requires (exclusive ==> w == Handle(p)) && (sharable ==> Compatible(locks, Lock(p, 1, READ)))
    ensures var t', w' := t[p := if wrflag > 0 then WRITE else READ], if wrflag > 0 then Handle(p) else w;
      && OneWriter(t', w')
      && LocksOk(sharable, t', if t[p] == NONE && sharable then [Lock(p, 1, READ)] + locks else locks)
      && FlagsOk(t', w', if wrflag > 0 then wrflag > 1 else exclusive, pending)
  {
    hide LocksOk, Compatible, Open, OneWriter, FlagsOk;
    var v := if wrflag > 0 then WRITE else READ;
    BegunLocks(sharable, t, locks, p, v);
    OnlyOne(sharable, t, locks, p);
    BegunWriter(t, w, p, v);
    BegunFlags(t, w, exclusive, p, wrflag);
  }

  lemma BegunWriter(t: map<nat, nat>, w: Writer, p: nat, v: nat)
    requires OneWriter(t, w) && p in t && t[p] < v <= WRITE && (v == WRITE ==> w == Null)
    ensures OneWriter(t[p := v], if v == WRITE then Handle(p) else w)
  {
  }

  lemma BegunFlags(t: map<nat, nat>, w: Writer, exclusive: bool, p: nat, wrflag: nat)
    requires p in t && FlagsOk(t, w, exclusive, false) && (wrflag > 0 ==> w == Null) && (wrflag == 0 ==> !exclusive || w == Handle(p))
    requires wrflag > 1 ==> forall q :: q in Open(t) ==> q == p
    ensures FlagsOk(t[p := if wrflag > 0 then WRITE else READ], if wrflag > 0 then Handle(p) else w, if wrflag > 0 then wrflag > 1 else exclusive, false)
  {
    hide Open;
    OpenAdd(t, p, if wrflag > 0 then WRITE else READ);
  }

  /** The one handle of a b-tree that is not sharable is its own exclusive writer, if there is one. */
  lemma AloneIfNot(sharable: bool, t: map<nat, nat>, locks: seq<Lock>, w: Writer, exclusive: bool, pending: bool, p: nat)
    requires OneWriter(t, w) && LocksOk(sharable, t, locks) && FlagsOk(t, w, exclusive, pending) && p in t
    ensures !sharable && exclusive ==> w == Handle(p)
  {
  }

  /** Without locks of others there are no transactions of others. */
  lemma OnlyOne(sharable: bool, t: map<nat, nat>, locks: seq<Lock>, p: nat)
    requires LocksOk(sharable, t, locks) && p in t
    ensures !sharable || (forall l :: l in locks ==> l.p == p) ==> forall q :: q in Open(t) ==> q == p
  {
    if sharable && (forall l :: l in locks ==> l.p == p) {
      forall q | q in Open(t) ensures q == p {
        var k :| k in locks && k.p == q && k.iTable == 1;
      }
    }
  }

  // ----- what this means -----

  /** An exclusive writer holds every lock there is, and nobody else has a transaction open. */
  lemma ExclusiveAlone(sharable: bool, t: map<nat, nat>, locks: seq<Lock>, w: Writer, exclusive: bool, pending: bool, nTransaction: nat, inTransaction: nat)
    requires State(sharable, t, locks, w, exclusive, pending, nTransaction, inTransaction) && exclusive
    ensures w.Handle? && nTransaction == 1 && !pending
    ensures forall l :: l in locks ==> l.p == w.p
  {
    assert w.p in Open(t);
    assert Open(t) == {w.p};
    forall l | l in locks ensures l.p == w.p {
      assert l.p in Open(t);
    }
  }

  /** While a writer is pending there is another open transaction: it waits for somebody. */
  lemma PendingWaits(sharable: bool, t: map<nat, nat>, locks: seq<Lock>, w: Writer, exclusive: bool, pending: bool, nTransaction: nat, inTransaction: nat)
    requires State(sharable, t, locks, w, exclusive, pending, nTransaction, inTransaction) && pending
    ensures w.Handle? && nTransaction >= 2 && inTransaction == WRITE && sharable
    ensures exists p :: p in Open(t) && p != w.p && HasLock(locks, p, 1, READ)
  {
    var p :| p in Open(t) && w != Handle(p);
    assert w.p in Open(t);
    TwoOpen(Open(t), p, w.p);
  }

  /** nTransaction and inTransaction are the number and the maximum of the handles' transactions. */
  lemma Maximum(sharable: bool, t: map<nat, nat>, locks: seq<Lock>, w: Writer, exclusive: bool, pending: bool, nTransaction: nat, inTransaction: nat)
    requires State(sharable, t, locks, w, exclusive, pending, nTransaction, inTransaction)
    ensures nTransaction == |set p | p in t && t[p] > NONE|
    ensures forall p :: p in t ==> t[p] <= inTransaction
    ensures inTransaction > NONE ==> exists p :: p in t && t[p] == inTransaction
  {
    assert Open(t) == set p | p in t && t[p] > NONE;
    forall p | p in t ensures t[p] <= inTransaction {
      if t[p] > NONE { assert p in Open(t); }
    }
    if inTransaction == READ {
      var p :| p in Open(t);
      assert t[p] == READ;
    }
  }
}
