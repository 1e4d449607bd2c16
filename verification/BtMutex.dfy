/** Many threads, each driving one connection, lock the shared b-trees they have attached.  Every step of every thread is one
    transition; a thread that finds a mutex taken in lockBtreeMutex waits. */
module BtMutex {

  /** A connection's handle on the shared b-tree at address bt. */
  datatype Handle = Handle(bt: nat, wantToLock: nat, locked: bool)

  /** Where a thread is in sqlite3BtreeEnter for handle p: about to try the mutex, releasing the later handles, or locking p and then
      the later handles that are wanted. */
  datatype Pc = Idle | Trying(p: nat) | Releasing(p: nat, later: nat) | Locking(p: nat, at: nat)

  datatype Conn = Conn(handles: seq<Handle>, pc: Pc)

  /** owner: who holds each mutex that is held; db: the connection a shared b-tree was last locked for. */
  datatype State = State(conns: seq<Conn>, owner: map<nat, nat>, db: map<nat, nat>)

  datatype Action =
    | Enter(c: nat, p: nat)
    | Leave(c: nat, p: nat)
    | Try(c: nat, free: bool)
    | Release(c: nat)
    | Lock(c: nat)
    | Open(c: nat, bt: nat)
    | Close(c: nat, p: nat)

  // ----- transitions -----

  function WithConn(s: State, c: nat, conn: Conn): State
    requires c < |s.conns|
  {
    s.(conns := s.conns[c := conn])
  }

  /** lockBtreeMutex, once the mutex is free. */
  function Locked(s: State, c: nat, i: nat, pc: Pc): State
    requires c < |s.conns| && i < |s.conns[c].handles|
  {
    var h := s.conns[c].handles[i];
    WithConn(s, c, Conn(s.conns[c].handles[i := h.(locked := true)], pc)).(owner := s.owner[h.bt := c], db := s.db[h.bt := c])
  }

  /** unlockBtreeMutex. */
  function Unlocked(s: State, c: nat, i: nat, want: nat, pc: Pc): State
    requires c < |s.conns| && i < |s.conns[c].handles|
  {
    var h := s.conns[c].handles[i];
    WithConn(s, c, Conn(s.conns[c].handles[i := Handle(h.bt, want, false)], pc)).(owner := s.owner - {h.bt})
  }

  /** The first place whose address is not smaller. */
  function Place(handles: seq<Handle>, bt: nat): (i: nat)
    ensures i <= |handles|
    ensures forall j :: 0 <= j < i ==> handles[j].bt < bt
    ensures i < |handles| ==> bt <= handles[i].bt
  {
    if handles == [] || bt <= handles[0].bt then 0 else 1 + Place(handles[1..], bt)
  }

  /** The thread would have to wait for the mutex of handle at. */
  predicate Blocked(s: State, c: nat) {
    && c < |s.conns| && s.conns[c].pc.Locking?
    && var at := s.conns[c].pc.at;
       at < |s.conns[c].handles| && s.conns[c].handles[at].wantToLock > 0 && s.conns[c].handles[at].bt in s.owner
  }

  predicate Enabled(s: State, a: Action) {
    && a.c < |s.conns|
    && var conn := s.conns[a.c];
       match a
       case Enter(c, p) => conn.pc.Idle? && p < |conn.handles|
       case Leave(c, p) => conn.pc.Idle? && p < |conn.handles| && conn.handles[p].wantToLock > 0
       case Try(c, free) => conn.pc.Trying? && conn.pc.p < |conn.handles| && (free ==> conn.handles[conn.pc.p].bt !in s.owner)
       case Release(c) => conn.pc.Releasing?
       case Lock(c) => conn.pc.Locking? && !Blocked(s, c)
       case Open(c, bt) => conn.pc.Idle? && forall i :: 0 <= i < |conn.handles| ==> conn.handles[i].bt != bt
       case Close(c, p) => conn.pc.Idle? && p < |conn.handles| && conn.handles[p].wantToLock == 0
  }

  function Apply(s: State, a: Action): State
    requires Enabled(s, a)
  {
    var conn := s.conns[a.c];
    match a
    case Enter(c, p) =>
      var h := conn.handles[p];
      WithConn(s, c, Conn(conn.handles[p := h.(wantToLock := h.wantToLock + 1)], if h.locked then Idle else Trying(p)))
    case Leave(c, p) =>
      var h := conn.handles[p];
      if h.wantToLock == 1 then Unlocked(s, c, p, 0, Idle)
      else WithConn(s, c, conn.(handles := conn.handles[p := h.(wantToLock := h.wantToLock - 1)]))
    case Try(c, free) =>
      if free then Locked(s, c, conn.pc.p, Idle) else WithConn(s, c, conn.(pc := Releasing(conn.pc.p, conn.pc.p + 1)))
    case Release(c) =>
      var p, l := conn.pc.p, conn.pc.later;
      if l >= |conn.handles| then WithConn(s, c, conn.(pc := Locking(p, p)))
      else if conn.handles[l].locked then Unlocked(s, c, l, conn.handles[l].wantToLock, Releasing(p, l + 1))
      else WithConn(s, c, conn.(pc := Releasing(p, l + 1)))
    case Lock(c) =>
      var p, at := conn.pc.p, conn.pc.at;
      if at >= |conn.handles| then WithConn(s, c, conn.(pc := Idle))
      else if conn.handles[at].wantToLock > 0 then Locked(s, c, at, Locking(p, at + 1))
      else WithConn(s, c, conn.(pc := Locking(p, at + 1)))
    case Open(c, bt) =>
      var i := Place(conn.handles, bt);
      WithConn(s, c, conn.(handles := conn.handles[..i] + [Handle(bt, 0, false)] + conn.handles[i..]))
    case Close(c, p) =>
      WithConn(s, c, conn.(handles := conn.handles[..p] + conn.handles[p + 1..]))
  }

  // ----- the invariant -----

  ghost predicate Ascending(handles: seq<Handle>) {
    forall i, j :: 0 <= i < j < |handles| ==> handles[i].bt < handles[j].bt
  }

  /** A handle holds its mutex just when it wants it. */
  predicate Settled(h: Handle) { h.locked <==> h.wantToLock > 0 }

  /** How a connection's handles stand while its thread is at pc. */
  ghost predicate HandlesFit(conn: Conn) {
    var hs := conn.handles;
    match conn.pc
    case Idle => forall i :: 0 <= i < |hs| ==> Settled(hs[i])
    case Trying(p) =>
      && p < |hs| && hs[p].wantToLock > 0 && !hs[p].locked
      && forall i :: 0 <= i < |hs| && i != p ==> Settled(hs[i])
    case Releasing(p, later) =>
      && p < later <= |hs| && hs[p].wantToLock > 0
      && (forall i :: p <= i < later ==> !hs[i].locked)
      && forall i :: 0 <= i < p || later <= i < |hs| ==> Settled(hs[i])
    case Locking(p, at) =>
      && p <= at <= |hs| && p < |hs| && hs[p].wantToLock > 0
      && (forall i :: at <= i < |hs| ==> !hs[i].locked)
      && forall i :: 0 <= i < at ==> Settled(hs[i])
  }

  /** The mutexes held are those of the locked handles. */
  ghost predicate Owns(s: State, c: nat)
    requires c < |s.conns|
  {
    forall i :: 0 <= i < |s.conns[c].handles| ==>
      var h := s.conns[c].handles[i];
      (h.locked <==> h.bt in s.owner && s.owner[h.bt] == c) && (h.locked ==> h.bt in s.db && s.db[h.bt] == c)
  }

  predicate HeldBy(conn: Conn, m: nat) { exists i :: 0 <= i < |conn.handles| && conn.handles[i].bt == m && conn.handles[i].locked }

  ghost predicate Inv(s: State) {
    && (forall c :: 0 <= c < |s.conns| ==> Ascending(s.conns[c].handles) && HandlesFit(s.conns[c]) && Owns(s, c))
    && (forall m :: m in s.owner ==> s.owner[m] < |s.conns| && HeldBy(s.conns[s.owner[m]], m))
  }

  // ----- every step keeps it -----

  lemma OthersOwn(s: State, s': State, c: nat, d: nat, m: nat)
    requires Inv(s) && c < |s.conns| && d < |s.conns| && d != c && |s'.conns| == |s.conns| && s'.conns == s.conns[c := s'.conns[c]]
    requires (s'.owner == s.owner && s'.db == s.db) || (s'.owner == s.owner[m := c] && s'.db == s.db[m := c] && m !in s.owner)
             || (s'.owner == s.owner - {m} && s'.db == s.db && m in s.owner && s.owner[m] == c)
    ensures Owns(s', d)
  {
  }

  lemma OwnersKept(s: State, s': State, c: nat, m: nat)
    requires Inv(s) && c < |s.conns| && |s'.conns| == |s.conns| && s'.conns == s.conns[c := s'.conns[c]]
    requires s'.owner == s.owner || s'.owner == s.owner[m := c] || s'.owner == s.owner - {m}
    requires forall x :: x in s'.owner && s'.owner[x] == c ==> HeldBy(s'.conns[c], x)
    ensures forall x :: x in s'.owner ==> s'.owner[x] < |s'.conns| && HeldBy(s'.conns[s'.owner[x]], x)
  {
  }

  /** The handles change in one place, without gaining or losing the mutex. */
  lemma HeldAfter(hs: seq<Handle>, i: nat, h: Handle, m: nat, pc: Pc, pc': Pc)
    requires i < |hs| && h.bt == hs[i].bt && (hs[i].locked && m == h.bt ==> h.locked) && HeldBy(Conn(hs, pc), m)
    ensures HeldBy(Conn(hs[i := h], pc'), m)
  {
    var j :| 0 <= j < |hs| && hs[j].bt == m && hs[j].locked;
    assert hs[i := h][j].bt == m && hs[i := h][j].locked;
  }

  lemma StepSame(s: State, c: nat, i: nat, h: Handle, pc: Pc)
    requires Inv(s) && c < |s.conns| && i < |s.conns[c].handles| && h.bt == s.conns[c].handles[i].bt && h.locked == s.conns[c].handles[i].locked
    requires HandlesFit(Conn(s.conns[c].handles[i := h], pc))
    ensures Inv(WithConn(s, c, Conn(s.conns[c].handles[i := h], pc)))
  {
    var s' := WithConn(s, c, Conn(s.conns[c].handles[i := h], pc));
    forall d | 0 <= d < |s'.conns| ensures Ascending(s'.conns[d].handles) && HandlesFit(s'.conns[d]) && Owns(s', d) {
      if d != c { OthersOwn(s, s', c, d, 0); }
    }
    forall x | x in s'.owner && s'.owner[x] == c ensures HeldBy(s'.conns[c], x) {
      HeldAfter(s.conns[c].handles, i, h, x, s.conns[c].pc, pc);
    }
    OwnersKept(s, s', c, 0);
  }

  /** The thread moves on without changing its handles. */
  lemma StepPc(s: State, c: nat, pc: Pc)
    requires Inv(s) && c < |s.conns| && HandlesFit(s.conns[c].(pc := pc))
    ensures Inv(WithConn(s, c, s.conns[c].(pc := pc)))
  {
    var s' := WithConn(s, c, s.conns[c].(pc := pc));
    forall d | 0 <= d < |s'.conns| ensures Ascending(s'.conns[d].handles) && HandlesFit(s'.conns[d]) && Owns(s', d) {
      if d != c { OthersOwn(s, s', c, d, 0); }
    }
  }

  lemma StepLocked(s: State, c: nat, i: nat, pc: Pc)
    requires Inv(s) && c < |s.conns| && i < |s.conns[c].handles| && s.conns[c].handles[i].bt !in s.owner
    requires HandlesFit(Conn(s.conns[c].handles[i := s.conns[c].handles[i].(locked := true)], pc))
    ensures Inv(Locked(s, c, i, pc))
  {
    var s', hs := Locked(s, c, i, pc), s.conns[c].handles;
    var h := hs[i].(locked := true);
    forall d | 0 <= d < |s'.conns| ensures Ascending(s'.conns[d].handles) && HandlesFit(s'.conns[d]) && Owns(s', d) {
      if d != c { OthersOwn(s, s', c, d, h.bt); }
    }
    forall x | x in s'.owner && s'.owner[x] == c ensures HeldBy(s'.conns[c], x) {
      if x == h.bt { assert s'.conns[c].handles[i] == h; } else { HeldAfter(hs, i, h, x, s.conns[c].pc, pc); }
    }
    OwnersKept(s, s', c, h.bt);
  }

  lemma StepUnlocked(s: State, c: nat, i: nat, want: nat, pc: Pc)
    requires Inv(s) && c < |s.conns| && i < |s.conns[c].handles| && s.conns[c].handles[i].locked
    requires HandlesFit(Conn(s.conns[c].handles[i := Handle(s.conns[c].handles[i].bt, want, false)], pc))
    ensures Inv(Unlocked(s, c, i, want, pc))
  {
    var s', hs := Unlocked(s, c, i, want, pc), s.conns[c].handles;
    var h := Handle(hs[i].bt, want, false);
    forall d | 0 <= d < |s'.conns| ensures Ascending(s'.conns[d].handles) && HandlesFit(s'.conns[d]) && Owns(s', d) {
      if d != c { OthersOwn(s, s', c, d, h.bt); }
    }
    forall x | x in s'.owner && s'.owner[x] == c ensures HeldBy(s'.conns[c], x) {
      HeldAfter(hs, i, h, x, s.conns[c].pc, pc);
    }
    OwnersKept(s, s', c, h.bt);
  }

  /** Handles with one more, that is not locked, in the place where its address belongs. */
  lemma Opened(hs: seq<Handle>, bt: nat)
    requires Ascending(hs) && forall i :: 0 <= i < |hs| ==> hs[i].bt != bt
    ensures var k := Place(hs, bt);
            var hs' := hs[..k] + [Handle(bt, 0, false)] + hs[k..];
      && Ascending(hs') && (forall i :: 0 <= i < |hs'| ==> hs'[i] == Handle(bt, 0, false) || hs'[i] in hs)
      && (forall h :: h in hs ==> h in hs')
  {
    OpenedAt(hs, bt, Place(hs, bt));
  }

  lemma OpenedAt(hs: seq<Handle>, bt: nat, k: nat)
    requires Ascending(hs) && k <= |hs| && (forall i :: 0 <= i < k ==> hs[i].bt < bt) && (forall i :: k <= i < |hs| ==> hs[i].bt > bt || i > k)
    ensures var hs' := hs[..k] + [Handle(bt, 0, false)] + hs[k..];
      && Ascending(hs') && (forall i :: 0 <= i < |hs'| ==> hs'[i] == Handle(bt, 0, false) || hs'[i] in hs)
      && (forall h :: h in hs ==> h in hs')
  {
    var n, hs' := Handle(bt, 0, false), hs[..k] + [Handle(bt, 0, false)] + hs[k..];
    forall i | k < i < |hs| ensures hs[i].bt > bt { assert hs[k].bt < hs[i].bt; }
    forall i | 0 <= i < |hs'| ensures hs'[i] == if i < k then hs[i] else if i == k then n else hs[i - 1] {}
    forall h | h in hs ensures h in hs' {
      var j :| 0 <= j < |hs| && hs[j] == h;
      assert hs'[if j < k then j else j + 1] == h;
    }
  }

  /** New handles for a connection between calls: none is locked that was not, and the locked ones remain. */
  lemma StepHandles(s: State, c: nat, hs': seq<Handle>)
    requires Inv(s) && c < |s.conns| && s.conns[c].pc.Idle? && Ascending(hs')
    requires forall i :: 0 <= i < |hs'| ==> hs'[i] in s.conns[c].handles || (Settled(hs'[i]) && !hs'[i].locked && NoneAt(s.conns[c].handles, hs'[i].bt))
    requires forall h :: h in s.conns[c].handles && h.locked ==> h in hs'
    ensures Inv(WithConn(s, c, Conn(hs', Idle)))
  {
    var s', hs := WithConn(s, c, Conn(hs', Idle)), s.conns[c].handles;
    ConnOk(s, c);
    forall i | 0 <= i < |hs'|
      ensures Settled(hs'[i]) && (hs'[i].locked <==> hs'[i].bt in s.owner && s.owner[hs'[i].bt] == c)
      ensures hs'[i].locked ==> hs'[i].bt in s.db && s.db[hs'[i].bt] == c
    {
      if hs'[i] in hs {
        var j :| 0 <= j < |hs| && hs[j] == hs'[i];
      } else {
        NotHeld(s, c, hs'[i].bt);
      }
    }
    forall d | 0 <= d < |s'.conns| ensures Ascending(s'.conns[d].handles) && HandlesFit(s'.conns[d]) && Owns(s', d) {
      if d != c { OthersOwn(s, s', c, d, 0); }
    }
    forall x | x in s'.owner && s'.owner[x] == c ensures HeldBy(s'.conns[c], x) {
      var j :| 0 <= j < |hs| && hs[j].bt == x && hs[j].locked;
      assert hs[j] in hs';
    }
    OwnersKept(s, s', c, 0);
  }

  ghost predicate NoneAt(hs: seq<Handle>, bt: nat) { forall i :: 0 <= i < |hs| ==> hs[i].bt != bt }

  lemma StepOpen(s: State, c: nat, bt: nat)
    requires Inv(s) && Enabled(s, Open(c, bt))
    ensures Inv(Apply(s, Open(c, bt)))
  {
    hide Inv, HandlesFit, Owns;
    ConnOk(s, c);
    var hs, k := s.conns[c].handles, Place(s.conns[c].handles, bt);
    Opened(hs, bt);
    hide Ascending, Place;
    StepHandles(s, c, hs[..k] + [Handle(bt, 0, false)] + hs[k..]);
  }

  lemma NotHeld(s: State, c: nat, bt: nat)
    requires Inv(s) && c < |s.conns| && NoneAt(s.conns[c].handles, bt)
    ensures bt in s.owner ==> s.owner[bt] != c
  {
  }

  lemma StepClose(s: State, c: nat, p: nat)
    requires Inv(s) && Enabled(s, Close(c, p))
    ensures Inv(Apply(s, Close(c, p)))
  {
    ConnOk(s, c);
    hide Inv, Owns;
    var hs := s.conns[c].handles;
    var hs' := hs[..p] + hs[p + 1..];
    forall i | 0 <= i < |hs'| ensures hs'[i] == hs[if i < p then i else i + 1] {}
    forall h | h in hs && h.locked ensures h in hs' {
      var j :| 0 <= j < |hs| && hs[j] == h;
      assert hs'[if j < p then j else j - 1] == h;
    }
    StepHandles(s, c, hs');
  }

  lemma StepEnter(s: State, c: nat, p: nat)
    requires Inv(s) && Enabled(s, Enter(c, p))
    ensures Inv(Apply(s, Enter(c, p)))
  {
    hide Inv, Owns, Ascending;
    ConnOk(s, c);
    var h := s.conns[c].handles[p];
    StepSame(s, c, p, h.(wantToLock := h.wantToLock + 1), if h.locked then Idle else Trying(p));
  }

  lemma StepLeave(s: State, c: nat, p: nat)
    requires Inv(s) && Enabled(s, Leave(c, p))
    ensures Inv(Apply(s, Leave(c, p)))
  {
    hide Inv, Owns, Ascending;
    ConnOk(s, c);
    var h := s.conns[c].handles[p];
    if h.wantToLock == 1 { StepUnlocked(s, c, p, 0, Idle); } else { StepSame(s, c, p, h.(wantToLock := h.wantToLock - 1), Idle); }
  }

  lemma StepTry(s: State, c: nat, free: bool)
    requires Inv(s) && Enabled(s, Try(c, free))
    ensures Inv(Apply(s, Try(c, free)))
  {
    hide Inv, Owns, Ascending;
    ConnOk(s, c);
    var p := s.conns[c].pc.p;
    if free { StepLocked(s, c, p, Idle); } else { StepPc(s, c, Releasing(p, p + 1)); }
  }

  lemma StepRelease(s: State, c: nat)
    requires Inv(s) && Enabled(s, Release(c))
    ensures Inv(Apply(s, Release(c)))
  {
    hide Inv, Owns, Ascending;
    ConnOk(s, c);
    var hs, p, l := s.conns[c].handles, s.conns[c].pc.p, s.conns[c].pc.later;
    if l >= |hs| {
      StepPc(s, c, Locking(p, p));
    } else if hs[l].locked {
      StepUnlocked(s, c, l, hs[l].wantToLock, Releasing(p, l + 1));
    } else {
      StepPc(s, c, Releasing(p, l + 1));
    }
  }

  lemma StepLock(s: State, c: nat)
    requires Inv(s) && Enabled(s, Lock(c))
    ensures Inv(Apply(s, Lock(c)))
  {
    hide Inv, Owns, Ascending;
    ConnOk(s, c);
    var hs, p, at := s.conns[c].handles, s.conns[c].pc.p, s.conns[c].pc.at;
    if at >= |hs| {
      StepPc(s, c, Idle);
    } else if hs[at].wantToLock > 0 {
      StepLocked(s, c, at, Locking(p, at + 1));
    } else {
      StepPc(s, c, Locking(p, at + 1));
    }
  }

  /** No step of any thread breaks the invariant. */
  lemma StepKeeps(s: State, a: Action)
    requires Inv(s) && Enabled(s, a)
    ensures Inv(Apply(s, a))
  {
    hide Inv, Enabled, Apply;
    match a
    case Enter(c, p) => StepEnter(s, c, p);
    case Leave(c, p) => StepLeave(s, c, p);
    case Try(c, free) => StepTry(s, c, free);
    case Release(c) => StepRelease(s, c);
    case Lock(c) => StepLock(s, c);
    case Open(c, bt) => StepOpen(s, c, bt);
    case Close(c, p) => StepClose(s, c, p);
  }

  lemma ConnOk(s: State, c: nat)
    requires Inv(s) && c < |s.conns|
    ensures Ascending(s.conns[c].handles) && HandlesFit(s.conns[c]) && Owns(s, c)
  {
  }

  // ----- runs -----

  /** n connections without attached databases. */
  function Start(n: nat): State { State(seq(n, _ => Conn([], Idle)), map[], map[]) }

  /** The states of a run of any number of threads, in any order of their steps. */
  ghost predicate Run(states: seq<State>, actions: seq<Action>) {
    && |states| == |actions| + 1 && (exists n :: states[0] == Start(n))
    && forall i :: 0 <= i < |actions| ==> Enabled(states[i], actions[i]) && states[i + 1] == Apply(states[i], actions[i])
  }

  lemma {:induction false} RunKeeps(states: seq<State>, actions: seq<Action>, i: nat)
    requires Run(states, actions) && i < |states|
    ensures Inv(states[i])
  {
    if i > 0 {
      RunKeeps(states, actions, i - 1);
      StepKeeps(states[i - 1], actions[i - 1]);
    }
  }

  // ----- no deadlock -----

  /** The address a blocked thread waits for. */
  function Awaits(s: State, c: nat): nat
    requires Blocked(s, c)
  {
    s.conns[c].handles[s.conns[c].pc.at].bt
  }

  /** Thread c waits for a mutex that thread d holds. */
  predicate WaitsFor(s: State, c: nat, d: nat) { Blocked(s, c) && s.owner[Awaits(s, c)] == d }

  /** A waiting thread holds only mutexes at smaller addresses than the one it waits for. */
  lemma HoldsSmaller(s: State, c: nat, m: nat)
    requires Inv(s) && Blocked(s, c) && m in s.owner && s.owner[m] == c
    ensures m < Awaits(s, c)
  {
    var conn := s.conns[c];
    var i :| 0 <= i < |conn.handles| && conn.handles[i].bt == m && conn.handles[i].locked;
  }

  lemma WaitsUp(s: State, c: nat, d: nat)
    requires Inv(s) && WaitsFor(s, c, d)
    ensures d != c && d < |s.conns| && (Blocked(s, d) ==> Awaits(s, c) < Awaits(s, d))
  {
    if Blocked(s, d) { HoldsSmaller(s, d, Awaits(s, c)); }
  }

  /** Along a path of waiting threads the addresses waited for ascend. */
  lemma {:induction false} PathUp(s: State, path: seq<nat>, i: nat)
    requires Inv(s) && 0 < i < |path| && (forall j :: 0 <= j < |path| - 1 ==> WaitsFor(s, path[j], path[j + 1])) && Blocked(s, path[|path| - 1])
    ensures Blocked(s, path[0]) && Blocked(s, path[i]) && Awaits(s, path[0]) < Awaits(s, path[i])
  {
    if i > 1 { PathUp(s, path, i - 1); }
    assert WaitsFor(s, path[i - 1], path[i]);
    WaitsUp(s, path[i - 1], path[i]);
    if i < |path| - 1 { assert WaitsFor(s, path[i], path[i + 1]); }
  }

  /** Each thread waits for the next, and the last for the first. */
  ghost predicate Circle(s: State, cycle: seq<nat>) {
    && |cycle| > 0 && (forall j :: 0 <= j < |cycle| - 1 ==> WaitsFor(s, cycle[j], cycle[j + 1]))
    && WaitsFor(s, cycle[|cycle| - 1], cycle[0])
  }

  /** No threads ever wait for each other in a circle. */
  lemma NoDeadlock(states: seq<State>, actions: seq<Action>, i: nat, cycle: seq<nat>)
    requires Run(states, actions) && i < |states|
    ensures !Circle(states[i], cycle)
  {
    var s := states[i];
    RunKeeps(states, actions, i);
    hide Inv, Run;
    if Circle(s, cycle) {
      var n := |cycle|;
      WaitsUp(s, cycle[n - 1], cycle[0]);
      if n > 1 { PathUp(s, cycle, n - 1); }
      assert false;
    }
  }

  /** Between calls a handle is locked exactly when it is wanted, and then the shared b-tree belongs to its connection alone. */
  lemma BetweenCalls(states: seq<State>, actions: seq<Action>, i: nat, c: nat, k: nat)
    requires Run(states, actions) && i < |states| && c < |states[i].conns| && states[i].conns[c].pc.Idle? && k < |states[i].conns[c].handles|
    ensures var h := states[i].conns[c].handles[k];
      && (h.locked <==> h.wantToLock > 0)
      && (h.locked ==> h.bt in states[i].owner && states[i].owner[h.bt] == c && h.bt in states[i].db && states[i].db[h.bt] == c)
  {
    RunKeeps(states, actions, i);
    ConnOk(states[i], c);
  }

  // ----- how often a handle has been entered -----

  /** What an action does to the number of calls inside which connection c holds the b-tree at bt. */
  function Counted(s: State, a: Action, c: nat, bt: nat, n: int): int
    requires Enabled(s, a)
  {
    if a.c != c then n else
    match a
    case Enter(_, p) => if s.conns[c].handles[p].bt == bt then n + 1 else n
    case Leave(_, p) => if s.conns[c].handles[p].bt == bt then n - 1 else n
    case Open(_, b) => if b == bt then 0 else n
    case Close(_, p) => if s.conns[c].handles[p].bt == bt then 0 else n
    case _ => n
  }

  /** The calls of sqlite3BtreeEnter less those of sqlite3BtreeLeave among the first i actions, from when the handle was opened. */
  ghost function Depth(states: seq<State>, actions: seq<Action>, i: nat, c: nat, bt: nat): int
    requires Run(states, actions) && i < |states|
  {
    if i == 0 then 0 else Counted(states[i - 1], actions[i - 1], c, bt, Depth(states, actions, i - 1, c, bt))
  }

  /** The handle at bt is wanted n times; none is there only if n is 0. */
  ghost predicate Wanted(hs: seq<Handle>, bt: nat, n: int) {
    (forall k :: 0 <= k < |hs| && hs[k].bt == bt ==> hs[k].wantToLock == n) && (NoneAt(hs, bt) ==> n == 0)
  }

  ghost predicate Counts(s: State, c: nat, bt: nat, n: int) {
    c < |s.conns| ==> Wanted(s.conns[c].handles, bt, n)
  }

  lemma OpenWanted(hs: seq<Handle>, k: nat, b: nat, bt: nat, n: int)
    requires k <= |hs| && NoneAt(hs, b) && Wanted(hs, bt, n)
    ensures Wanted(hs[..k] + [Handle(b, 0, false)] + hs[k..], bt, if b == bt then 0 else n)
  {
    var hs' := hs[..k] + [Handle(b, 0, false)] + hs[k..];
    forall i | 0 <= i < |hs'| ensures hs'[i] == if i < k then hs[i] else if i == k then Handle(b, 0, false) else hs[i - 1] {}
    if NoneAt(hs', bt) {
      assert hs'[k].bt == b;
      forall i | 0 <= i < |hs| ensures hs[i].bt != bt { assert hs'[if i < k then i else i + 1] == hs[i]; }
    }
  }

  lemma CloseWanted(hs: seq<Handle>, p: nat, bt: nat, n: int)
    requires Ascending(hs) && p < |hs| && Wanted(hs, bt, n)
    ensures Wanted(hs[..p] + hs[p + 1..], bt, if hs[p].bt == bt then 0 else n)
  {
    var hs' := hs[..p] + hs[p + 1..];
    forall i | 0 <= i < |hs'| ensures hs'[i] == hs[if i < p then i else i + 1] {}
    if NoneAt(hs', bt) && hs[p].bt != bt {
      forall i | 0 <= i < |hs| ensures hs[i].bt != bt { if i != p { assert hs'[if i < p then i else i - 1] == hs[i]; } }
    }
  }

  /** A handle changes where it is. */
  lemma SetWanted(hs: seq<Handle>, p: nat, h: Handle, bt: nat, n: int)
    requires Ascending(hs) && p < |hs| && h.bt == hs[p].bt && Wanted(hs, bt, n)
    ensures Wanted(hs[p := h], bt, if h.bt == bt then h.wantToLock else n)
    ensures h.bt == bt ==> n == hs[p].wantToLock
  {
    var hs' := hs[p := h];
    if NoneAt(hs', bt) {
      forall i | 0 <= i < |hs| ensures hs[i].bt != bt { assert hs'[i].bt == hs[i].bt; }
    }
  }

  lemma EnterCounts(s: State, a: Action, bt: nat, n: int)
    requires Inv(s) && Enabled(s, a) && (a.Enter? || a.Leave?) && Counts(s, a.c, bt, n)
    ensures Counts(Apply(s, a), a.c, bt, Counted(s, a, a.c, bt, n))
  {
    ConnOk(s, a.c);
    hide Inv, Owns, Wanted, Ascending, HandlesFit;
    var hs := s.conns[a.c].handles;
    var h := hs[a.p];
    if a.Enter? {
      SetWanted(hs, a.p, h.(wantToLock := h.wantToLock + 1), bt, n);
    } else {
      SetWanted(hs, a.p, if h.wantToLock == 1 then Handle(h.bt, 0, false) else h.(wantToLock := h.wantToLock - 1), bt, n);
    }
  }

  lemma LockCounts(s: State, a: Action, bt: nat, n: int)
    requires Inv(s) && Enabled(s, a) && (a.Try? || a.Release? || a.Lock?) && Counts(s, a.c, bt, n)
    ensures Counts(Apply(s, a), a.c, bt, n)
  {
    ConnOk(s, a.c);
    hide Inv, Owns, Wanted, Ascending, HandlesFit;
    var hs, pc := s.conns[a.c].handles, s.conns[a.c].pc;
    var k := if a.Try? then pc.p else if a.Release? then pc.later else pc.at;
    if k < |hs| {
      SetWanted(hs, k, hs[k].(locked := true), bt, n);
      SetWanted(hs, k, Handle(hs[k].bt, hs[k].wantToLock, false), bt, n);
    }
  }

  lemma OpenCounts(s: State, a: Action, bt: nat, n: int)
    requires Inv(s) && Enabled(s, a) && (a.Open? || a.Close?) && Counts(s, a.c, bt, n)
    ensures Counts(Apply(s, a), a.c, bt, Counted(s, a, a.c, bt, n))
  {
    ConnOk(s, a.c);
    hide Inv, Owns, Place, Wanted, Ascending, HandlesFit;
    var hs := s.conns[a.c].handles;
    if a.Open? { OpenWanted(hs, Place(hs, a.bt), a.bt, bt, n); } else { CloseWanted(hs, a.p, bt, n); }
  }

  lemma OthersCount(s: State, a: Action, c: nat, bt: nat, n: int)
    requires Enabled(s, a) && c != a.c && Counts(s, c, bt, n)
    ensures Counts(Apply(s, a), c, bt, n) && Counted(s, a, c, bt, n) == n
  {
    hide Wanted, Place;
  }

  lemma StepCounts(s: State, a: Action, c: nat, bt: nat, n: int)
    requires Inv(s) && Enabled(s, a) && Counts(s, c, bt, n)
    ensures Counts(Apply(s, a), c, bt, Counted(s, a, c, bt, n))
  {
    hide Inv, Enabled, Apply, Counts;
    if a.c != c {
      OthersCount(s, a, c, bt, n);
    } else if a.Enter? || a.Leave? {
      EnterCounts(s, a, bt, n);
    } else if a.Open? || a.Close? {
      OpenCounts(s, a, bt, n);
    } else {
      LockCounts(s, a, bt, n);
    }
  }

  /** wantToLock is the number of calls to sqlite3BtreeEnter that have not been left yet. */
  lemma {:induction false} WantCounts(states: seq<State>, actions: seq<Action>, i: nat, c: nat, bt: nat)
    requires Run(states, actions) && i < |states|
    ensures Counts(states[i], c, bt, Depth(states, actions, i, c, bt))
  {
    if i > 0 {
      WantCounts(states, actions, i - 1, c, bt);
      RunKeeps(states, actions, i - 1);
      StepCounts(states[i - 1], actions[i - 1], c, bt, Depth(states, actions, i - 1, c, bt));
    }
  }

  /** Between a call to sqlite3BtreeEnter and the call to sqlite3BtreeLeave that matches it, a thread that is not in a call itself owns the
      mutex, and without such a call it does not. */
  lemma InsideCalls(states: seq<State>, actions: seq<Action>, i: nat, c: nat, bt: nat)
    requires Run(states, actions) && i < |states| && c < |states[i].conns| && states[i].conns[c].pc.Idle?
    ensures Depth(states, actions, i, c, bt) >= 0
    ensures bt in states[i].owner && states[i].owner[bt] == c <==> Depth(states, actions, i, c, bt) > 0
  {
    WantCounts(states, actions, i, c, bt);
    RunKeeps(states, actions, i);
    ConnOk(states[i], c);
    hide Run, Depth;
    if NoneAt(states[i].conns[c].handles, bt) {
      NotHeld(states[i], c, bt);
    } else {
      var k :| 0 <= k < |states[i].conns[c].handles| && states[i].conns[c].handles[k].bt == bt;
      assert Settled(states[i].conns[c].handles[k]);
    }
  }

  /** Whenever a thread waits, some thread that holds a mutex does not. */
  lemma {:induction false} SomeoneRuns(s: State, c: nat, top: nat) returns (d: nat)
    requires Inv(s) && Blocked(s, c) && forall x :: 0 <= x < |s.conns| && Blocked(s, x) ==> Awaits(s, x) <= top
    ensures d < |s.conns| && !Blocked(s, d) && exists m :: m in s.owner && s.owner[m] == d
    decreases top - Awaits(s, c)
  {
    d := s.owner[Awaits(s, c)];
    WaitsUp(s, c, d);
    if Blocked(s, d) { d := SomeoneRuns(s, d, top); } else { assert Awaits(s, c) in s.owner; }
  }
}
