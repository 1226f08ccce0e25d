/** The BtShared mutex protocol: connections, one per thread, each with a list of sharable
    Btrees in ascending order of BtShared address, entering and leaving them concurrently.

    A connection's operation is broken into its atomic steps on the mutexes, so that steps of
    different threads interleave freely. */
module BtMutex {

  /** Where a thread is: outside; about to try the mutex of Btree i; releasing the later
      Btrees from j on before waiting for i; (re)acquiring from j on. */
  datatype Pc = Idle | Trying(i: nat) | Unlocking(i: nat, j: nat) | Locking(i: nat, j: nat)

  /** A connection: BtShared addresses, nesting counts, locked flags. */
  datatype Conn = Conn(pBt: seq<nat>, wantToLock: seq<nat>, locked: seq<bool>, pc: Pc)

  /** `owner` maps each held mutex to its thread; `db` is BtShared.db. */
  datatype Sys = Sys(conns: seq<Conn>, owner: map<nat, nat>, db: map<nat, nat>)

  /** A call begins, or goes on by one step; a mutex_try may fail on a free mutex, too. */
  datatype Action = Enter(i: nat) | Leave(i: nat) | Continue(tryFails: bool)

  ghost predicate Ascending(c: Conn) {
    && |c.wantToLock| == |c.locked| == |c.pBt|
    && forall j, k :: 0 <= j < k < |c.pBt| ==> c.pBt[j] < c.pBt[k]
  }

  /** The mutex a thread must have before it can go on, if any. */
  ghost predicate Waits(c: Conn) {
    c.pc.Locking? && c.pc.j < |c.pBt| == |c.wantToLock| && (c.pc.j == c.pc.i || c.wantToLock[c.pc.j] > 0)
  }

  ghost predicate Blocked(s: Sys, t: nat)
    requires t < |s.conns|
  {
    Waits(s.conns[t]) && s.conns[t].pBt[s.conns[t].pc.j] in s.owner
  }

  /** What the source demands of the callers of Enter and Leave. */
  ghost predicate Enabled(s: Sys, t: nat, a: Action) {
    && t < |s.conns| && Ascending(s.conns[t])
    && var c := s.conns[t];
       match a
       case Enter(i) => c.pc == Idle && i < |c.pBt|
       case Leave(i) => c.pc == Idle && i < |c.pBt| && c.wantToLock[i] > 0
       case Continue(_) => c.pc != Idle && !Blocked(s, t)
  }

  /** The connection's own part of a step; `free` is the answer of a mutex_try. */
  ghost function CallConn(c: Conn, a: Action): Conn
    requires Ascending(c)
    requires !a.Continue? && a.i < |c.pBt| && (a.Leave? ==> c.wantToLock[a.i] > 0)
  {
    match a
    case Enter(i) =>
      c.(wantToLock := c.wantToLock[i := c.wantToLock[i] + 1], pc := if c.locked[i] then Idle else Trying(i))
    case Leave(i) =>
      c.(wantToLock := c.wantToLock[i := c.wantToLock[i] - 1],
         locked := if c.wantToLock[i] == 1 then c.locked[i := false] else c.locked)
  }

  ghost function StepConn(c: Conn, free: bool): Conn
    requires Ascending(c)
  {
    match c.pc
    case Idle => c
    case Trying(i) =>
      if free && i < |c.pBt| then c.(locked := c.locked[i := true], pc := Idle) else c.(pc := Unlocking(i, i + 1))
    case Unlocking(i, j) =>
      if j >= |c.pBt| then c.(pc := Locking(i, i))
      else c.(locked := c.locked[j := false], pc := Unlocking(i, j + 1))
    case Locking(i, j) =>
      if j >= |c.pBt| then c.(pc := Idle)
      else c.(locked := if Waits(c) then c.locked[j := true] else c.locked, pc := Locking(i, j + 1))
  }

  ghost predicate TrySucceeds(s: Sys, c: Conn, tryFails: bool) {
    !tryFails && c.pc.Trying? && c.pc.i < |c.pBt| && c.pBt[c.pc.i] !in s.owner
  }

  ghost function NextConn(s: Sys, t: nat, a: Action): Conn
    requires Enabled(s, t, a)
  {
    var c := s.conns[t];
    if !a.Continue? then CallConn(c, a) else StepConn(c, TrySucceeds(s, c, a.tryFails))
  }

  /** What a step does to the mutexes: nothing, or take or give the mutex of Btree k. */
  datatype Effect = Nothing | Take(k: nat) | Give(k: nat)

  ghost function EffectOf(s: Sys, t: nat, a: Action): Effect
    requires Enabled(s, t, a)
  {
    var c := s.conns[t];
    match a
    case Enter(i) => Nothing
    case Leave(i) => if c.wantToLock[i] == 1 then Give(i) else Nothing
    case Continue(tryFails) =>
      match c.pc
      case Idle => Nothing
      case Trying(i) => if TrySucceeds(s, c, tryFails) then Take(i) else Nothing
      case Unlocking(i, j) => if j < |c.pBt| && c.locked[j] then Give(j) else Nothing
      case Locking(i, j) => if Waits(c) then Take(j) else Nothing
  }

  /** One atomic step of thread t. */
  ghost function Next(s: Sys, t: nat, a: Action): Sys
    requires Enabled(s, t, a)
  {
    var pBt := s.conns[t].pBt;
    var conns := s.conns[t := NextConn(s, t, a)];
    match EffectOf(s, t, a)
    case Nothing => s.(conns := conns)
    case Take(k) => Sys(conns, s.owner[pBt[k] := t], s.db[pBt[k] := t])
    case Give(k) => s.(conns := conns, owner := s.owner - {pBt[k]})
  }

  // ----- the invariant

  /** How `locked` stands to `wantToLock` for Btree k, depending on where the thread is. */
  ghost predicate FlagsAt(c: Conn, k: nat)
    requires k < |c.pBt| == |c.wantToLock| == |c.locked|
  {
    var want := c.wantToLock[k] > 0;
    match c.pc
    case Idle => c.locked[k] == want
    case Trying(i) => if k == i then want && !c.locked[k] else c.locked[k] == want
    case Unlocking(i, j) =>
      if k == i then want && !c.locked[k]
      else if i < k < j then !c.locked[k]
      else c.locked[k] == want
    case Locking(i, j) =>
      && (k == i ==> want)
      && if k < j then c.locked[k] == want else !c.locked[k]
  }

  ghost predicate ConnOk(c: Conn) {
    && Ascending(c)
    && (c.pc.Trying? ==> c.pc.i < |c.pBt|)
    && (c.pc.Unlocking? ==> c.pc.i < c.pc.j <= |c.pBt|)
    && (c.pc.Locking? ==> c.pc.i <= c.pc.j <= |c.pBt| && c.pc.i < |c.pBt|)
    && forall k :: 0 <= k < |c.pBt| ==> FlagsAt(c, k)
  }

  /** The flags say who owns what: a locked Btree's mutex is owned by its thread, with
      BtShared.db set to it, and an owned mutex is a locked Btree of its owner. */
  ghost predicate OwnsAt(s: Sys, t: nat, k: nat)
    requires t < |s.conns| && k < |s.conns[t].pBt| == |s.conns[t].locked|
  {
    var a := s.conns[t].pBt[k];
    && (s.conns[t].locked[k] <==> a in s.owner && s.owner[a] == t)
    && (s.conns[t].locked[k] ==> a in s.db && s.db[a] == t)
  }

  ghost predicate Ownership(s: Sys) {
    && (forall t :: 0 <= t < |s.conns| ==> Ascending(s.conns[t]))
    && (forall t, k :: 0 <= t < |s.conns| && 0 <= k < |s.conns[t].pBt| ==> OwnsAt(s, t, k))
    && (forall a :: a in s.owner ==> OwnedAt(s, a))
  }

  ghost predicate OwnedAt(s: Sys, a: nat)
    requires a in s.owner
  {
    s.owner[a] < |s.conns| && a in s.conns[s.owner[a]].pBt
  }

  ghost predicate Sound(s: Sys) {
    Ownership(s) && forall t :: 0 <= t < |s.conns| ==> ConnOk(s.conns[t])
  }

  lemma CallKeeps(c: Conn, a: Action)
    requires ConnOk(c) && c.pc == Idle
    requires !a.Continue? && a.i < |c.pBt| && (a.Leave? ==> c.wantToLock[a.i] > 0)
    ensures ConnOk(CallConn(c, a))
  {
    var c' := CallConn(c, a);
    forall k | 0 <= k < |c'.pBt|
      ensures FlagsAt(c', k)
    {
      assert FlagsAt(c, k);
    }
  }

  lemma StepKeepsFlags(c: Conn, free: bool)
    requires ConnOk(c)
    ensures ConnOk(StepConn(c, free))
  {
    var c' := StepConn(c, free);
    forall k | 0 <= k < |c'.pBt|
      ensures FlagsAt(c', k)
    {
      assert FlagsAt(c, k);
    }
  }

  lemma ConnKeeps(s: Sys, t: nat, a: Action)
    requires Sound(s) && Enabled(s, t, a)
    ensures ConnOk(NextConn(s, t, a))
  {
    if a.Continue? {
      StepKeepsFlags(s.conns[t], TrySucceeds(s, s.conns[t], a.tryFails));
    } else {
      CallKeeps(s.conns[t], a);
    }
  }

  /** Thread t takes or gives the mutex of its Btree j, or touches none, while its
      connection becomes c'. */
  lemma TakeKeeps(s: Sys, s': Sys, t: nat, j: nat, c': Conn)
    requires Ownership(s) && t < |s.conns| && j < |s.conns[t].pBt|
    requires Ascending(c') && c'.pBt == s.conns[t].pBt && c'.locked == s.conns[t].locked[j := true]
    requires s.conns[t].pBt[j] !in s.owner
    requires s' == Sys(s.conns[t := c'], s.owner[c'.pBt[j] := t], s.db[c'.pBt[j] := t])
    ensures Ownership(s')
  {
    forall u, k | 0 <= u < |s'.conns| && 0 <= k < |s'.conns[u].pBt|
      ensures OwnsAt(s', u, k)
    {
      assert OwnsAt(s, u, k);
    }
    forall a | a in s'.owner
      ensures OwnedAt(s', a)
    {
      assert a in s.owner ==> OwnedAt(s, a);
    }
  }

  lemma GiveKeeps(s: Sys, s': Sys, t: nat, j: nat, c': Conn)
    requires Ownership(s) && t < |s.conns| && j < |s.conns[t].pBt|
    requires Ascending(c') && c'.pBt == s.conns[t].pBt && c'.locked == s.conns[t].locked[j := false]
    requires s.conns[t].locked[j]
    requires s' == s.(conns := s.conns[t := c'], owner := s.owner - {c'.pBt[j]})
    ensures Ownership(s')
  {
    assert OwnsAt(s, t, j);
    forall u, k | 0 <= u < |s'.conns| && 0 <= k < |s'.conns[u].pBt|
      ensures OwnsAt(s', u, k)
    {
      assert OwnsAt(s, u, k);
    }
    forall a | a in s'.owner
      ensures OwnedAt(s', a)
    {
      assert OwnedAt(s, a);
    }
  }

  lemma LocalKeeps(s: Sys, s': Sys, t: nat, c': Conn)
    requires Ownership(s) && t < |s.conns|
    requires Ascending(c') && c'.pBt == s.conns[t].pBt && c'.locked == s.conns[t].locked
    requires s' == s.(conns := s.conns[t := c'])
    ensures Ownership(s')
  {
    forall u, k | 0 <= u < |s'.conns| && 0 <= k < |s'.conns[u].pBt|
      ensures OwnsAt(s', u, k)
    {
      assert OwnsAt(s, u, k);
    }
    forall a | a in s'.owner
      ensures OwnedAt(s', a)
    {
      assert OwnedAt(s, a);
    }
  }

  /** A step takes only a mutex nobody holds, gives only one it holds, and its locked flags
      follow. */
  lemma EffectOnFlags(s: Sys, t: nat, a: Action)
    requires Sound(s) && Enabled(s, t, a)
    ensures var c, c', e := s.conns[t], NextConn(s, t, a), EffectOf(s, t, a);
      && c'.pBt == c.pBt
      && (e != Nothing ==> e.k < |c.pBt| && c'.locked == c.locked[e.k := e.Take?])
      && (e == Nothing ==> c'.locked == c.locked)
      && (e.Take? ==> c.pBt[e.k] !in s.owner)
      && (e.Give? ==> c.locked[e.k])
  {
    assert ConnOk(s.conns[t]);
    if a.Leave? {
      assert FlagsAt(s.conns[t], a.i);
    }
  }

  lemma OwnershipKeeps(s: Sys, t: nat, a: Action)
    requires Sound(s) && Enabled(s, t, a)
    ensures Ownership(Next(s, t, a))
  {
    EffectOnFlags(s, t, a);
    ConnKeeps(s, t, a);
    var s', c' := Next(s, t, a), NextConn(s, t, a);
    match EffectOf(s, t, a) {
      case Nothing => LocalKeeps(s, s', t, c');
      case Take(k) => TakeKeeps(s, s', t, k, c');
      case Give(k) => GiveKeeps(s, s', t, k, c');
    }
  }

  lemma StepKeeps(s: Sys, t: nat, a: Action)
    requires Sound(s) && Enabled(s, t, a)
    ensures Sound(Next(s, t, a))
  {
    ConnKeeps(s, t, a);
    OwnershipKeeps(s, t, a);
  }

  // ----- runs

  ghost predicate Initial(s: Sys) {
    && s.owner == map[]
    && forall t :: 0 <= t < |s.conns| ==> Fresh(s.conns[t])
  }

  ghost predicate Fresh(c: Conn) {
    && Ascending(c) && c.pc == Idle
    && forall k :: 0 <= k < |c.pBt| ==> c.wantToLock[k] == 0 && !c.locked[k]
  }

  ghost predicate Run(states: seq<Sys>, sched: seq<(nat, Action)>) {
    && |states| == |sched| + 1 && Initial(states[0])
    && forall i :: 0 <= i < |sched| ==> Follows(states, sched, i)
  }

  ghost predicate Follows(states: seq<Sys>, sched: seq<(nat, Action)>, i: nat)
    requires i < |sched| < |states|
  {
    Enabled(states[i], sched[i].0, sched[i].1) && states[i + 1] == Next(states[i], sched[i].0, sched[i].1)
  }

  lemma {:induction false} EveryStateSound(states: seq<Sys>, sched: seq<(nat, Action)>, i: nat)
    requires Run(states, sched) && i < |states|
    ensures Sound(states[i])
  {
    if i == 0 {
      var s := states[0];
      forall t | 0 <= t < |s.conns|
        ensures ConnOk(s.conns[t])
      {
        assert Fresh(s.conns[t]);
      }
      forall t, k | 0 <= t < |s.conns| && 0 <= k < |s.conns[t].pBt|
        ensures OwnsAt(s, t, k)
      {
        assert Fresh(s.conns[t]);
      }
    } else {
      EveryStateSound(states, sched, i - 1);
      assert Follows(states, sched, i - 1);
      StepKeeps(states[i - 1], sched[i - 1].0, sched[i - 1].1);
    }
  }

  // ----- what the invariant is for

  /** A thread that waits for a mutex holds only mutexes with smaller addresses; in
      particular it never waits for itself. */
  lemma HoldsOnlySmaller(s: Sys, t: nat, a: nat)
    requires Sound(s) && t < |s.conns| && Waits(s.conns[t])
    requires a in s.owner && s.owner[a] == t
    ensures a < s.conns[t].pBt[s.conns[t].pc.j]
  {
    var c := s.conns[t];
    assert ConnOk(c);
    assert OwnedAt(s, a);
    var k :| 0 <= k < |c.pBt| && c.pBt[k] == a;
    assert OwnsAt(s, t, k) && FlagsAt(c, k);
  }

  /** From a blocked thread the chain of mutex owners climbs to a thread that can run. */
  lemma {:induction false} OwnerChainEnds(s: Sys, t: nat, bound: nat) returns (u: nat)
    requires Sound(s) && t < |s.conns| && Blocked(s, t)
    requires forall a :: a in s.owner ==> a < bound
    ensures u < |s.conns| && !Blocked(s, u)
    ensures exists a :: a in s.owner && s.owner[a] == u
    decreases bound - s.conns[t].pBt[s.conns[t].pc.j]
  {
    var a := s.conns[t].pBt[s.conns[t].pc.j];
    assert OwnedAt(s, a);
    u := s.owner[a];
    if Blocked(s, u) {
      HoldsOnlySmaller(s, u, a);
      u := OwnerChainEnds(s, u, bound);
    }
  }

  lemma {:induction false} Bounded(m: map<nat, nat>) returns (bound: nat)
    ensures forall a :: a in m ==> a < bound
    decreases |m.Keys|
  {
    if m.Keys == {} {
      bound := 0;
    } else {
      var x :| x in m.Keys;
      var rest := m - {x};
      assert rest.Keys == m.Keys - {x};
      var b := Bounded(rest);
      bound := if b <= x then x + 1 else b;
      assert forall a :: a in m ==> a == x || a in rest;
    }
  }

  /** Never a deadlock: in every state of every run some thread is not blocked, and if any
      thread is blocked, such a thread is to be found among the mutex holders. */
  lemma NeverDeadlock(states: seq<Sys>, sched: seq<(nat, Action)>, i: nat) returns (u: nat)
    requires Run(states, sched) && i < |states| && 0 < |states[i].conns|
    ensures u < |states[i].conns| && !Blocked(states[i], u)
    ensures (exists t :: 0 <= t < |states[i].conns| && Blocked(states[i], t)) ==>
      exists a :: a in states[i].owner && states[i].owner[a] == u
  {
    var s := states[i];
    EveryStateSound(states, sched, i);
    if t :| 0 <= t < |s.conns| && Blocked(s, t) {
      var bound := Bounded(s.owner);
      u := OwnerChainEnds(s, t, bound);
    } else {
      u := 0;
    }
  }

  /** In every state of every run, a connection that is not inside a call has locked exactly the
      Btrees it wants, owns exactly their mutexes among those of its list, and BtShared.db says
      so. */
  lemma IdleFlags(states: seq<Sys>, sched: seq<(nat, Action)>, i: nat, t: nat, k: nat)
    requires Run(states, sched) && i < |states| && t < |states[i].conns|
    requires states[i].conns[t].pc == Idle && k < |states[i].conns[t].pBt|
    ensures var s := states[i]; var c := s.conns[t];
      && |c.locked| == |c.wantToLock| == |c.pBt|
      && (c.locked[k] <==> c.wantToLock[k] > 0)
      && (c.wantToLock[k] > 0 <==> c.pBt[k] in s.owner && s.owner[c.pBt[k]] == t)
      && (c.wantToLock[k] > 0 ==> c.pBt[k] in s.db && s.db[c.pBt[k]] == t)
  {
    EveryStateSound(states, sched, i);
    assert ConnOk(states[i].conns[t]) && FlagsAt(states[i].conns[t], k) && OwnsAt(states[i], t, k);
  }

  /** Calls of Enter that thread t has made for its Btree k so far, less its calls of Leave. */
  ghost function Uses(sched: seq<(nat, Action)>, i: nat, t: nat, k: nat): int
    requires i <= |sched|
  {
    if i == 0 then 0
    else
      var (u, a) := sched[i - 1];
      Uses(sched, i - 1, t, k) +
      if u == t && a == Enter(k) then 1 else if u == t && a == Leave(k) then -1 else 0
  }

  /** In every state of every run wantToLock counts the calls of Enter that have not been matched
      by a Leave. */
  lemma {:induction false} WantsCount(states: seq<Sys>, sched: seq<(nat, Action)>, i: nat, t: nat, k: nat)
    requires Run(states, sched) && i < |states|
    requires t < |states[0].conns| && k < |states[0].conns[t].pBt|
    ensures |states[i].conns| == |states[0].conns| && states[i].conns[t].pBt == states[0].conns[t].pBt
    ensures |states[i].conns[t].wantToLock| == |states[0].conns[t].pBt|
    ensures states[i].conns[t].wantToLock[k] == Uses(sched, i, t, k)
  {
    if i == 0 {
      assert Fresh(states[0].conns[t]);
    } else {
      WantsCount(states, sched, i - 1, t, k);
      assert Follows(states, sched, i - 1);
    }
  }

  /** So a Btree that a thread has entered stays locked, and its mutex the thread's, between calls
      until the outermost Enter has been matched; and no longer. */
  lemma LockedWhileInUse(states: seq<Sys>, sched: seq<(nat, Action)>, i: nat, t: nat, k: nat)
    requires Run(states, sched) && i < |states|
    requires t < |states[0].conns| && k < |states[0].conns[t].pBt|
    ensures t < |states[i].conns| && k < |states[i].conns[t].locked|
    ensures states[i].conns[t].pc == Idle ==>
      var s, a := states[i], states[0].conns[t].pBt[k];
      && (s.conns[t].locked[k] <==> Uses(sched, i, t, k) > 0)
      && (Uses(sched, i, t, k) > 0 <==> a in s.owner && s.owner[a] == t)
  {
    WantsCount(states, sched, i, t, k);
    EveryStateSound(states, sched, i);
    assert ConnOk(states[i].conns[t]);
    if states[i].conns[t].pc == Idle {
      IdleFlags(states, sched, i, t, k);
    }
  }

  /** Steps a thread still has to make before its call returns. */
  ghost function StepsLeft(c: Conn): nat
    requires Ascending(c)
  {
    var n := |c.pBt|;
    match c.pc
    case Idle => 0
    case Trying(i) => 2 * n + 5
    case Unlocking(i, j) => n + 3 + if j <= n then n + 1 - j else 0
    case Locking(i, j) => 1 + if j <= n then n - j else 0
  }

  /** A thread that is not blocked gets closer to the end of its call with each step. */
  lemma StepsGoDown(c: Conn, free: bool)
    requires ConnOk(c) && c.pc != Idle
    ensures Ascending(StepConn(c, free)) && StepsLeft(StepConn(c, free)) < StepsLeft(c)
  {
  }

  // ----- the calls as a whole

  /** The state in which a call returns, given the answer of its mutex_try. */
  ghost function Finish(c: Conn, free: bool): Conn
    requires ConnOk(c)
    decreases StepsLeft(c)
  {
    if c.pc == Idle then c
    else
      StepKeepsFlags(c, free);
      StepsGoDown(c, free);
      Finish(StepConn(c, free), free)
  }

  /** Going on with a call changes no count. */
  lemma {:induction false} FinishCounts(c: Conn, free: bool)
    requires ConnOk(c)
    ensures Finish(c, free).wantToLock == c.wantToLock && Finish(c, free).pBt == c.pBt
    decreases StepsLeft(c)
  {
    if c.pc == Idle {
    } else {
      StepKeepsFlags(c, free);
      StepsGoDown(c, free);
      FinishCounts(StepConn(c, free), free);
    }
  }

  ghost function AfterEnter(c: Conn, i: nat, free: bool): Conn
    requires ConnOk(c) && c.pc == Idle && i < |c.pBt|
  {
    CallKeeps(c, Enter(i));
    Finish(CallConn(c, Enter(i)), free)
  }

  lemma BetweenCalls(c: Conn)
    requires ConnOk(c) && c.pc == Idle
    ensures forall k :: 0 <= k < |c.pBt| ==> (c.locked[k] <==> c.wantToLock[k] > 0)
  {
    forall k | 0 <= k < |c.pBt|
      ensures c.locked[k] <==> c.wantToLock[k] > 0
    {
      assert FlagsAt(c, k);
    }
  }

  /** The Btree list of one connection, with sqlite3BtreeEnter and sqlite3BtreeLeave. */
  class BtreeList {
    const pBt: seq<nat>
    var wantToLock: seq<nat>
    var locked: seq<bool>

    constructor (addresses: seq<nat>)
      requires forall j, k :: 0 <= j < k < |addresses| ==> addresses[j] < addresses[k]
      ensures Fresh(Value()) && pBt == addresses
    {
      pBt := addresses;
      wantToLock := seq(|addresses|, _ => 0);
      locked := seq(|addresses|, _ => false);
    }

    ghost function Value(): Conn
      reads this
    {
      Conn(pBt, wantToLock, locked, Idle)
    }

    /** sqlite3BtreeEnter.  `free` is whether the try succeeds; a blocking lock returns once
        the mutex is ours. */
    method BtreeEnter(i: nat, free: bool)
      requires ConnOk(Value()) && i < |pBt|
      modifies this
      ensures ConnOk(Value())
      ensures Value() == AfterEnter(old(Value()), i, free)
      ensures wantToLock == old(wantToLock)[i := old(wantToLock)[i] + 1]
      ensures forall k :: 0 <= k < |pBt| ==> (locked[k] <==> wantToLock[k] > 0)
    {
      CallKeeps(Value(), Action.Enter(i));
      ghost var c := CallConn(Value(), Action.Enter(i));
      wantToLock := wantToLock[i := wantToLock[i] + 1];
      if locked[i] {
        BetweenCalls(Value());
        return;
      }
      FinishCounts(c, free);
      LockCarefully(i, free, c);
      BetweenCalls(Value());
    }

    /** btreeLockCarefully. */
    method LockCarefully(i: nat, free: bool, ghost c: Conn)
      requires i < |pBt| && ConnOk(c) && c == Value().(pc := Trying(i))
      modifies this
      ensures ConnOk(Value()) && Value() == Finish(c, free)
    {
      StepKeepsFlags(c, free);
      if free {
        locked := locked[i := true];
        return;
      }
      var j := i + 1;
      ghost var at := StepConn(c, free);
      while j < |pBt|
        invariant i < j <= |pBt|
        invariant at == Value().(pc := Unlocking(i, j)) && ConnOk(at)
        invariant Finish(at, free) == Finish(c, free)
      {
        StepKeepsFlags(at, free);
        at := StepConn(at, free);
        if locked[j] {
          locked := locked[j := false];
        }
        j := j + 1;
      }
      StepKeepsFlags(at, free);
      at := StepConn(at, free);
      Relock(i, free, at);
    }

    /** Acquire Btree i and then, in ascending order, the later ones still wanted. */
    method Relock(i: nat, free: bool, ghost c: Conn)
      requires i < |pBt| && ConnOk(c) && c == Value().(pc := Locking(i, i))
      modifies this
      ensures ConnOk(Value()) && Value() == Finish(c, free)
    {
      ghost var at := StepConn(c, free);
      StepKeepsFlags(c, free);
      locked := locked[i := true];
      var j := i + 1;
      while j < |pBt|
        invariant i < j <= |pBt|
        invariant at == Value().(pc := Locking(i, j)) && ConnOk(at)
        invariant Finish(at, free) == Finish(c, free)
      {
        StepKeepsFlags(at, free);
        at := StepConn(at, free);
        if wantToLock[j] > 0 {
          locked := locked[j := true];
        }
        j := j + 1;
      }
      StepKeepsFlags(at, free);
    }

    /** sqlite3BtreeLeave. */
    method BtreeLeave(i: nat)
      requires ConnOk(Value()) && i < |pBt| && wantToLock[i] > 0
      modifies this
      ensures ConnOk(Value())
      ensures Value() == CallConn(old(Value()), Action.Leave(i))
      ensures wantToLock == old(wantToLock)[i := old(wantToLock)[i] - 1]
      ensures forall k :: 0 <= k < |pBt| ==> (locked[k] <==> wantToLock[k] > 0)
    {
      CallKeeps(Value(), Action.Leave(i));
      wantToLock := wantToLock[i := wantToLock[i] - 1];
      if wantToLock[i] == 0 {
        locked := locked[i := false];
      }
      BetweenCalls(Value());
    }
  }
}
