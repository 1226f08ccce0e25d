/** Shared-cache table locks and transactions: any number of Btree handles on one BtShared.

    Every operation runs under the BtShared mutex, so a run of the system is a sequence of
    whole operations by arbitrary handles. */
module SharedCache {

  type Handle = nat
  type Table = nat

  const MASTER_ROOT: Table := 1

  datatype Trans = NoTrans | ReadTrans | WriteTrans
  datatype LockKind = ReadLock | WriteLock
  datatype Option<T> = None | Some(value: T)
  datatype Rc = Ok | Locked | ReadOnly | PagerError

  /** What the handles and the shared object record, with the lock list as a table.
      Handles that read uncommitted data take no read locks on tables. */
  datatype Db = Db(
    trans: map<Handle, Trans>,
    inTransaction: Trans,
    locks: map<(Handle, Table), LockKind>,
    writer: Option<Handle>,
    exclusive: bool,
    pending: bool,
    nTransaction: int)

  ghost function Open(s: Db): set<Handle> {
    set h | h in s.trans && s.trans[h] != NoTrans
  }

  ghost predicate LockSound(s: Db, h: Handle, t: Table)
    requires (h, t) in s.locks
  {
    && h in Open(s)
    && (s.locks[(h, t)] == WriteLock ==> s.writer == Some(h))
    && (s.exclusive ==> s.writer == Some(h))
  }

  /** What every reachable state satisfies. */
  ghost predicate Inv(s: Db) {
    && (forall h, t :: (h, t) in s.locks ==> LockSound(s, h, t))
    && (forall h :: h in s.trans ==> (h in Open(s) <==> (h, MASTER_ROOT) in s.locks))
    && (forall h :: h in s.trans ==> (s.trans[h] == WriteTrans <==> s.writer == Some(h)))
    && (s.writer.Some? ==> s.writer.value in s.trans)
    && (s.inTransaction == WriteTrans <==> s.writer.Some?)
    && (s.inTransaction == NoTrans <==> s.nTransaction == 0)
    && s.nTransaction == |Open(s)|
    && (s.exclusive ==> s.writer.Some?)
    && (s.pending ==> s.writer.Some? && s.nTransaction >= 2)
  }

  /** No two handles hold conflicting locks on one table. */
  ghost predicate Compatible(s: Db) {
    forall g, h, t :: g != h && (g, t) in s.locks && (h, t) in s.locks ==> s.locks[(g, t)] == ReadLock
  }

  // ----- operations, by what they achieve

  /** Another handle's lock that is incompatible with the requested one. */
  ghost predicate Conflict(s: Db, h: Handle, t: Table, k: LockKind, other: Handle) {
    other != h && (other, t) in s.locks && (k == WriteLock || s.locks[(other, t)] == WriteLock)
  }

  ghost predicate Grantable(s: Db, h: Handle, t: Table, k: LockKind) {
    && !(s.exclusive && s.writer != Some(h))
    && !exists o :: Conflict(s, h, t, k, o)
  }

  function Stronger(a: LockKind, b: LockKind): LockKind {
    if a == WriteLock then a else b
  }

  /** sqlite3BtreeLockTable on a sharable handle. */
  ghost function LockTable(s: Db, h: Handle, t: Table, k: LockKind): (Db, Rc) {
    if Grantable(s, h, t, k) then
      var held := if (h, t) in s.locks then s.locks[(h, t)] else ReadLock;
      (s.(locks := s.locks[(h, t) := Stronger(held, k)]), Ok)
    else
      (if k == WriteLock && !(s.exclusive && s.writer != Some(h)) then s.(pending := true) else s, Locked)
  }

  /** What BeginTrans must wait for. */
  ghost predicate Blocked(s: Db, h: Handle, wrflag: nat) {
    || (wrflag > 0 && s.inTransaction == WriteTrans)
    || s.pending
    || (wrflag > 1 && exists o, t :: (o, t) in s.locks && o != h)
    || !Grantable(s, h, MASTER_ROOT, ReadLock)
  }

  ghost predicate AlreadyBegun(s: Db, h: Handle, wrflag: nat)
    requires h in s.trans
  {
    s.trans[h] == WriteTrans || (s.trans[h] == ReadTrans && wrflag == 0)
  }

  /** A handle without a transaction opens a read transaction. */
  ghost function Opened(s: Db, h: Handle): Db
    requires h in s.trans
  {
    s.(trans := s.trans[h := ReadTrans],
       nTransaction := s.nTransaction + 1,
       locks := s.locks[(h, MASTER_ROOT) := ReadLock],
       inTransaction := if s.inTransaction == WriteTrans then WriteTrans else ReadTrans)
  }

  /** A handle with a read transaction becomes the writer. */
  ghost function Writing(s: Db, h: Handle, exclusive: bool): Db
    requires h in s.trans
  {
    s.(trans := s.trans[h := WriteTrans], inTransaction := WriteTrans, writer := Some(h), exclusive := exclusive)
  }

  ghost function Begun(s: Db, h: Handle, wrflag: nat): Db
    requires h in s.trans
  {
    var reading := if s.trans[h] == NoTrans then Opened(s, h) else s;
    if wrflag > 0 then Writing(reading, h, wrflag > 1) else reading
  }

  /** sqlite3BtreeBeginTrans.  `readOnly` and `pager` stand for the file's mode and for the
      outcome of locking it, which this layer does not control. */
  ghost function BeginTrans(s: Db, h: Handle, wrflag: nat, readOnly: bool, pager: bool): (Db, Rc)
    requires h in s.trans
  {
    if AlreadyBegun(s, h, wrflag) then (s, Ok)
    else if readOnly && wrflag > 0 then (s, ReadOnly)
    else if Blocked(s, h, wrflag) then (s, Locked)
    else if !pager then (s, PagerError)
    else (Begun(s, h, wrflag), Ok)
  }

  /** The end of a transaction, by commit or rollback.  With other statements of the
      connection still reading, the handle keeps a read transaction. */
  ghost function EndTrans(s: Db, h: Handle, stillReading: bool): Db
    requires h in s.trans
  {
    if s.trans[h] == NoTrans then s
    else if stillReading then Downgraded(s, h)
    else Concluded(s, h)
  }

  ghost function Downgraded(s: Db, h: Handle): Db
    requires h in s.trans
  {
    if s.writer == Some(h) then
      s.(trans := s.trans[h := ReadTrans],
         inTransaction := ReadTrans,
         locks := map key | key in s.locks :: ReadLock,
         writer := None, exclusive := false, pending := false)
    else s.(trans := s.trans[h := ReadTrans])
  }

  ghost function Concluded(s: Db, h: Handle): Db
    requires h in s.trans
  {
    var wrote := s.writer == Some(h);
    s.(trans := s.trans[h := NoTrans],
       locks := map key | key in s.locks && key.0 != h :: s.locks[key],
       nTransaction := s.nTransaction - 1,
       inTransaction := if s.nTransaction == 1 then NoTrans else if wrote then ReadTrans else s.inTransaction,
       writer := if wrote then None else s.writer,
       exclusive := !wrote && s.exclusive,
       pending := !wrote && s.nTransaction != 2 && s.pending)
  }

  // ----- runs

  datatype Step =
    | Begin(h: Handle, wrflag: nat, readOnly: bool, pager: bool)
    | Lock(h: Handle, t: Table, k: LockKind)
    | End(h: Handle, stillReading: bool)

  /** What the source demands of the caller: a lock is requested inside a transaction, a
      write lock inside a write transaction. */
  ghost predicate Enabled(s: Db, a: Step) {
    match a
    case Begin(h, _, _, _) => h in s.trans
    case Lock(h, _, k) => h in s.trans && s.trans[h] != NoTrans && (k == WriteLock ==> s.trans[h] == WriteTrans)
    case End(h, _) => h in s.trans
  }

  ghost function Next(s: Db, a: Step): Db
    requires Enabled(s, a)
  {
    match a
    case Begin(h, w, ro, pager) => BeginTrans(s, h, w, ro, pager).0
    case Lock(h, t, k) => LockTable(s, h, t, k).0
    case End(h, still) => EndTrans(s, h, still)
  }

  ghost function Start(handles: set<Handle>): Db {
    Db(map h | h in handles :: NoTrans, NoTrans, map[], None, false, false, 0)
  }

  ghost predicate Run(states: seq<Db>, steps: seq<Step>, handles: set<Handle>) {
    && |states| == |steps| + 1
    && states[0] == Start(handles)
    && forall i :: 0 <= i < |steps| ==> Follows(states, steps, i)
  }

  ghost predicate Follows(states: seq<Db>, steps: seq<Step>, i: nat)
    requires i < |steps| < |states|
  {
    Enabled(states[i], steps[i]) && states[i + 1] == Next(states[i], steps[i])
  }

  // ----- the invariant

  lemma StartKeeps(handles: set<Handle>)
    ensures Inv(Start(handles))
  {
    assert Open(Start(handles)) == {};
  }

  /** The source compares lock kinds with `!=`.  In every reachable state, for every request
      it may see, that is the same as a real conflict. */
  lemma DifferentIsConflict(s: Db, h: Handle, t: Table, k: LockKind, o: Handle)
    requires Inv(s) && Enabled(s, Lock(h, t, k))
    requires o != h && (o, t) in s.locks
    ensures s.locks[(o, t)] != k <==> Conflict(s, h, t, k, o)
  {
    assert LockSound(s, o, t);
  }

  lemma LockKeeps(s: Db, h: Handle, t: Table, k: LockKind)
    requires Inv(s) && Enabled(s, Lock(h, t, k))
    ensures Inv(LockTable(s, h, t, k).0)
  {
    var s' := LockTable(s, h, t, k).0;
    assert Open(s') == Open(s);
    if Grantable(s, h, t, k) {
      forall g, u | (g, u) in s'.locks
        ensures LockSound(s', g, u)
      {
        assert (g, u) == (h, t) || LockSound(s, g, u);
        assert LockSound(s, h, MASTER_ROOT);
      }
    } else {
      forall g, u | (g, u) in s'.locks
        ensures LockSound(s', g, u)
      {
        assert LockSound(s, g, u);
      }
      if k == WriteLock {
        assert s.writer == Some(h);
        var o :| Conflict(s, h, t, k, o);
        assert LockSound(s, o, t);
        TwoOpen(s, h, o);
      }
    }
  }

  lemma TwoOpen(s: Db, g: Handle, h: Handle)
    requires g in Open(s) && h in Open(s) && g != h
    ensures |Open(s)| >= 2
  {
    assert |Open(s) - {g} - {h}| == |Open(s)| - 2;
  }

  lemma BeginKeeps(s: Db, h: Handle, wrflag: nat, readOnly: bool, pager: bool)
    requires Inv(s) && h in s.trans
    ensures Inv(BeginTrans(s, h, wrflag, readOnly, pager).0)
  {
    if !AlreadyBegun(s, h, wrflag) && !Blocked(s, h, wrflag) {
      assert forall g, u :: wrflag > 1 && (g, u) in s.locks ==> g == h;
      BegunKeeps(s, h, wrflag);
    }
  }

  lemma BegunKeeps(s: Db, h: Handle, wrflag: nat)
    requires Inv(s) && h in s.trans
    requires !AlreadyBegun(s, h, wrflag)
    requires wrflag > 0 ==> s.writer == None
    requires !s.pending && !s.exclusive
    requires forall g, u :: wrflag > 1 && (g, u) in s.locks ==> g == h
    ensures Inv(Begun(s, h, wrflag))
  {
    if s.trans[h] == NoTrans {
      OpenedKeeps(s, h);
    }
    var reading := if s.trans[h] == NoTrans then Opened(s, h) else s;
    if wrflag > 0 {
      WritingKeeps(reading, h, wrflag > 1);
    }
  }

  lemma OpenedKeeps(s: Db, h: Handle)
    requires Inv(s) && h in s.trans && s.trans[h] == NoTrans && !s.exclusive
    ensures Inv(Opened(s, h))
  {
    var s' := Opened(s, h);
    assert Open(s') == Open(s) + {h};
    forall g, u | (g, u) in s'.locks
      ensures LockSound(s', g, u)
    {
      assert (g, u) == (h, MASTER_ROOT) || LockSound(s, g, u);
    }
  }

  lemma WritingKeeps(s: Db, h: Handle, exclusive: bool)
    requires Inv(s) && h in s.trans && s.trans[h] == ReadTrans && s.writer == None
    requires forall g, u :: exclusive && (g, u) in s.locks ==> g == h
    ensures Inv(Writing(s, h, exclusive))
  {
    var s' := Writing(s, h, exclusive);
    assert Open(s') == Open(s);
    assert h in Open(s);
    forall g, u | (g, u) in s'.locks
      ensures LockSound(s', g, u)
    {
      assert LockSound(s, g, u);
    }
  }

  lemma EndKeeps(s: Db, h: Handle, stillReading: bool)
    requires Inv(s) && h in s.trans
    ensures Inv(EndTrans(s, h, stillReading))
  {
    if s.trans[h] != NoTrans {
      if stillReading {
        DowngradeKeeps(s, h);
      } else {
        ConcludeKeeps(s, h);
      }
    }
  }

  lemma DowngradeKeeps(s: Db, h: Handle)
    requires Inv(s) && h in s.trans && s.trans[h] != NoTrans
    ensures Inv(Downgraded(s, h))
  {
    var s' := Downgraded(s, h);
    assert Open(s') == Open(s);
    assert h in Open(s);
    forall g, u | (g, u) in s'.locks
      ensures LockSound(s', g, u)
    {
      assert LockSound(s, g, u);
    }
  }

  lemma ConcludeKeeps(s: Db, h: Handle)
    requires Inv(s) && h in s.trans && s.trans[h] != NoTrans
    ensures Inv(Concluded(s, h))
  {
    var s' := Concluded(s, h);
    assert Open(s') == Open(s) - {h};
    assert h in Open(s);
    forall g, u | (g, u) in s'.locks
      ensures LockSound(s', g, u)
    {
      assert LockSound(s, g, u);
    }
    if s'.pending {
      assert s.nTransaction > 2;
    }
    if s.writer.Some? && s.writer != Some(h) {
      assert s.writer.value in Open(s');
    }
  }

  lemma LockCompatible(s: Db, h: Handle, t: Table, k: LockKind)
    requires Inv(s) && Compatible(s) && Enabled(s, Lock(h, t, k))
    ensures Compatible(LockTable(s, h, t, k).0)
  {
    var s' := LockTable(s, h, t, k).0;
    forall f, g, u | f != g && (f, u) in s'.locks && (g, u) in s'.locks
      ensures s'.locks[(f, u)] == ReadLock
    {
      if Grantable(s, h, t, k) && u == t {
        assert !Conflict(s, h, t, k, f) && !Conflict(s, h, t, k, g);
        assert (h, t) in s.locks && f != h ==> s.locks[(h, t)] == ReadLock || s.writer == Some(h) by {
          assert (h, t) in s.locks ==> LockSound(s, h, t);
        }
      }
    }
  }

  lemma BeginCompatible(s: Db, h: Handle, wrflag: nat, readOnly: bool, pager: bool)
    requires Inv(s) && Compatible(s) && h in s.trans
    ensures Compatible(BeginTrans(s, h, wrflag, readOnly, pager).0)
  {
    var s' := BeginTrans(s, h, wrflag, readOnly, pager).0;
    forall f, g, u | f != g && (f, u) in s'.locks && (g, u) in s'.locks
      ensures s'.locks[(f, u)] == ReadLock
    {
      if !AlreadyBegun(s, h, wrflag) && !Blocked(s, h, wrflag) {
        assert !Conflict(s, h, MASTER_ROOT, ReadLock, f);
      }
    }
  }

  lemma EndCompatible(s: Db, h: Handle, stillReading: bool)
    requires Compatible(s) && h in s.trans
    ensures Compatible(EndTrans(s, h, stillReading))
  {
    var s' := EndTrans(s, h, stillReading);
    forall f, g, u | f != g && (f, u) in s'.locks && (g, u) in s'.locks
      ensures s'.locks[(f, u)] == ReadLock
    {
    }
  }

  /** Whatever any number of handles do, in whatever order, every state is sound and no two
      handles ever hold conflicting locks on one table. */
  lemma {:induction false} EveryStateSound(states: seq<Db>, steps: seq<Step>, handles: set<Handle>, i: nat)
    requires Run(states, steps, handles) && i < |states|
    ensures Inv(states[i]) && Compatible(states[i])
  {
    if i == 0 {
      StartKeeps(handles);
    } else {
      EveryStateSound(states, steps, handles, i - 1);
      assert Follows(states, steps, i - 1);
      match steps[i - 1]
      case Begin(h, w, ro, pager) =>
        BeginKeeps(states[i - 1], h, w, ro, pager);
        BeginCompatible(states[i - 1], h, w, ro, pager);
      case Lock(h, t, k) =>
        LockKeeps(states[i - 1], h, t, k);
        LockCompatible(states[i - 1], h, t, k);
      case End(h, still) =>
        EndKeeps(states[i - 1], h, still);
        EndCompatible(states[i - 1], h, still);
    }
  }

  // ----- what the invariant is for

  /** An exclusive writer is alone: no other handle has a transaction or a lock. */
  lemma ExclusiveIsAlone(s: Db)
    requires Inv(s) && s.exclusive
    ensures Open(s) == {s.writer.value} && s.nTransaction == 1
  {
    forall h | h in Open(s)
      ensures h == s.writer.value
    {
      assert LockSound(s, h, MASTER_ROOT);
    }
    assert s.writer.value in Open(s);
    assert Open(s) == {s.writer.value};
  }

  /** While a writer is waiting for read locks to clear, no handle starts or upgrades a
      transaction; and the wait is over as soon as the writer is done or is alone. */
  lemma PendingHoldsOffOthers(s: Db, h: Handle, wrflag: nat, readOnly: bool, pager: bool, stillReading: bool)
    requires Inv(s) && s.pending && h in s.trans
    ensures !AlreadyBegun(s, h, wrflag) ==>
      BeginTrans(s, h, wrflag, readOnly, pager).0 == s && BeginTrans(s, h, wrflag, readOnly, pager).1 != Ok
    ensures EndTrans(s, h, stillReading).pending <==>
      s.writer != Some(h) && (stillReading || s.trans[h] == NoTrans || |Open(s) - {h}| >= 2)
  {
    assert h in Open(s) ==> |Open(s) - {h}| == |Open(s)| - 1;
  }

  /** A writer that is the only one left gets any lock it asks for: waiting is not in vain. */
  lemma LoneWriterIsGranted(s: Db, h: Handle, t: Table, k: LockKind)
    requires Inv(s) && s.writer == Some(h) && s.nTransaction == 1
    ensures LockTable(s, h, t, k).1 == Ok
  {
    assert h in Open(s);
    forall o
      ensures !Conflict(s, h, t, k, o)
    {
      if Conflict(s, h, t, k, o) {
        assert LockSound(s, o, t);
        TwoOpen(s, h, o);
      }
    }
  }

  // ----- what the operations achieve

  /** The other handles: their transactions and locks are as they were. */
  ghost predicate OthersSame(s: Db, s': Db, h: Handle) {
    && s'.trans.Keys == s.trans.Keys && (forall g :: g in s.trans && g != h ==> s'.trans[g] == s.trans[g])
    && (forall g, t :: g != h ==> ((g, t) in s'.locks <==> (g, t) in s.locks))
    && (forall g, t :: g != h && (g, t) in s.locks ==> s'.locks[(g, t)] == s.locks[(g, t)])
  }

  /** A request that is granted: the handle has the transaction it asked for, as the one writer if
      it is to write, and alone if it asked for that; other handles are not affected.  One that is
      not granted changes nothing. */
  lemma BeginMeans(s: Db, h: Handle, wrflag: nat, readOnly: bool, pager: bool)
    requires Inv(s) && h in s.trans
    ensures var (s', rc) := BeginTrans(s, h, wrflag, readOnly, pager);
      && OthersSame(s, s', h) && s'.pending == s.pending && (rc != Ok ==> s' == s)
      && (rc == Ok ==> s'.trans[h] != NoTrans && (h, MASTER_ROOT) in s'.locks)
      && (rc == Ok && wrflag > 0 ==> s'.trans[h] == WriteTrans && s'.writer == Some(h))
      && (rc == Ok && wrflag == 0 ==> s'.writer == s.writer && s'.exclusive == s.exclusive)
      && (rc == Ok && wrflag > 0 && s.trans[h] != WriteTrans ==> (s'.exclusive <==> wrflag > 1))
      && (rc == Ok && s.trans[h] != NoTrans && wrflag == 0 ==> s' == s)
      && (s.trans[h] == WriteTrans ==> s' == s)
      && (forall t :: (h, t) in s.locks ==> (h, t) in s'.locks && s'.locks[(h, t)] == s.locks[(h, t)])
      && (forall t :: (h, t) in s'.locks && (h, t) !in s.locks ==> t == MASTER_ROOT && s'.locks[(h, t)] == ReadLock)
  {
  }

  /** When a request is granted, in terms of what the other handles have. */
  ghost predicate Free(s: Db, h: Handle, wrflag: nat) {
    && !s.pending && !s.exclusive
    && (wrflag > 0 ==> forall g :: g in s.trans ==> s.trans[g] != WriteTrans)
    && (wrflag > 1 ==> forall g :: g in s.trans && g != h ==> s.trans[g] == NoTrans)
    && forall g :: g != h && (g, MASTER_ROOT) in s.locks ==> s.locks[(g, MASTER_ROOT)] == ReadLock
  }

  /** A handle that has what it asks for already gets it; else a write to a file that can only be
      read is refused; else the request is granted, up to the lock on the file, if and only if no
      writer is waiting or exclusive, no handle is writing if it is to write, no other handle has a
      transaction if it is to be alone, and no other handle is writing the schema. */
  lemma BeginGranted(s: Db, h: Handle, wrflag: nat, readOnly: bool, pager: bool)
    requires Inv(s) && h in s.trans
    ensures var rc := BeginTrans(s, h, wrflag, readOnly, pager).1;
      if s.trans[h] == WriteTrans || (s.trans[h] == ReadTrans && wrflag == 0) then rc == Ok
      else if readOnly && wrflag > 0 then rc == ReadOnly
      else rc == if !Free(s, h, wrflag) then Locked else if pager then Ok else PagerError
  {
    if s.trans[h] == WriteTrans || (s.trans[h] == ReadTrans && wrflag == 0) || (readOnly && wrflag > 0) {
    } else {
      WriterIsWriting(s);
      OthersByLocks(s, h);
      assert s.writer != Some(h);
      assert Grantable(s, h, MASTER_ROOT, ReadLock) <==>
        !s.exclusive && forall g :: g != h && (g, MASTER_ROOT) in s.locks ==> s.locks[(g, MASTER_ROOT)] == ReadLock by {
        assert forall g :: Conflict(s, h, MASTER_ROOT, ReadLock, g) <==>
          g != h && (g, MASTER_ROOT) in s.locks && s.locks[(g, MASTER_ROOT)] != ReadLock;
      }
    }
  }

  lemma WriterIsWriting(s: Db)
    requires Inv(s)
    ensures s.inTransaction == WriteTrans <==> exists g :: g in s.trans && s.trans[g] == WriteTrans
  {
    if s.inTransaction == WriteTrans {
      assert s.trans[s.writer.value] == WriteTrans;
    }
  }

  /** Another handle has a lock if and only if another handle has a transaction. */
  lemma OthersByLocks(s: Db, h: Handle)
    requires Inv(s)
    ensures (exists o, t :: (o, t) in s.locks && o != h) <==>
      exists g :: g in s.trans && g != h && s.trans[g] != NoTrans
  {
    if o, t :| (o, t) in s.locks && o != h {
      assert LockSound(s, o, t);
    }
    if g :| g in s.trans && g != h && s.trans[g] != NoTrans {
      assert (g, MASTER_ROOT) in s.locks;
    }
  }

  /** A table lock is granted if and only if every lock that other handles have on the table, and
      the one asked for, are read locks.  Then the handle has a lock at least as strong as it asked
      for, and as strong as it had, and nothing else changes; a refused write leaves the writer
      waiting, and a refused read nothing. */
  lemma LockMeans(s: Db, h: Handle, t: Table, k: LockKind)
    requires Inv(s) && Enabled(s, Lock(h, t, k))
    ensures var (s', rc) := LockTable(s, h, t, k);
      && (rc == Ok <==> forall g :: g != h && (g, t) in s.locks ==> k == ReadLock && s.locks[(g, t)] == ReadLock)
      && (rc != Ok ==> rc == Locked && s' == s.(pending := s.pending || k == WriteLock))
      && (rc == Ok ==> s' == s.(locks := s'.locks) && OthersSame(s, s', h) && (h, t) in s'.locks)
      && (rc == Ok ==> (s'.locks[(h, t)] == WriteLock <==>
                          k == WriteLock || ((h, t) in s.locks && s.locks[(h, t)] == WriteLock)))
      && (rc == Ok ==> forall u :: u != t ==> ((h, u) in s'.locks <==> (h, u) in s.locks))
      && (rc == Ok ==> forall u :: u != t && (h, u) in s.locks ==> s'.locks[(h, u)] == s.locks[(h, u)])
  {
    assert LockSound(s, h, MASTER_ROOT);
    forall g | g != h && (g, t) in s.locks
      ensures !Conflict(s, h, t, k, g) <==> k == ReadLock && s.locks[(g, t)] == ReadLock
    {
    }
    assert s.exclusive ==> s.writer == Some(h);
    assert (exists g :: Conflict(s, h, t, k, g)) <==>
      exists g :: g != h && (g, t) in s.locks && !(k == ReadLock && s.locks[(g, t)] == ReadLock) by {
      if g :| Conflict(s, h, t, k, g) {
        assert g != h && (g, t) in s.locks && !(k == ReadLock && s.locks[(g, t)] == ReadLock);
      }
      if g :| g != h && (g, t) in s.locks && !(k == ReadLock && s.locks[(g, t)] == ReadLock) {
        assert Conflict(s, h, t, k, g);
      }
    }
  }

  /** The end of a transaction: other handles keep their transactions and locks; the handle has no
      transaction and no lock, or keeps both for reading; it is no longer the writer. */
  lemma EndMeans(s: Db, h: Handle, stillReading: bool)
    requires Inv(s) && h in s.trans
    ensures var s' := EndTrans(s, h, stillReading);
      && OthersSame(s, s', h)
      && s'.trans[h] == (if stillReading && s.trans[h] != NoTrans then ReadTrans else NoTrans)
      && (forall t :: (h, t) in s'.locks <==> (h, t) in s.locks && stillReading)
      && (forall t :: (h, t) in s'.locks ==> s'.locks[(h, t)] == ReadLock)
      && s'.writer == (if s.writer == Some(h) then None else s.writer)
      && (s'.exclusive <==> s.exclusive && s.writer != Some(h))
  {
    var s' := EndTrans(s, h, stillReading);
    forall g, t | (g, t) in s.locks
      ensures g != h && s.writer == Some(h) ==> s.locks[(g, t)] == ReadLock
      ensures s.trans[h] == NoTrans ==> g != h
      ensures s.writer != Some(h) && g == h ==> s.locks[(g, t)] == ReadLock
    {
      assert LockSound(s, g, t);
    }
  }
}
