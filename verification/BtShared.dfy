/** The BtShared object: the lock list and the flags, updated in place by the operations of
    its handles.  Each operation is proved to have the effect SharedCache gives it. */
module BtSharedModel {
  import opened SharedCache

  /** BtLock: one entry of the lock list. */
  datatype BtLock = BtLock(pBtree: Handle, iTable: Table, eLock: LockKind)

  predicate For(x: BtLock, h: Handle, t: Table) {
    x.pBtree == h && x.iTable == t
  }

  /** The list holds at most one entry per handle and table. */
  ghost predicate Unique(l: seq<BtLock>) {
    forall i, j :: 0 <= i < j < |l| ==> !For(l[j], l[i].pBtree, l[i].iTable)
  }

  /** The lock list as a table. */
  ghost function LockMap(l: seq<BtLock>): map<(Handle, Table), LockKind> {
    if l == [] then map[]
    else LockMap(l[1..])[(l[0].pBtree, l[0].iTable) := l[0].eLock]
  }

  lemma {:induction false} LockMapAt(l: seq<BtLock>, h: Handle, t: Table)
    requires Unique(l)
    ensures (h, t) in LockMap(l) <==> exists i :: 0 <= i < |l| && For(l[i], h, t)
    ensures forall i :: 0 <= i < |l| && For(l[i], h, t) ==> LockMap(l)[(h, t)] == l[i].eLock
  {
    if l == [] {
    } else {
      var r := l[1..];
      assert forall i :: 0 <= i < |r| ==> r[i] == l[i + 1];
      LockMapAt(r, h, t);
      if exists i :: 0 <= i < |r| && For(r[i], h, t) {
        var i :| 0 <= i < |r| && For(r[i], h, t);
        assert For(l[i + 1], h, t);
      }
      forall i | 0 <= i < |l| && For(l[i], h, t)
        ensures LockMap(l)[(h, t)] == l[i].eLock
      {
        if i > 0 {
          assert For(r[i - 1], h, t);
        }
      }
    }
  }

  /** Raising the entry at position i changes just that row of the table. */
  lemma {:induction false} LockMapUpdate(l: seq<BtLock>, i: nat, k: LockKind)
    requires Unique(l) && i < |l|
    ensures LockMap(l[i := l[i].(eLock := k)]) == LockMap(l)[(l[i].pBtree, l[i].iTable) := k]
  {
    var l' := l[i := l[i].(eLock := k)];
    if i == 0 {
      assert l'[1..] == l[1..];
    } else {
      LockMapUpdate(l[1..], i - 1, k);
      assert l'[1..] == l[1..][i - 1 := l[i].(eLock := k)];
      assert !For(l[i], l[0].pBtree, l[0].iTable);
    }
  }

  /** The entries of other handles, in order. */
  ghost function Others(l: seq<BtLock>, h: Handle): (r: seq<BtLock>) {
    if l == [] then [] else (if l[0].pBtree == h then [] else [l[0]]) + Others(l[1..], h)
  }

  lemma {:induction false} OthersSubset(l: seq<BtLock>, h: Handle)
    ensures forall j :: 0 <= j < |Others(l, h)| ==> Others(l, h)[j] in l
  {
    if l == [] {
    } else {
      OthersSubset(l[1..], h);
    }
  }

  lemma {:induction false} OthersUnique(l: seq<BtLock>, h: Handle)
    requires Unique(l)
    ensures Unique(Others(l, h))
  {
    if l == [] {
    } else {
      var q := Others(l[1..], h);
      OthersUnique(l[1..], h);
      OthersSubset(l[1..], h);
      forall j | 0 <= j < |q|
        ensures !For(q[j], l[0].pBtree, l[0].iTable)
      {
        assert q[j] in l[1..];
      }
    }
  }

  ghost function NotOf(m: map<(Handle, Table), LockKind>, h: Handle): map<(Handle, Table), LockKind> {
    map key | key in m && key.0 != h :: m[key]
  }

  lemma {:induction false} LockMapOthers(l: seq<BtLock>, h: Handle)
    ensures LockMap(Others(l, h)) == NotOf(LockMap(l), h)
  {
    if l == [] {
    } else {
      var q := Others(l[1..], h);
      LockMapOthers(l[1..], h);
      if l[0].pBtree == h {
        assert Others(l, h) == q;
      } else {
        assert Others(l, h)[1..] == q;
      }
    }
  }

  function Demoted(l: seq<BtLock>): (r: seq<BtLock>)
    ensures |r| == |l|
    ensures forall i :: 0 <= i < |l| ==> r[i] == l[i].(eLock := ReadLock)
  {
    if l == [] then [] else [l[0].(eLock := ReadLock)] + Demoted(l[1..])
  }

  lemma {:induction false} LockMapDemoted(l: seq<BtLock>)
    ensures LockMap(Demoted(l)) == map key | key in LockMap(l) :: ReadLock
  {
    if l == [] {
    } else {
      LockMapDemoted(l[1..]);
      assert Demoted(l)[1..] == Demoted(l[1..]);
    }
  }

  class BtShared {
    var inTrans: map<Handle, Trans>
    var inTransaction: Trans
    var pLock: seq<BtLock>
    var pWriter: Option<Handle>
    var exclusive: bool
    var pending: bool
    var nTransaction: int

    ghost function State(): Db
      reads this
    {
      Db(inTrans, inTransaction, LockMap(pLock), pWriter, exclusive, pending, nTransaction)
    }

    ghost predicate Valid()
      reads this
    {
      Unique(pLock) && Inv(State()) && Compatible(State())
    }

    constructor (handles: set<Handle>)
      ensures Valid() && State() == Start(handles)
    {
      inTrans, inTransaction, pLock := map h | h in handles :: NoTrans, NoTrans, [];
      pWriter, exclusive, pending, nTransaction := None, false, false, 0;
      StartKeeps(handles);
    }

    /** querySharedCacheTableLock. */
    method QueryLock(h: Handle, t: Table, k: LockKind) returns (rc: Rc)
      requires Valid() && h in inTrans
      requires k == WriteLock ==> inTrans[h] == WriteTrans
      modifies this`pending
      ensures rc == if Grantable(old(State()), h, t, k) then Ok else Locked
      ensures pending == (old(pending) ||
        (rc == Locked && k == WriteLock && !(exclusive && pWriter != Some(h))))
    {
      if pWriter != Some(h) && exclusive {
        return Locked;
      }
      ghost var s := State();
      var i := 0;
      while i < |pLock|
        invariant 0 <= i <= |pLock| && pending == old(pending)
        invariant forall j :: 0 <= j < i && pLock[j].pBtree != h && pLock[j].iTable == t ==> pLock[j].eLock == k
      {
        if pLock[i].pBtree != h && pLock[i].iTable == t && pLock[i].eLock != k {
          Found(s, pLock, h, t, k, i);
          if k == WriteLock {
            pending := true;
          }
          return Locked;
        }
        i := i + 1;
      }
      NotFound(s, pLock, h, t, k);
      return Ok;
    }

    /** setSharedCacheTableLock: add a lock, or raise the one already held. */
    method SetLock(h: Handle, t: Table, k: LockKind)
      requires Unique(pLock)
      modifies this`pLock
      ensures Unique(pLock)
      ensures LockMap(pLock) == old(LockMap(pLock))[(h, t) :=
        Stronger(if (h, t) in old(LockMap(pLock)) then old(LockMap(pLock))[(h, t)] else ReadLock, k)]
    {
      LockMapAt(pLock, h, t);
      var i := 0;
      while i < |pLock| && !(pLock[i].iTable == t && pLock[i].pBtree == h)
        invariant 0 <= i <= |pLock|
        invariant forall j :: 0 <= j < i ==> !For(pLock[j], h, t)
      {
        i := i + 1;
      }
      if i == |pLock| {
        pLock := [BtLock(h, t, k)] + pLock;
        assert pLock[1..] == old(pLock);
      } else if k == WriteLock {
        LockMapUpdate(pLock, i, k);
        pLock := pLock[i := pLock[i].(eLock := k)];
      }
    }

    /** clearAllSharedCacheTableLocks: unlink the handle's entries. */
    method ClearLocks(h: Handle)
      modifies this`pLock, this`pWriter, this`exclusive, this`pending
      ensures pLock == Others(old(pLock), h)
      ensures pWriter == if old(pWriter) == Some(h) then None else old(pWriter)
      ensures exclusive == (old(pWriter) != Some(h) && old(exclusive))
      ensures pending == (old(pWriter) != Some(h) && nTransaction != 2 && old(pending))
    {
      var kept: seq<BtLock> := [];
      var i := 0;
      while i < |pLock|
        invariant 0 <= i <= |pLock|
        invariant pLock == old(pLock) && pWriter == old(pWriter)
        invariant kept + Others(pLock[i..], h) == Others(pLock, h)
      {
        assert pLock[i..][1..] == pLock[i + 1..];
        if pLock[i].pBtree != h {
          kept := kept + [pLock[i]];
        }
        i := i + 1;
      }
      pLock := kept;
      if pWriter == Some(h) {
        pWriter := None;
        exclusive, pending := false, false;
      } else if nTransaction == 2 {
        pending := false;
      }
    }

    /** downgradeAllSharedCacheTableLocks. */
    method DowngradeLocks(h: Handle)
      modifies this`pLock, this`pWriter, this`exclusive, this`pending
      ensures if old(pWriter) == Some(h)
              then pLock == Demoted(old(pLock)) && pWriter == None && !exclusive && !pending
              else pLock == old(pLock) && pWriter == old(pWriter)
                   && exclusive == old(exclusive) && pending == old(pending)
    {
      if pWriter == Some(h) {
        pWriter := None;
        exclusive, pending := false, false;
        var i := 0;
        while i < |pLock|
          invariant 0 <= i <= |pLock| == |old(pLock)|
          invariant pWriter == None && !exclusive && !pending
          invariant forall j :: 0 <= j < i ==> pLock[j] == old(pLock)[j].(eLock := ReadLock)
          invariant forall j :: i <= j < |pLock| ==> pLock[j] == old(pLock)[j]
        {
          pLock := pLock[i := pLock[i].(eLock := ReadLock)];
          i := i + 1;
        }
      }
    }

    /** sqlite3BtreeLockTable on a sharable handle. */
    method LockOneTable(h: Handle, t: Table, k: LockKind) returns (rc: Rc)
      requires Valid() && Enabled(State(), Lock(h, t, k))
      modifies this
      ensures Valid()
      ensures (State(), rc) == LockTable(old(State()), h, t, k)
      ensures OthersSame(old(State()), State(), h)
      ensures rc == Ok ==> (h, t) in State().locks && (k == WriteLock ==> State().locks[(h, t)] == WriteLock)
    {
      LockMeans(State(), h, t, k);
      ghost var s := State();
      LockKeeps(s, h, t, k);
      LockCompatible(s, h, t, k);
      rc := QueryLock(h, t, k);
      if rc == Ok {
        SetLock(h, t, k);
        assert State() == LockTable(s, h, t, k).0;
      } else {
        assert State() == LockTable(s, h, t, k).0;
      }
    }

    /** sqlite3BtreeBeginTrans; `readOnly` and `pager` are the file's mode and the outcome of
        locking the file. */
    method BeginTransaction(h: Handle, wrflag: nat, readOnly: bool, pager: bool) returns (rc: Rc)
      requires Valid() && h in inTrans
      modifies this
      ensures Valid()
      ensures (State(), rc) == BeginTrans(old(State()), h, wrflag, readOnly, pager)
      ensures OthersSame(old(State()), State(), h) && (rc == Ok ==> inTrans[h] != NoTrans)
      ensures rc == Ok && wrflag > 0 ==> inTrans[h] == WriteTrans && pWriter == Some(h)
      ensures rc == Ok && wrflag > 0 && old(inTrans)[h] != WriteTrans ==> (exclusive <==> wrflag > 1)
    {
      BeginMeans(State(), h, wrflag, readOnly, pager);
      BeginKeeps(State(), h, wrflag, readOnly, pager);
      BeginCompatible(State(), h, wrflag, readOnly, pager);
      if inTrans[h] == WriteTrans || (inTrans[h] == ReadTrans && wrflag == 0) {
        return Ok;
      }
      if readOnly && wrflag > 0 {
        return ReadOnly;
      }
      if (wrflag > 0 && inTransaction == WriteTrans) || pending {
        return Locked;
      }
      if wrflag > 1 {
        var alone := OnlyOwnLocks(h);
        if !alone {
          return Locked;
        }
      }
      rc := QueryLock(h, MASTER_ROOT, ReadLock);
      if rc != Ok {
        return;
      }
      if !pager {
        return PagerError;
      }
      EnterTransaction(h, wrflag);
    }

    method OnlyOwnLocks(h: Handle) returns (alone: bool)
      requires Unique(pLock)
      ensures alone <==> !exists o, t :: (o, t) in LockMap(pLock) && o != h
    {
      for i := 0 to |pLock|
        invariant forall j :: 0 <= j < i ==> pLock[j].pBtree == h
      {
        if pLock[i].pBtree != h {
          LockMapAt(pLock, pLock[i].pBtree, pLock[i].iTable);
          assert For(pLock[i], pLock[i].pBtree, pLock[i].iTable);
          return false;
        }
      }
      forall o, t | (o, t) in LockMap(pLock)
        ensures o == h
      {
        LockMapAt(pLock, o, t);
      }
      return true;
    }

    method EnterTransaction(h: Handle, wrflag: nat)
      requires Unique(pLock) && h in inTrans
      requires inTrans[h] != WriteTrans && (inTrans[h] == ReadTrans ==> wrflag > 0)
      requires inTrans[h] == NoTrans ==> (h, MASTER_ROOT) !in LockMap(pLock)
      modifies this
      ensures Unique(pLock)
      ensures State() == Begun(old(State()), h, wrflag)
    {
      if inTrans[h] == NoTrans {
        nTransaction := nTransaction + 1;
        LockMapAt(pLock, h, MASTER_ROOT);
        pLock := [BtLock(h, MASTER_ROOT, ReadLock)] + pLock;
        assert pLock[1..] == old(pLock);
      }
      inTrans := inTrans[h := if wrflag > 0 then WriteTrans else ReadTrans];
      if inTransaction == NoTrans || inTrans[h] == WriteTrans {
        inTransaction := inTrans[h];
      }
      if wrflag > 0 {
        pWriter := Some(h);
        exclusive := wrflag > 1;
      }
    }

    /** The end of sqlite3BtreeCommitPhaseTwo and sqlite3BtreeRollback: the writer's shared
        state drops to read, then btreeEndTransaction. */
    method EndTransaction(h: Handle, stillReading: bool)
      requires Valid() && h in inTrans
      modifies this
      ensures Valid()
      ensures State() == EndTrans(old(State()), h, stillReading)
      ensures OthersSame(old(State()), State(), h) && pWriter != Some(h)
      ensures inTrans[h] == if stillReading && old(inTrans)[h] != NoTrans then ReadTrans else NoTrans
    {
      EndMeans(State(), h, stillReading);
      EndKeeps(State(), h, stillReading);
      EndCompatible(State(), h, stillReading);
      if inTrans[h] != NoTrans && stillReading {
        KeepReading(h);
      } else {
        Conclude(h);
      }
    }

    method KeepReading(h: Handle)
      requires Unique(pLock) && h in inTrans && inTrans[h] != NoTrans
      requires inTrans[h] == WriteTrans <==> pWriter == Some(h)
      modifies this
      ensures Unique(pLock) && State() == Downgraded(old(State()), h)
    {
      if inTrans[h] == WriteTrans {
        inTransaction := ReadTrans;
      }
      LockMapDemoted(pLock);
      DowngradeLocks(h);
      inTrans := inTrans[h := ReadTrans];
    }

    method Conclude(h: Handle)
      requires Unique(pLock) && h in inTrans
      requires inTrans[h] == WriteTrans <==> pWriter == Some(h)
      modifies this
      ensures Unique(pLock) && State() == EndTrans(old(State()), h, false)
    {
      if inTrans[h] == WriteTrans {
        inTransaction := ReadTrans;
      }
      if inTrans[h] != NoTrans {
        LockMapOthers(pLock, h);
        OthersUnique(pLock, h);
        ClearLocks(h);
        nTransaction := nTransaction - 1;
        if nTransaction == 0 {
          inTransaction := NoTrans;
        }
      }
      inTrans := inTrans[h := NoTrans];
    }
  }

  lemma Found(s: Db, l: seq<BtLock>, h: Handle, t: Table, k: LockKind, i: nat)
    requires Unique(l) && s.locks == LockMap(l) && Inv(s)
    requires h in s.trans && (k == WriteLock ==> s.trans[h] == WriteTrans)
    requires i < |l| && l[i].pBtree != h && l[i].iTable == t && l[i].eLock != k
    ensures !Grantable(s, h, t, k)
  {
    LockMapAt(l, l[i].pBtree, t);
    assert For(l[i], l[i].pBtree, t);
    assert Conflict(s, h, t, k, l[i].pBtree);
  }

  lemma NotFound(s: Db, l: seq<BtLock>, h: Handle, t: Table, k: LockKind)
    requires Unique(l) && s.locks == LockMap(l) && Inv(s)
    requires h in s.trans && (k == WriteLock ==> s.trans[h] == WriteTrans)
    requires !(s.exclusive && s.writer != Some(h))
    requires forall j :: 0 <= j < |l| && l[j].pBtree != h && l[j].iTable == t ==> l[j].eLock == k
    ensures Grantable(s, h, t, k)
  {
    forall o
      ensures !Conflict(s, h, t, k, o)
    {
      LockMapAt(l, o, t);
      if o != h && (o, t) in s.locks {
        assert LockSound(s, o, t);
        var i :| 0 <= i < |l| && For(l[i], o, t);
      }
    }
  }
}
