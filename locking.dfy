/** The lock manager of BufferPool.java: a lock table from page to lock record and a transaction
    inventory from transaction to the pages it has locked. Both tables are kept as one value,
    LockTables, on which every operation is a function; the LockManager class holds the two
    tables as fields and its methods are proved to perform exactly those functions. */
module Locking {
  import opened Basics

  datatype LockType = SLock | XLock

  /** A lock record (class ObjLock): its mode and its holders, an ArrayList in the source. */
  datatype ObjLock = ObjLock(lockType: LockType, holders: seq<TransactionId>)
  {
    /** tryUpgradeLock: a shared record whose only holder is tid becomes exclusive; the holder
        list is kept as it is, so the lock is never unheld during the upgrade. */
    function TryUpgradeLock(tid: TransactionId): (r: (ObjLock, bool))
      ensures r.1 <==> lockType == SLock && holders == [tid]
      ensures r.0.holders == holders
      ensures r.0.lockType == if r.1 then XLock else lockType
    {
      if lockType == SLock && |holders| == 1 && holders[0] == tid then (ObjLock(XLock, holders), true)
      else (this, false)
    }

    /** addHolder: tid joins the holders of a shared record at most once and is returned; an
        exclusive record is left alone and the answer is null (None). */
    function AddHolder(tid: TransactionId): (r: (ObjLock, Option<TransactionId>))
      ensures lockType == XLock ==> r == (this, None)
      ensures lockType == SLock ==> r.1 == Some(tid) && r.0.lockType == SLock
      ensures lockType == SLock ==> forall t :: t in r.0.holders <==> t in holders || t == tid
      ensures NoDup(holders) ==> NoDup(r.0.holders)
      ensures |holders| <= |r.0.holders| && r.0.holders[..|holders|] == holders
    {
      if lockType == SLock then
        if tid in holders then (this, Some(tid)) else (ObjLock(SLock, holders + [tid]), Some(tid))
      else (this, None)
    }
  }

  /** The lock table (page -> record) and the transaction table (transaction -> locked pages). */
  datatype LockTables = LockTables(locks: map<PageId, ObjLock>, inventory: map<TransactionId, seq<PageId>>)

  /** holdsLock: pid is in tid's inventory. */
  predicate Holds(t: LockTables, tid: TransactionId, pid: PageId) {
    tid in t.inventory && pid in t.inventory[tid]
  }

  /** tid is one of the holders of pid's lock record. */
  predicate IsHolder(t: LockTables, tid: TransactionId, pid: PageId) {
    pid in t.locks && tid in t.locks[pid].holders
  }

  /** getLockList, with an absent inventory read as the empty list. */
  function InventoryOf(t: LockTables, tid: TransactionId): seq<PageId> {
    if tid in t.inventory then t.inventory[tid] else []
  }

  /** Every record has a holder, so `getHolders().get(0)` is defined. */
  ghost predicate HoldersNonEmpty(t: LockTables) {
    forall pid | pid in t.locks :: t.locks[pid].holders != []
  }

  ghost predicate WellFormed(l: ObjLock) {
    l.holders != [] && NoDup(l.holders) && (l.lockType == XLock ==> |l.holders| == 1)
  }

  /** The manager's invariant: an exclusive record has exactly one holder, no record and no
      inventory is empty, neither list repeats an entry, and the two tables agree. */
  ghost predicate Consistent(t: LockTables) {
    && (forall pid | pid in t.locks :: WellFormed(t.locks[pid]))
    && (forall tid | tid in t.inventory :: t.inventory[tid] != [] && NoDup(t.inventory[tid]))
    && (forall tid, pid :: Holds(t, tid, pid) <==> IsHolder(t, tid, pid))
  }

  /** updateTransactionTable: pid joins tid's inventory at most once, creating it if absent. */
  function UpdateTransactionTable(inv: map<TransactionId, seq<PageId>>, tid: TransactionId, pid: PageId)
    : (r: map<TransactionId, seq<PageId>>)
    ensures r.Keys == inv.Keys + {tid}
    ensures forall other | other in inv && other != tid :: r[other] == inv[other]
    ensures forall p :: p in r[tid] <==> p == pid || (tid in inv && p in inv[tid])
    ensures tid in inv && NoDup(inv[tid]) ==> NoDup(r[tid])
    ensures tid in inv ==> |inv[tid]| <= |r[tid]| && r[tid][..|inv[tid]|] == inv[tid]
    ensures tid !in inv ==> r[tid] == [pid]
  {
    if tid in inv then
      if pid in inv[tid] then inv else inv[tid := inv[tid] + [pid]]
    else inv[tid := [pid]]
  }

  /** One evaluation of the body of acquireLock's retry loop: the lock is granted with new tables,
      or the caller must wait (block) and try again. */
  datatype AcquireStep = Granted(tables: LockTables) | MustWait

  function Acquire(t: LockTables, tid: TransactionId, pid: PageId, req: LockType): AcquireStep
    requires HoldersNonEmpty(t)
  {
    if pid in t.locks then
      var lock := t.locks[pid];
      if lock.lockType == SLock then
        if req == SLock then
          // The source runs addHolder inside an `assert` (line 123); it is executed here.
          Granted(LockTables(t.locks[pid := lock.AddHolder(tid).0], UpdateTransactionTable(t.inventory, tid, pid)))
        else if tid in t.inventory && pid in t.inventory[tid] && |lock.holders| == 1 then
          Granted(LockTables(t.locks[pid := lock.TryUpgradeLock(tid).0], t.inventory))
        else MustWait
      // Line 135 compares TransactionId references with `==`; the model compares ids.
      else if lock.holders[0] == tid then Granted(t)
      else MustWait
    else
      Granted(LockTables(t.locks[pid := ObjLock(req, [tid])], UpdateTransactionTable(t.inventory, tid, pid)))
  }

  lemma ConsistentHoldersNonEmpty(t: LockTables)
    requires Consistent(t)
    ensures HoldersNonEmpty(t)
  {
  }

  /** A request on a page without a record is granted at once: a new record with the requested
      mode and tid alone, and pid appended to tid's inventory. */
  lemma AcquireOnUnlockedPage(t: LockTables, tid: TransactionId, pid: PageId, req: LockType)
    requires Consistent(t) && pid !in t.locks
    ensures HoldersNonEmpty(t)
    ensures Acquire(t, tid, pid, req)
         == Granted(LockTables(t.locks[pid := ObjLock(req, [tid])], t.inventory[tid := InventoryOf(t, tid) + [pid]]))
  {
    assert !IsHolder(t, tid, pid);
    assert !Holds(t, tid, pid);
    if tid !in t.inventory {
      assert InventoryOf(t, tid) + [pid] == [pid];
    }
  }

  /** A shared request on a shared record is granted; tid is added to the holders and pid to its
      inventory at most once. */
  lemma AcquireSharedOnShared(t: LockTables, tid: TransactionId, pid: PageId)
    requires Consistent(t) && pid in t.locks && t.locks[pid].lockType == SLock
    ensures HoldersNonEmpty(t)
    ensures var h := t.locks[pid].holders;
            var r := Acquire(t, tid, pid, SLock);
            && r.Granted?
            && r.tables.locks == t.locks[pid := ObjLock(SLock, if tid in h then h else h + [tid])]
            && r.tables.inventory == t.inventory[tid := if tid in h then InventoryOf(t, tid) else InventoryOf(t, tid) + [pid]]
  {
    var h := t.locks[pid].holders;
    assert t.locks[pid] == ObjLock(SLock, h);
    assert Holds(t, tid, pid) <==> IsHolder(t, tid, pid);
    if tid in h {
      assert t.locks[pid := ObjLock(SLock, h)] == t.locks;
      assert t.inventory[tid := InventoryOf(t, tid)] == t.inventory;
    } else if tid !in t.inventory {
      assert InventoryOf(t, tid) + [pid] == [pid];
    }
  }

  /** An exclusive request on a shared record is granted, by upgrading in place, exactly when tid
      is the only holder; otherwise it waits and nothing changes. */
  lemma AcquireExclusiveOnShared(t: LockTables, tid: TransactionId, pid: PageId)
    requires Consistent(t) && pid in t.locks && t.locks[pid].lockType == SLock
    ensures HoldersNonEmpty(t)
    ensures Acquire(t, tid, pid, XLock)
         == if t.locks[pid].holders == [tid]
            then Granted(LockTables(t.locks[pid := ObjLock(XLock, [tid])], t.inventory))
            else MustWait
  {
    var h := t.locks[pid].holders;
    assert Holds(t, tid, pid) <==> IsHolder(t, tid, pid);
    if |h| == 1 && tid in h {
      assert h == [tid];
    }
  }

  /** Any request on an exclusive record is granted without change (re-entrant) to its holder
      and must wait for everybody else. */
  lemma AcquireOnExclusive(t: LockTables, tid: TransactionId, pid: PageId, req: LockType)
    requires Consistent(t) && pid in t.locks && t.locks[pid].lockType == XLock
    ensures HoldersNonEmpty(t)
    ensures Acquire(t, tid, pid, req) == if t.locks[pid].holders == [tid] then Granted(t) else MustWait
  {
    assert WellFormed(t.locks[pid]);
  }

  /** The request waits exactly when another transaction holds the page in a conflicting way. */
  lemma AcquireMustWaitIff(t: LockTables, tid: TransactionId, pid: PageId, req: LockType)
    requires Consistent(t)
    ensures HoldersNonEmpty(t)
    ensures Acquire(t, tid, pid, req).MustWait?
        <==> pid in t.locks && t.locks[pid].holders != [tid] && (req == XLock || t.locks[pid].lockType == XLock)
  {
    if pid in t.locks {
      if t.locks[pid].lockType == SLock {
        if req == XLock { AcquireExclusiveOnShared(t, tid, pid); }
      } else {
        AcquireOnExclusive(t, tid, pid, req);
      }
    }
  }

  /** A granted request leaves tid holding pid with at least the requested strength, and no other
      page's record and no other transaction's inventory changes. */
  lemma AcquireGrantsRequested(t: LockTables, tid: TransactionId, pid: PageId, req: LockType)
    requires Consistent(t)
    ensures HoldersNonEmpty(t)
    ensures var r := Acquire(t, tid, pid, req);
            r.Granted? ==>
              && Holds(r.tables, tid, pid) && IsHolder(r.tables, tid, pid)
              && (req == XLock ==> r.tables.locks[pid].lockType == XLock)
              && (forall p | p != pid :: (p in r.tables.locks <==> p in t.locks))
              && (forall p | p != pid && p in t.locks :: r.tables.locks[p] == t.locks[p])
              && (forall a | a != tid :: (a in r.tables.inventory <==> a in t.inventory))
              && (forall a | a != tid && a in t.inventory :: r.tables.inventory[a] == t.inventory[a])
  {
    if pid in t.locks {
      assert Holds(t, tid, pid) <==> IsHolder(t, tid, pid);
      if t.locks[pid].lockType == XLock {
        AcquireOnExclusive(t, tid, pid, req);
      } else if req == XLock {
        AcquireExclusiveOnShared(t, tid, pid);
      }
    }
  }

  lemma ConsistentAfterNewRecord(t: LockTables, tid: TransactionId, pid: PageId, req: LockType)
    requires Consistent(t) && pid !in t.locks
    ensures Consistent(LockTables(t.locks[pid := ObjLock(req, [tid])], t.inventory[tid := InventoryOf(t, tid) + [pid]]))
  {
    var r := LockTables(t.locks[pid := ObjLock(req, [tid])], t.inventory[tid := InventoryOf(t, tid) + [pid]]);
    assert !IsHolder(t, tid, pid);
    forall a, p ensures Holds(r, a, p) <==> IsHolder(r, a, p) {
      assert Holds(t, a, p) <==> IsHolder(t, a, p);
    }
    NoDupAppend(InventoryOf(t, tid), pid);
  }

  lemma ConsistentAfterSharedJoin(t: LockTables, tid: TransactionId, pid: PageId)
    requires Consistent(t) && pid in t.locks && t.locks[pid].lockType == SLock
    requires tid !in t.locks[pid].holders
    ensures Consistent(LockTables(t.locks[pid := ObjLock(SLock, t.locks[pid].holders + [tid])],
                                  t.inventory[tid := InventoryOf(t, tid) + [pid]]))
  {
    var h := t.locks[pid].holders;
    var r := LockTables(t.locks[pid := ObjLock(SLock, h + [tid])], t.inventory[tid := InventoryOf(t, tid) + [pid]]);
    assert WellFormed(t.locks[pid]);
    assert !Holds(t, tid, pid);
    forall a, p ensures Holds(r, a, p) <==> IsHolder(r, a, p) {
      assert Holds(t, a, p) <==> IsHolder(t, a, p);
    }
    NoDupAppend(h, tid);
    NoDupAppend(InventoryOf(t, tid), pid);
  }

  lemma ConsistentAfterUpgrade(t: LockTables, tid: TransactionId, pid: PageId)
    requires Consistent(t) && pid in t.locks && t.locks[pid].holders == [tid]
    ensures Consistent(LockTables(t.locks[pid := ObjLock(XLock, [tid])], t.inventory))
  {
    var r := LockTables(t.locks[pid := ObjLock(XLock, [tid])], t.inventory);
    forall a, p ensures Holds(r, a, p) <==> IsHolder(r, a, p) {
      assert Holds(t, a, p) <==> IsHolder(t, a, p);
    }
  }

  /** Every granted request keeps the manager's invariant. */
  lemma AcquirePreservesConsistent(t: LockTables, tid: TransactionId, pid: PageId, req: LockType)
    requires Consistent(t)
    ensures HoldersNonEmpty(t)
    ensures Acquire(t, tid, pid, req).Granted? ==> Consistent(Acquire(t, tid, pid, req).tables)
  {
    if pid !in t.locks {
      AcquireOnUnlockedPage(t, tid, pid, req);
      ConsistentAfterNewRecord(t, tid, pid, req);
    } else if t.locks[pid].lockType == XLock {
      AcquireOnExclusive(t, tid, pid, req);
    } else if req == SLock {
      AcquireSharedOnShared(t, tid, pid);
      if tid !in t.locks[pid].holders {
        ConsistentAfterSharedJoin(t, tid, pid);
      } else {
        assert Acquire(t, tid, pid, req) == Granted(t);
      }
    } else {
      AcquireExclusiveOnShared(t, tid, pid);
      if t.locks[pid].holders == [tid] {
        ConsistentAfterUpgrade(t, tid, pid);
      }
    }
  }

  lemma NoDupAppend<T>(s: seq<T>, x: T)
    requires NoDup(s) && x !in s
    ensures NoDup(s + [x])
  {
  }

  /** Mutual exclusion: an exclusive record is held by exactly one transaction. */
  lemma ExclusiveHasOneHolder(t: LockTables, pid: PageId, a: TransactionId, b: TransactionId)
    requires Consistent(t) && pid in t.locks && t.locks[pid].lockType == XLock
    requires Holds(t, a, pid) && Holds(t, b, pid)
    ensures a == b && t.locks[pid].holders == [a]
  {
    assert IsHolder(t, a, pid) && IsHolder(t, b, pid);
    assert WellFormed(t.locks[pid]);
  }

  /** releaseLock: tid leaves pid's holders and pid leaves tid's inventory; a record or an
      inventory that becomes empty is deleted. */
  function Release(t: LockTables, tid: TransactionId, pid: PageId): LockTables {
    var inventory :=
      if tid in t.inventory then
        var pages := RemoveFirst(t.inventory[tid], pid);
        if pages == [] then t.inventory - {tid} else t.inventory[tid := pages]
      else t.inventory;
    var locks :=
      if pid in t.locks then
        var holders := RemoveFirst(t.locks[pid].holders, tid);
        // The source wakes waiters (notifyAll) only when the record survives.
        if holders == [] then t.locks - {pid} else t.locks[pid := t.locks[pid].(holders := holders)]
      else t.locks;
    LockTables(locks, inventory)
  }

  /** Releasing removes exactly the pair (tid, pid) from both tables, deletes pid's record exactly
      when tid was its only holder, and changes no lock mode. */
  lemma ReleaseEffect(t: LockTables, tid: TransactionId, pid: PageId)
    requires Consistent(t)
    ensures var r := Release(t, tid, pid);
            && Consistent(r)
            && !Holds(r, tid, pid) && !IsHolder(r, tid, pid)
            && (forall a, p | a != tid || p != pid :: Holds(r, a, p) <==> Holds(t, a, p))
            && (pid in r.locks <==> pid in t.locks && t.locks[pid].holders != [tid])
            && (forall p | p != pid :: (p in r.locks <==> p in t.locks))
            && (forall p | p in r.locks :: p in t.locks && r.locks[p].lockType == t.locks[p].lockType)
  {
    var r := Release(t, tid, pid);
    forall a, p | a != tid || p != pid ensures Holds(r, a, p) <==> Holds(t, a, p) {
      if a == tid && tid in t.inventory {
        var pages := t.inventory[tid];
        assert p in RemoveFirst(pages, pid) <==> p in pages;
      }
    }
    forall a, p ensures Holds(r, a, p) <==> IsHolder(r, a, p) {
      assert Holds(t, a, p) <==> IsHolder(t, a, p);
      if p == pid && pid in t.locks {
        assert WellFormed(t.locks[pid]);
      }
    }
    if pid in t.locks {
      var h := t.locks[pid].holders;
      assert WellFormed(t.locks[pid]);
      if tid in h && |h| == 1 {
        assert h == [tid];
      }
    }
    forall p | p in r.locks ensures WellFormed(r.locks[p]) {
      assert WellFormed(t.locks[p]);
    }
  }

  /** Releasing a lock that tid does not hold changes nothing. */
  lemma ReleaseNotHeld(t: LockTables, tid: TransactionId, pid: PageId)
    requires Consistent(t) && !Holds(t, tid, pid)
    ensures Release(t, tid, pid) == t
  {
    assert !IsHolder(t, tid, pid);
    if tid in t.inventory {
      assert t.inventory[tid := t.inventory[tid]] == t.inventory;
    }
    if pid in t.locks {
      assert WellFormed(t.locks[pid]);
      assert t.locks[pid := t.locks[pid].(holders := t.locks[pid].holders)] == t.locks;
    }
  }

  /** The loop of releaseLockOnTransaction after its first |pids| rounds. */
  function ReleaseEach(t: LockTables, tid: TransactionId, pids: seq<PageId>): LockTables
    decreases |pids|
  {
    if pids == [] then t
    else Release(ReleaseEach(t, tid, pids[..|pids| - 1]), tid, pids[|pids| - 1])
  }

  /** releaseLockOnTransaction: release every page of a snapshot of tid's inventory. */
  function ReleaseAll(t: LockTables, tid: TransactionId): LockTables {
    ReleaseEach(t, tid, InventoryOf(t, tid))
  }

  lemma {:induction false} ReleaseEachEffect(t: LockTables, tid: TransactionId, pids: seq<PageId>)
    requires Consistent(t)
    ensures var r := ReleaseEach(t, tid, pids);
            && Consistent(r)
            && (forall p :: Holds(r, tid, p) <==> Holds(t, tid, p) && p !in pids)
            && (forall a, p | a != tid :: Holds(r, a, p) <==> Holds(t, a, p))
    decreases |pids|
  {
    if pids != [] {
      var front, last := pids[..|pids| - 1], pids[|pids| - 1];
      assert pids == front + [last];
      ReleaseEachEffect(t, tid, front);
      ReleaseEffect(ReleaseEach(t, tid, front), tid, last);
    }
  }

  /** After releaseLockOnTransaction, tid holds no lock and has no inventory, while every other
      transaction holds exactly what it held before. */
  lemma ReleaseAllClears(t: LockTables, tid: TransactionId)
    requires Consistent(t)
    ensures var r := ReleaseAll(t, tid);
            && Consistent(r)
            && tid !in r.inventory
            && (forall p :: !Holds(r, tid, p) && !IsHolder(r, tid, p))
            && (forall a, p | a != tid :: Holds(r, a, p) <==> Holds(t, a, p))
  {
    var r := ReleaseAll(t, tid);
    ReleaseEachEffect(t, tid, InventoryOf(t, tid));
    if tid in r.inventory {
      assert Holds(r, tid, r.inventory[tid][0]);
    }
    forall p ensures !IsHolder(r, tid, p) {
      assert Holds(r, tid, p) <==> IsHolder(r, tid, p);
    }
  }

  /** The two tables of class LockManager, updated in place by its methods. */
  class LockManager {
    var lockTable: map<PageId, ObjLock>
    var transactionTable: map<TransactionId, seq<PageId>>

    function State(): LockTables
      reads this
    {
      LockTables(lockTable, transactionTable)
    }

    ghost predicate Valid()
      reads this
    {
      Consistent(State())
    }

    constructor ()
      ensures Valid() && lockTable == map[] && transactionTable == map[]
    {
      lockTable := map[];
      transactionTable := map[];
    }

    /** holdsLock answers from the inventory; by the invariant that is the same as asking the
        lock table. */
    method HoldsLock(tid: TransactionId, pid: PageId) returns (b: bool)
      requires Valid()
      ensures b == Holds(State(), tid, pid)
      ensures b <==> pid in lockTable && tid in lockTable[pid].holders
    {
      var lockList := GetLockList(tid);
      b := lockList.Some? && pid in lockList.value;
      assert Holds(State(), tid, pid) <==> IsHolder(State(), tid, pid);
    }

    /** getLockList: tid's inventory, or null (None) when it has none. */
    method GetLockList(tid: TransactionId) returns (l: Option<seq<PageId>>)
      requires Valid()
      ensures l.None? <==> InventoryOf(State(), tid) == []
      ensures l.Some? ==> l.value == InventoryOf(State(), tid)
    {
      l := if tid in transactionTable then Some(transactionTable[tid]) else None;
    }

    /** One round of acquireLock. `granted == false` is the `block` branch: the caller waits
        for a release and retries, or is aborted when its timeout runs out. */
    method AcquireLock(tid: TransactionId, pid: PageId, req: LockType) returns (granted: bool)
      requires Valid()
      modifies this
      ensures Valid()
      ensures HoldersNonEmpty(old(State()))
      ensures granted == Acquire(old(State()), tid, pid, req).Granted?
      ensures State() == if granted then Acquire(old(State()), tid, pid, req).tables else old(State())
    {
      ConsistentHoldersNonEmpty(State());
      AcquirePreservesConsistent(State(), tid, pid, req);
      if pid in lockTable {
        var lock := lockTable[pid];
        if lock.lockType == SLock {
          if req == SLock {
            transactionTable := UpdateTransactionTable(transactionTable, tid, pid);
            var (shared, _) := lock.AddHolder(tid);
            lockTable := lockTable[pid := shared];
            granted := true;
          } else if tid in transactionTable && pid in transactionTable[tid] && |lock.holders| == 1 {
            var (upgraded, _) := lock.TryUpgradeLock(tid);
            lockTable := lockTable[pid := upgraded];
            granted := true;
          } else {
            granted := false;
          }
        } else if lock.holders[0] == tid {
          granted := true;
        } else {
          granted := false;
        }
      } else {
        lockTable := lockTable[pid := ObjLock(req, [tid])];
        transactionTable := UpdateTransactionTable(transactionTable, tid, pid);
        granted := true;
      }
    }

    method ReleaseLock(tid: TransactionId, pid: PageId)
      requires Valid()
      modifies this
      ensures Valid()
      ensures State() == Release(old(State()), tid, pid)
    {
      ReleaseEffect(State(), tid, pid);
      if tid in transactionTable {
        var pages := RemoveFirst(transactionTable[tid], pid);
        if pages == [] {
          transactionTable := transactionTable - {tid};
        } else {
          transactionTable := transactionTable[tid := pages];
        }
      }
      if pid in lockTable {
        var holders := RemoveFirst(lockTable[pid].holders, tid);
        if holders == [] {
          lockTable := lockTable - {pid};
        } else {
          lockTable := lockTable[pid := lockTable[pid].(holders := holders)];
        }
      }
    }

    method ReleaseLockOnTransaction(tid: TransactionId)
      requires Valid()
      modifies this
      ensures Valid()
      ensures State() == ReleaseAll(old(State()), tid)
      ensures tid !in transactionTable
      ensures forall p :: !Holds(State(), tid, p) && !IsHolder(State(), tid, p)
      ensures forall a, p | a != tid :: Holds(State(), a, p) <==> Holds(old(State()), a, p)
    {
      ReleaseAllClears(State(), tid);
      if tid in transactionTable {
        var toRelease := transactionTable[tid];
        for i := 0 to |toRelease|
          invariant Valid()
          invariant State() == ReleaseEach(old(State()), tid, toRelease[..i])
        {
          assert toRelease[..i + 1][..i] == toRelease[..i];
          ReleaseLock(tid, toRelease[i]);
        }
        assert toRelease[..|toRelease|] == toRelease;
      }
    }
  }

  /** acquireLock as it runs with Java assertions disabled (the default): line 123 evaluates
      addHolder only inside an `assert`, so a shared request on a shared record records pid in
      tid's inventory without adding tid to the holders. */
  function AcquireAsWritten(t: LockTables, tid: TransactionId, pid: PageId, req: LockType): AcquireStep
    requires HoldersNonEmpty(t)
  {
    if pid in t.locks && t.locks[pid].lockType == SLock && req == SLock then
      Granted(LockTables(t.locks, UpdateTransactionTable(t.inventory, tid, pid)))
    else Acquire(t, tid, pid, req)
  }

  /** With the as-written step, T1 and T2 read page P, T1 releases P, which deletes P's record
      although T2 still holds P, and T3 is then granted an exclusive lock on P while holdsLock
      says T2 holds it too. */
  lemma AsWrittenSharedLockLost()
    ensures var p := PageId(0, 0);
            var t0 := LockTables(map[], map[]);
            var t1 := Acquire(t0, 1, p, SLock).tables;
            var t2 := AcquireAsWritten(t1, 2, p, SLock).tables;
            var t3 := Release(t2, 1, p);
            var t4 := Acquire(t3, 3, p, XLock);
            && Consistent(t1) && !Consistent(t2)
            && t4.Granted? && t4.tables.locks[p].lockType == XLock
            && Holds(t4.tables, 2, p) && Holds(t4.tables, 3, p)
  {
    var p := PageId(0, 0);
    var t1 := Acquire(LockTables(map[], map[]), 1, p, SLock).tables;
    assert t1 == LockTables(map[p := ObjLock(SLock, [1])], map[1 := [p]]);
    var t2 := AcquireAsWritten(t1, 2, p, SLock).tables;
    assert t2 == LockTables(t1.locks, map[1 := [p], 2 := [p]]);
    assert Holds(t2, 2, p) && !IsHolder(t2, 2, p);
    var t3 := Release(t2, 1, p);
    assert RemoveFirst([p], p) == [];
    assert RemoveFirst([1], 1) == [];
    assert t3 == LockTables(map[], map[2 := [p]]);
  }
}
