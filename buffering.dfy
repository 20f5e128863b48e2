/** The page cache of BufferPool.java: a bounded map from page id to page with a dirty marker per
    page, in front of the table files. The cache and the disk are kept as one value, Cache; the
    flush, discard and install operations are functions on it, and the BufferPool class's
    methods are proved to perform exactly those functions. */
module Buffering {
  import opened Basics
  import opened Locking

  datatype Permissions = ReadOnly | ReadWrite

  /** A page in memory: its id, its bytes, and the transaction that last dirtied it (what
      isDirty() returns), None when it is clean. */
  datatype Page = Page(id: PageId, data: Bytes, dirtier: Option<TransactionId>)

  datatype DbError = TransactionAborted | NoSuchPage

  /** The cache and the disk behind it: every table file's pages, reached through the catalog. */
  datatype Cache = Cache(pool: map<PageId, Page>, disk: map<PageId, Bytes>)

  /** getPage's choice of lock: READ_ONLY takes a shared lock, anything else an exclusive one. */
  function LockFor(perm: Permissions): (l: LockType)
    ensures l == SLock <==> perm == ReadOnly
  {
    if perm == ReadOnly then SLock else XLock
  }

  predicate IsDirty(pool: map<PageId, Page>, pid: PageId) {
    pid in pool && pool[pid].dirtier.Some?
  }

  /** Every cached page is stored under its own id. */
  ghost predicate IdsConsistent(pool: map<PageId, Page>) {
    forall pid | pid in pool :: pool[pid].id == pid
  }

  /** flushPage: a cached dirty page is written to its slot on disk and marked clean; anything
      else is left alone. The slot written is the page's own id, which is pid. */
  function Flushed(c: Cache, pid: PageId): Cache {
    if IsDirty(c.pool, pid) then
      Cache(c.pool[pid := c.pool[pid].(dirtier := None)], c.disk[pid := c.pool[pid].data])
    else c
  }

  /** The loop of flushPages after flushing the pages of pids, in order. */
  function FlushedEach(c: Cache, pids: seq<PageId>): Cache
    decreases |pids|
  {
    if pids == [] then c else Flushed(FlushedEach(c, pids[..|pids| - 1]), pids[|pids| - 1])
  }

  /** The disk after the pages of pids have been flushed. */
  ghost predicate DiskFlushed(c: Cache, pids: seq<PageId>, disk: map<PageId, Bytes>) {
    && (forall p :: p in disk <==> p in c.disk || (p in pids && IsDirty(c.pool, p)))
    && (forall p | p in disk :: disk[p] == if p in pids && IsDirty(c.pool, p) then c.pool[p].data else c.disk[p])
  }

  /** Flushing a list of pages marks every listed cached page clean and changes nothing else in
      the cache. */
  lemma {:induction false} FlushedEachPool(c: Cache, pids: seq<PageId>)
    ensures var r := FlushedEach(c, pids);
            && r.pool.Keys == c.pool.Keys
            && (forall p | p in c.pool :: r.pool[p] == if p in pids then c.pool[p].(dirtier := None) else c.pool[p])
    decreases |pids|
  {
    if pids != [] {
      var front, last := pids[..|pids| - 1], pids[|pids| - 1];
      assert pids == front + [last];
      FlushedEachPool(c, front);
    }
  }

  /** Flushing a list of pages writes every listed dirty page to disk and nothing else. */
  lemma {:induction false} FlushedEachDisk(c: Cache, pids: seq<PageId>)
    ensures DiskFlushed(c, pids, FlushedEach(c, pids).disk)
    decreases |pids|
  {
    if pids != [] {
      var front, last := pids[..|pids| - 1], pids[|pids| - 1];
      assert pids == front + [last];
      FlushedEachPool(c, front);
      FlushedEachDisk(c, front);
    }
  }

  /** The abort step of transactionComplete for one page: a cached dirty page is dropped. */
  function DiscardedDirty(c: Cache, pid: PageId): Cache {
    if IsDirty(c.pool, pid) then Cache(c.pool - {pid}, c.disk) else c
  }

  function DiscardedDirtyEach(c: Cache, pids: seq<PageId>): Cache
    decreases |pids|
  {
    if pids == [] then c else DiscardedDirty(DiscardedDirtyEach(c, pids[..|pids| - 1]), pids[|pids| - 1])
  }

  /** Discarding drops exactly the listed pages that are cached and dirty, and never writes. */
  lemma {:induction false} DiscardedDirtyEachEffect(c: Cache, pids: seq<PageId>)
    ensures var r := DiscardedDirtyEach(c, pids);
            && r.disk == c.disk
            && (forall p :: p in r.pool <==> p in c.pool && !(p in pids && IsDirty(c.pool, p)))
            && (forall p | p in r.pool :: r.pool[p] == c.pool[p])
    decreases |pids|
  {
    if pids != [] {
      var front, last := pids[..|pids| - 1], pids[|pids| - 1];
      assert pids == front + [last];
      DiscardedDirtyEachEffect(c, front);
    }
  }

  /** transactionComplete on the cache: flush the transaction's pages on commit, then drop those
      of them that are still dirty. */
  function Completed(c: Cache, pids: seq<PageId>, commit: bool): Cache {
    DiscardedDirtyEach(if commit then FlushedEach(c, pids) else c, pids)
  }

  /** Commit durability: committing drops nothing from the cache, leaves every page of the
      transaction clean, and puts every page it had dirtied on disk. */
  lemma CommitWritesBack(c: Cache, pids: seq<PageId>)
    ensures var r := Completed(c, pids, true);
            && r == FlushedEach(c, pids)
            && r.pool.Keys == c.pool.Keys
            && (forall p | p in pids && p in r.pool :: !IsDirty(r.pool, p))
            && (forall p | p in pids && IsDirty(c.pool, p) :: p in r.disk && r.disk[p] == c.pool[p].data)
            && (forall p | p !in pids && p in c.pool :: r.pool[p] == c.pool[p])
            && (forall p | !(p in pids && IsDirty(c.pool, p)) && p in c.disk :: p in r.disk && r.disk[p] == c.disk[p])
  {
    var f := FlushedEach(c, pids);
    FlushedEachPool(c, pids);
    FlushedEachDisk(c, pids);
    NothingDirtyToDiscard(f, pids);
  }

  lemma {:induction false} NothingDirtyToDiscard(c: Cache, pids: seq<PageId>)
    requires forall p | p in pids :: !IsDirty(c.pool, p)
    ensures DiscardedDirtyEach(c, pids) == c
    decreases |pids|
  {
    if pids != [] {
      NothingDirtyToDiscard(c, pids[..|pids| - 1]);
    }
  }

  /** Abort isolation: aborting writes nothing and drops exactly the transaction's cached dirty
      pages, so the next read of such a page comes from the unchanged disk. */
  lemma AbortDropsDirtyPages(c: Cache, pids: seq<PageId>)
    ensures var r := Completed(c, pids, false);
            && r.disk == c.disk
            && (forall p :: p in r.pool <==> p in c.pool && !(p in pids && IsDirty(c.pool, p)))
            && (forall p | p in r.pool :: r.pool[p] == c.pool[p])
  {
    DiscardedDirtyEachEffect(c, pids);
  }

  /** insertTuple / deleteTuple: every page the table file reports as modified is marked dirty by
      tid and installed under its id, replacing any cached copy. */
  function Installed(pool: map<PageId, Page>, pages: seq<Page>, tid: TransactionId): map<PageId, Page>
    decreases |pages|
  {
    if pages == [] then pool
    else
      var prev := Installed(pool, pages[..|pages| - 1], tid);
      var p := pages[|pages| - 1].(dirtier := Some(tid));
      (prev - {p.id})[p.id := p]
  }

  /** Installing keeps every other cached page and adds exactly the reported pages' ids. */
  lemma {:induction false} InstalledKeys(pool: map<PageId, Page>, pages: seq<Page>, tid: TransactionId)
    ensures var r := Installed(pool, pages, tid);
            && (forall p :: p in r <==> p in pool || exists i | 0 <= i < |pages| :: pages[i].id == p)
            && (forall p | p in pool && (forall i | 0 <= i < |pages| :: pages[i].id != p) :: r[p] == pool[p])
    decreases |pages|
  {
    if pages != [] {
      var front := pages[..|pages| - 1];
      InstalledKeys(pool, front, tid);
      var r := Installed(pool, pages, tid);
      forall p ensures p in r <==> p in pool || exists i | 0 <= i < |pages| :: pages[i].id == p {
        if exists i | 0 <= i < |front| :: front[i].id == p {
          var i :| 0 <= i < |front| && front[i].id == p;
          assert pages[i].id == p;
        }
        if exists i | 0 <= i < |pages| :: pages[i].id == p {
          var i :| 0 <= i < |pages| && pages[i].id == p;
          if i < |front| { assert front[i].id == p; }
        }
      }
      forall p | p in pool && (forall i | 0 <= i < |pages| :: pages[i].id != p) ensures r[p] == pool[p] {
        assert forall i | 0 <= i < |front| :: front[i].id != p by {
          forall i | 0 <= i < |front| ensures front[i].id != p { assert front[i] == pages[i]; }
        }
      }
    }
  }

  /** Each reported page ends up cached under its id, dirtied by tid, as its last reported
      version; and the cache keeps every page under its own id. */
  lemma {:induction false} InstalledPages(pool: map<PageId, Page>, pages: seq<Page>, tid: TransactionId)
    ensures var r := Installed(pool, pages, tid);
            && (forall i | 0 <= i < |pages| :: pages[i].id in r && r[pages[i].id].dirtier == Some(tid))
            && (forall i | 0 <= i < |pages| && (forall j | i < j < |pages| :: pages[j].id != pages[i].id) ::
                  r[pages[i].id] == pages[i].(dirtier := Some(tid)))
            && (IdsConsistent(pool) ==> IdsConsistent(r))
    decreases |pages|
  {
    if pages != [] {
      var front := pages[..|pages| - 1];
      InstalledPages(pool, front, tid);
      var prev := Installed(pool, front, tid);
      var last := pages[|pages| - 1].(dirtier := Some(tid));
      var r := Installed(pool, pages, tid);
      assert r == prev[last.id := last];
      forall i | 0 <= i < |pages| ensures pages[i].id in r && r[pages[i].id].dirtier == Some(tid) {
        if i < |front| { assert pages[i] == front[i]; }
      }
      forall i | 0 <= i < |pages| && (forall j | i < j < |pages| :: pages[j].id != pages[i].id)
        ensures r[pages[i].id] == pages[i].(dirtier := Some(tid))
      {
        if i < |front| {
          assert pages[i] == front[i];
          assert forall j | i < j < |front| :: front[j].id != front[i].id by {
            forall j | i < j < |front| ensures front[j].id != front[i].id { assert front[j] == pages[j]; }
          }
        }
      }
    }
  }

  /** flushAllPages after the pages in done have been flushed, in any order. */
  function FlushedSome(c: Cache, done: set<PageId>): Cache {
    Cache(map p | p in c.pool :: if p in done then c.pool[p].(dirtier := None) else c.pool[p],
          c.disk + map p | p in done && IsDirty(c.pool, p) :: c.pool[p].data)
  }

  /** flushAllPages: every cached page is flushed. */
  function FlushedAll(c: Cache): Cache {
    FlushedSome(c, c.pool.Keys)
  }

  /** After flushAllPages every cached page is clean, nothing is evicted, and the disk holds each
      page that was dirty. */
  lemma FlushedAllEffect(c: Cache)
    ensures var r := FlushedAll(c);
            && r.pool.Keys == c.pool.Keys
            && (forall p | p in r.pool :: !IsDirty(r.pool, p) && r.pool[p].data == c.pool[p].data)
            && (forall p | IsDirty(c.pool, p) :: p in r.disk && r.disk[p] == c.pool[p].data)
            && (forall p | p in c.disk && !IsDirty(c.pool, p) :: p in r.disk && r.disk[p] == c.disk[p])
  {
  }

  /** Flushing no page changes nothing. */
  lemma FlushedNone(c: Cache)
    ensures FlushedSome(c, {}) == c
  {
    var f := FlushedSome(c, {});
    assert f.pool == c.pool;
    assert f.disk == c.disk;
  }

  /** Flushing one more page extends the set of flushed pages. */
  lemma FlushedSomeStep(c: Cache, done: set<PageId>, pid: PageId)
    requires pid in c.pool && pid !in done
    ensures Flushed(FlushedSome(c, done), pid) == FlushedSome(c, done + {pid})
  {
    FlushedSomePool(c, done, pid);
    FlushedSomeDisk(c, done, pid);
  }

  lemma FlushedSomePool(c: Cache, done: set<PageId>, pid: PageId)
    requires pid in c.pool && pid !in done
    ensures Flushed(FlushedSome(c, done), pid).pool == FlushedSome(c, done + {pid}).pool
  {
    var f, after := Flushed(FlushedSome(c, done), pid), FlushedSome(c, done + {pid});
    assert f.pool.Keys == after.pool.Keys;
    forall p | p in after.pool ensures f.pool[p] == after.pool[p] {
    }
  }

  lemma FlushedSomeDisk(c: Cache, done: set<PageId>, pid: PageId)
    requires pid in c.pool && pid !in done
    ensures Flushed(FlushedSome(c, done), pid).disk == FlushedSome(c, done + {pid}).disk
  {
    var f, after := Flushed(FlushedSome(c, done), pid), FlushedSome(c, done + {pid});
    assert f.disk.Keys == after.disk.Keys;
    forall p | p in after.disk ensures f.disk[p] == after.disk[p] {
    }
  }

  /** evictPage with victim v: flush v, then remove it from the cache. */
  function Evicted(c: Cache, v: PageId): Cache {
    var f := Flushed(c, v);
    Cache(f.pool - {v}, f.disk)
  }

  /** What getPage does before loading on a miss: nothing while the cache has room, otherwise
      evict one resident page (none when the cache is empty). */
  ghost predicate MadeRoom(before: Cache, numPages: nat, after: Cache) {
    if |before.pool| < numPages || before.pool == map[] then after == before
    else exists v :: v in before.pool && after == Evicted(before, v)
  }

  /** Eviction removes exactly the victim and writes it to disk first if it was dirty. */
  lemma EvictedEffect(c: Cache, v: PageId)
    requires v in c.pool
    ensures var r := Evicted(c, v);
            && r.pool.Keys == c.pool.Keys - {v}
            && |r.pool| == |c.pool| - 1
            && (forall p | p in r.pool :: r.pool[p] == c.pool[p])
            && (IsDirty(c.pool, v) ==> r.disk == c.disk[v := c.pool[v].data])
            && (!IsDirty(c.pool, v) ==> r.disk == c.disk)
  {
    var r := Evicted(c, v);
    assert r.pool.Keys == c.pool.Keys - {v};
    assert |r.pool.Keys| == |c.pool.Keys| - 1;
  }

  /** Making room keeps the cache within numPages, once numPages is at least one. */
  lemma MadeRoomBound(before: Cache, numPages: nat, after: Cache)
    requires MadeRoom(before, numPages, after)
    requires 1 <= numPages && |before.pool| <= numPages
    ensures |after.pool| < numPages
    ensures forall p | p in after.pool :: p in before.pool && after.pool[p] == before.pool[p]
  {
    if |before.pool| >= numPages {
      var v :| v in before.pool && after == Evicted(before, v);
      EvictedEffect(before, v);
    }
  }

  /** flushPage as written: line 422 tests `bufferPool.contains(pid)`, which for a
      ConcurrentHashMap asks whether some cached value (a Page) equals pid (a PageId). No page
      equals a page id, so the test never succeeds and nothing is written. */
  function FlushedAsWritten(c: Cache, pid: PageId): Cache {
    c
  }

  function FlushedEachAsWritten(c: Cache, pids: seq<PageId>): Cache
    decreases |pids|
  {
    if pids == [] then c else FlushedAsWritten(FlushedEachAsWritten(c, pids[..|pids| - 1]), pids[|pids| - 1])
  }

  function CompletedAsWritten(c: Cache, pids: seq<PageId>, commit: bool): Cache {
    DiscardedDirtyEach(if commit then FlushedEachAsWritten(c, pids) else c, pids)
  }

  /** As written, committing is the same as aborting: the transaction's dirty pages are dropped
      from the cache and never reach the disk. */
  lemma {:induction false} CommitAsWrittenIsAbort(c: Cache, pids: seq<PageId>)
    ensures CompletedAsWritten(c, pids, true) == Completed(c, pids, false)
  {
    FlushedEachAsWrittenUnchanged(c, pids);
  }

  lemma {:induction false} FlushedEachAsWrittenUnchanged(c: Cache, pids: seq<PageId>)
    ensures FlushedEachAsWritten(c, pids) == c
    decreases |pids|
  {
    if pids != [] {
      FlushedEachAsWrittenUnchanged(c, pids[..|pids| - 1]);
    }
  }

  /** One dirty page of a committing transaction: as written it is lost, corrected it is on disk. */
  lemma CommitAsWrittenLosesWrite()
    ensures var p := PageId(1, 0);
            var c := Cache(map[p := Page(p, [1], Some(7))], map[p := [0]]);
            && CompletedAsWritten(c, [p], true) == Cache(map[], map[p := [0]])
            && Completed(c, [p], true) == Cache(map[p := Page(p, [1], None)], map[p := [1]])
  {
    var p := PageId(1, 0);
    var c := Cache(map[p := Page(p, [1], Some(7))], map[p := [0]]);
    assert [p][..0] == [];
    assert (map[p := Page(p, [1], Some(7))] - {p}) == map[];
    CommitAsWrittenIsAbort(c, [p]);
  }

  class BufferPool {
    const numPages: nat
    var pool: map<PageId, Page>
    var disk: map<PageId, Bytes>
    const lockManager: LockManager

    function State(): Cache
      reads this
    {
      Cache(pool, disk)
    }

    ghost predicate Valid()
      reads this, lockManager
    {
      lockManager.Valid() && IdsConsistent(pool)
    }

    constructor (numPages: nat, disk: map<PageId, Bytes>)
      ensures Valid() && fresh(lockManager)
      ensures this.numPages == numPages && pool == map[] && this.disk == disk
      ensures lockManager.State() == LockTables(map[], map[])
    {
      this.numPages := numPages;
      this.pool := map[];
      this.disk := disk;
      this.lockManager := new LockManager();
    }

    /** getPage. The lock step is the one of acquireLock (line 256 calls it through the class
        name; the intended receiver is this pool's lockManager). A request that must wait is
        reported as TransactionAborted: nothing else runs while the caller waits, so the wait can
        only end by its timeout. */
    method GetPage(tid: TransactionId, pid: PageId, perm: Permissions) returns (r: Result<Page, DbError>)
      requires Valid()
      modifies this, lockManager
      ensures Valid()
      ensures HoldersNonEmpty(old(lockManager.State()))
      ensures var step := Acquire(old(lockManager.State()), tid, pid, LockFor(perm));
              lockManager.State() == if step.Granted? then step.tables else old(lockManager.State())
      ensures Acquire(old(lockManager.State()), tid, pid, LockFor(perm)).MustWait? ==>
                r == Err(TransactionAborted) && State() == old(State())
      ensures Acquire(old(lockManager.State()), tid, pid, LockFor(perm)).Granted? ==> Cached(old(State()), pid, r, State())
      ensures r.Ok? ==> r.value.id == pid && pid in pool && pool[pid] == r.value
      ensures 1 <= numPages && |old(pool)| <= numPages ==> |pool| <= numPages
    {
      var lockType := LockFor(perm);
      var granted := lockManager.AcquireLock(tid, pid, lockType);
      if !granted {
        return Err(TransactionAborted);
      }
      r := Fetch(pid);
    }

    /** The cache half of getPage, once the lock is held: a hit returns the cached page and
        changes nothing; a miss first makes room, then loads the page from disk and caches it. */
    ghost predicate Cached(before: Cache, pid: PageId, r: Result<Page, DbError>, after: Cache) {
      if pid in before.pool then r == Ok(before.pool[pid]) && after == before
      else
        exists room :: MadeRoom(before, numPages, room) &&
          if pid in room.disk then
            r == Ok(Page(pid, room.disk[pid], None)) && after == Cache(room.pool[pid := r.value], room.disk)
          else
            r == Err(NoSuchPage) && after == room
    }

    /** Lines 258-273 of getPage. */
    method Fetch(pid: PageId) returns (r: Result<Page, DbError>)
      requires Valid()
      modifies this
      ensures Valid()
      ensures Cached(old(State()), pid, r, State())
      ensures r.Ok? ==> r.value.id == pid && pid in pool && pool[pid] == r.value
      ensures 1 <= numPages && |old(pool)| <= numPages ==> |pool| <= numPages
    {
      if pid in pool {
        return Ok(pool[pid]);
      }
      if |pool| >= numPages {
        ghost var victim := EvictPage();
      }
      ghost var room := State();
      assert MadeRoom(old(State()), numPages, room);
      if 1 <= numPages && |old(pool)| <= numPages {
        MadeRoomBound(old(State()), numPages, room);
      }
      if pid !in disk {
        return Err(NoSuchPage);
      }
      var page := Page(pid, disk[pid], None);
      pool := pool[pid := page];
      r := Ok(page);
    }

    /** releasePage: hand one lock back, whatever two-phase locking says. */
    method ReleasePage(tid: TransactionId, pid: PageId)
      requires Valid()
      modifies lockManager
      ensures Valid()
      ensures lockManager.State() == Release(old(lockManager.State()), tid, pid)
      ensures !Holds(lockManager.State(), tid, pid)
    {
      ReleaseEffect(lockManager.State(), tid, pid);
      lockManager.ReleaseLock(tid, pid);
    }

    method HoldsLock(tid: TransactionId, pid: PageId) returns (b: bool)
      requires Valid()
      ensures b == Holds(lockManager.State(), tid, pid)
    {
      b := lockManager.HoldsLock(tid, pid);
    }

    /** transactionComplete(tid): the one-argument form commits. */
    method TransactionCompleteDefault(tid: TransactionId)
      requires Valid()
      modifies this, lockManager
      ensures Valid()
      ensures State() == Completed(old(State()), InventoryOf(old(lockManager.State()), tid), true)
      ensures lockManager.State() == ReleaseAll(old(lockManager.State()), tid)
    {
      TransactionComplete(tid, true);
    }

    /** transactionComplete: flush the transaction's pages on commit, drop those still dirty,
        then release every lock it holds. */
    method TransactionComplete(tid: TransactionId, commit: bool)
      requires Valid()
      modifies this, lockManager
      ensures Valid()
      ensures State() == Completed(old(State()), InventoryOf(old(lockManager.State()), tid), commit)
      ensures lockManager.State() == ReleaseAll(old(lockManager.State()), tid)
      ensures forall p :: !Holds(lockManager.State(), tid, p)
      ensures forall a, p | a != tid :: Holds(lockManager.State(), a, p) <==> Holds(old(lockManager.State()), a, p)
    {
      ghost var pids := InventoryOf(lockManager.State(), tid);
      if commit {
        FlushPages(tid);
      }
      ghost var start := State();
      assert start == if commit then FlushedEach(old(State()), pids) else old(State());
      var lockList := lockManager.GetLockList(tid);
      if lockList.Some? {
        var ps := lockList.value;
        for i := 0 to |ps|
          invariant Valid()
          invariant lockManager.State() == old(lockManager.State())
          invariant State() == DiscardedDirtyEach(start, ps[..i])
        {
          assert ps[..i + 1][..i] == ps[..i];
          var pid := ps[i];
          if pid in pool && pool[pid].dirtier.Some? {
            DiscardPage(pid);
          }
        }
        assert ps[..|ps|] == ps;
      }
      lockManager.ReleaseLockOnTransaction(tid);
    }

    /** insertTuple: `pages` are the pages the table file's insertTuple reports as modified. */
    method InsertTuple(tid: TransactionId, tableId: int, t: Tuple, pages: seq<Page>)
      requires Valid()
      modifies this
      ensures Valid()
      ensures pool == Installed(old(pool), pages, tid) && disk == old(disk)
    {
      InstalledPages(pool, pages, tid);
      for i := 0 to |pages|
        invariant pool == Installed(old(pool), pages[..i], tid) && disk == old(disk)
      {
        assert pages[..i + 1][..i] == pages[..i];
        var page := pages[i].(dirtier := Some(tid));
        pool := pool - {page.id};
        pool := pool[page.id := page];
      }
      assert pages[..|pages|] == pages;
    }

    /** deleteTuple: `pages` are the pages the table file's deleteTuple reports as modified. */
    method DeleteTuple(tid: TransactionId, t: Tuple, pages: seq<Page>)
      requires Valid()
      modifies this
      ensures Valid()
      ensures pool == Installed(old(pool), pages, tid) && disk == old(disk)
    {
      InstalledPages(pool, pages, tid);
      for i := 0 to |pages|
        invariant pool == Installed(old(pool), pages[..i], tid) && disk == old(disk)
      {
        assert pages[..i + 1][..i] == pages[..i];
        var page := pages[i].(dirtier := Some(tid));
        pool := pool - {page.id};
        pool := pool[page.id := page];
      }
      assert pages[..|pages|] == pages;
    }

    method FlushAllPages()
      requires Valid()
      modifies this
      ensures Valid()
      ensures State() == FlushedAll(old(State()))
    {
      var keys := pool.Keys;
      ghost var done: set<PageId> := {};
      FlushedNone(State());
      while keys != {}
        invariant keys <= old(pool).Keys && done == old(pool).Keys - keys
        invariant IdsConsistent(pool)
        invariant State() == FlushedSome(old(State()), done)
        decreases keys
      {
        var pid :| pid in keys;
        FlushedSomeStep(old(State()), done, pid);
        FlushPage(pid);
        keys, done := keys - {pid}, done + {pid};
      }
      assert done == old(pool).Keys;
    }

    /** discardPage: remove the page from the cache without writing it. */
    method DiscardPage(pid: PageId)
      requires Valid()
      modifies this
      ensures Valid()
      ensures pool == old(pool) - {pid} && disk == old(disk)
    {
      pool := pool - {pid};
    }

    method FlushPage(pid: PageId)
      requires IdsConsistent(pool)
      modifies this
      ensures IdsConsistent(pool)
      ensures State() == Flushed(old(State()), pid)
    {
      if pid in pool {
        var page := pool[pid];
        if page.dirtier.Some? {
          disk := disk[page.id := page.data];
          pool := pool[pid := page.(dirtier := None)];
        }
      }
    }

    /** flushPages: flush every page in tid's inventory. */
    method FlushPages(tid: TransactionId)
      requires Valid()
      modifies this
      ensures Valid()
      ensures State() == FlushedEach(old(State()), InventoryOf(lockManager.State(), tid))
    {
      var toFlush := lockManager.GetLockList(tid);
      if toFlush.Some? {
        var ps := toFlush.value;
        for i := 0 to |ps|
          invariant Valid()
          invariant State() == FlushedEach(old(State()), ps[..i])
        {
          assert ps[..i + 1][..i] == ps[..i];
          FlushPage(ps[i]);
        }
        assert ps[..|ps|] == ps;
      }
    }

    /** evictPage: flush and remove one resident page, the first the map enumerates (which one
        is not specified). A failed flush is caught and printed in the source, leaving the page
        cached; the model's disk writes do not fail. */
    method EvictPage() returns (ghost victim: Option<PageId>)
      requires Valid()
      modifies this
      ensures Valid()
      ensures old(pool) == map[] ==> victim.None? && State() == old(State())
      ensures old(pool) != map[] ==> victim.Some? && victim.value in old(pool) && State() == Evicted(old(State()), victim.value)
    {
      victim := None;
      if pool.Keys != {} {
        var pid :| pid in pool.Keys;
        FlushPage(pid);
        DiscardPage(pid);
        victim := Some(pid);
      }
    }
  }
}
