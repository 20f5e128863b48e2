/** Delete: the operator that removes each tuple its child yields from the tuple's table and then
    reports, once, how many it removed. The child operator is the sequence of tuples it yields;
    the buffer pool's deleteTuple calls are recorded, in order, as the tuples handed to it. Which
    call, if any, fails with an IOException is a parameter of fetchNext. */
module Deletion {
  import opened Basics

  /** DbException, with its message. */
  datatype DbError = DbException(message: string)

  const IoErrorMessage: string := "Delete: IO error in dbFile delete tuple"

  /** The deleteTuple call on rest[k] is the first to throw, and it is reached. */
  predicate FailsWithin(rest: seq<Tuple>, failAt: Option<nat>) {
    failAt.Some? && failAt.value < |rest|
  }

  /** The counting loop of fetchNext over the tuples `rest` the child still has: each is read,
      then deleted, and counted in a Java int. `failAt == Some(k)` makes the deletion of rest[k]
      throw IOException, which becomes DbException; the tuples before it stay deleted.
      Returns the tuples deleted, how many the child yielded, and the one-field count tuple. */
  method DeleteEach(rest: seq<Tuple>, failAt: Option<nat>) returns (deleted: seq<Tuple>, consumed: nat, r: Result<Tuple, DbError>)
    ensures FailsWithin(rest, failAt) ==>
              r == Err(DbException(IoErrorMessage)) &&
              deleted == rest[..failAt.value] && consumed == failAt.value + 1
    ensures !FailsWithin(rest, failAt) ==>
              r == Ok([IntField(Wrap32(|rest|))]) && deleted == rest && consumed == |rest|
    ensures r.Ok? && IsInt32(|rest|) ==> r.value == [IntField(|deleted|)]
  {
    var count := 0;
    var i := 0;
    deleted := [];
    while i < |rest|
      invariant i <= |rest| && deleted == rest[..i] && count == Wrap32(i)
      invariant failAt.Some? ==> i <= failAt.value
    {
      var t := rest[i];
      if failAt == Some(i) {
        consumed, r := i + 1, Err(DbException(IoErrorMessage));
        return;
      }
      deleted := deleted + [t];
      WrapAdd(i, 1);
      count := Wrap32(count + 1);
      i := i + 1;
    }
    assert rest[..i] == rest;
    consumed, r := i, Ok([IntField(count)]);
  }

  class Delete {
    const tid: TransactionId
    /** The tuples the child operator yields, in order. */
    const child: seq<Tuple>
    /** How many of them the child has yielded since it was last opened or rewound. */
    var pos: nat
    var fetched: bool
    /** Every tuple handed to the buffer pool's deleteTuple, in order. */
    var deletedLog: seq<Tuple>

    predicate Valid()
      reads this
    {
      pos <= |child|
    }

    /** A new operator has `fetched` set, so it returns nothing until it is opened. */
    constructor (tid: TransactionId, child: seq<Tuple>)
      ensures Valid()
      ensures this.tid == tid && this.child == child
      ensures fetched && pos == 0 && deletedLog == []
    {
      this.tid := tid;
      this.child := child;
      pos := 0;
      fetched := true;
      deletedLog := [];
    }

    /** open: open the child and clear `fetched`. */
    method Open()
      modifies this
      ensures Valid()
      ensures pos == 0 && !fetched && deletedLog == old(deletedLog)
    {
      pos := 0;
      fetched := false;
    }

    /** close: set `fetched` and close the child. */
    method Close()
      modifies this
      ensures fetched && pos == old(pos) && deletedLog == old(deletedLog)
    {
      fetched := true;
    }

    /** rewind: rewind the child and clear `fetched`, so the next fetchNext deletes again. */
    method Rewind()
      modifies this
      ensures Valid()
      ensures pos == 0 && !fetched && deletedLog == old(deletedLog)
    {
      pos := 0;
      fetched := false;
    }

    /** fetchNext: once per open or rewind, delete every tuple the child has left and return
        their count; otherwise return nothing (Java's null) and change nothing. */
    method FetchNext(failAt: Option<nat>) returns (r: Result<Option<Tuple>, DbError>)
      requires Valid()
      modifies this
      ensures Valid() && fetched
      ensures old(fetched) ==> r == Ok(None) && pos == old(pos) && deletedLog == old(deletedLog)
      ensures !old(fetched) && FailsWithin(child[old(pos)..], failAt) ==>
                r == Err(DbException(IoErrorMessage)) &&
                deletedLog == old(deletedLog) + child[old(pos)..][..failAt.value] &&
                pos == old(pos) + failAt.value + 1
      ensures !old(fetched) && !FailsWithin(child[old(pos)..], failAt) ==>
                r == Ok(Some([IntField(Wrap32(|child| - old(pos)))])) &&
                deletedLog == old(deletedLog) + child[old(pos)..] && pos == |child|
    {
      if fetched {
        return Ok(None);
      }
      fetched := true;
      var deleted, consumed, result := DeleteEach(child[pos..], failAt);
      pos := pos + consumed;
      deletedLog := deletedLog + deleted;
      r := if result.Ok? then Ok(Some(result.value)) else Err(result.error);
    }
  }
}
