/** HeapFile: a table stored as a file of fixed-size pages. The page arithmetic (how many pages a
    file holds, where a page starts) is pure; the scan iterator is a cursor over page numbers whose
    fields advance as tuples are asked for. */
module HeapFiles {
  import opened Basics

  /** BufferPool.PAGE_SIZE, the page size every heap file uses. */
  const PageSize: nat := 4096

  /** numPages: the file length divided by the page size. The division is integral and happens
      before Math.ceil sees it, so a trailing partial page is not counted. */
  function NumPages(fileLength: nat): (n: nat)
    ensures n * PageSize <= fileLength < (n + 1) * PageSize
  {
    fileLength / PageSize
  }

  /** A file length that is a whole number of pages is counted exactly; any other length loses
      its trailing partial page. */
  lemma NumPagesCountsWholePages(fileLength: nat)
    ensures NumPages(fileLength) * PageSize == fileLength <==> fileLength % PageSize == 0
    ensures fileLength % PageSize != 0 ==> NumPages(fileLength) * PageSize < fileLength
  {
    assert fileLength == (fileLength / PageSize) * PageSize + fileLength % PageSize;
  }

  /** The byte offset at which readPage seeks: the page number times the page size. */
  function PageOffset(pid: PageId): (off: nat)
    ensures off % PageSize == 0 && off / PageSize == pid.pageNumber
  {
    pid.pageNumber * PageSize
  }

  /** A page lies wholly inside the file exactly when its number is below numPages. */
  lemma PageWithinFile(fileLength: nat, pid: PageId)
    ensures PageOffset(pid) + PageSize <= fileLength <==> pid.pageNumber < NumPages(fileLength)
  {
    var n := NumPages(fileLength);
    if pid.pageNumber < n {
      assert PageOffset(pid) + PageSize == (pid.pageNumber + 1) * PageSize <= n * PageSize;
    }
  }

  /** Distinct pages occupy disjoint byte ranges, in page-number order. */
  lemma PagesDisjoint(p: PageId, q: PageId)
    requires p.pageNumber < q.pageNumber
    ensures PageOffset(p) + PageSize <= PageOffset(q)
  {
    assert PageOffset(p) + PageSize == (p.pageNumber + 1) * PageSize;
  }

  function Min(a: nat, b: nat): nat {
    if a < b then a else b
  }

  /** One read of a page-size buffer at byte offset off. The buffer starts zeroed; the read
      fills it from the file up to the end of the file, and bytes past the end stay zero. */
  function ReadAt(file: Bytes, off: nat): (buffer: Bytes)
    ensures |buffer| == PageSize
    ensures forall i | 0 <= i < PageSize :: buffer[i] == if off + i < |file| then file[off + i] else 0
  {
    if off >= |file| then seq(PageSize, _ => 0)
    else
      var n := Min(PageSize, |file| - off);
      file[off .. off + n] + seq(PageSize - n, _ => 0)
  }

  /** readPage, as the page's bytes: one page-size buffer read at the page's offset. */
  function ReadPage(file: Bytes, pid: PageId): (buffer: Bytes)
    ensures |buffer| == PageSize
  {
    ReadAt(file, PageOffset(pid))
  }

  /** The concatenation of a sequence of sequences. */
  function Flatten<T>(ss: seq<seq<T>>): seq<T> {
    if ss == [] then [] else ss[0] + Flatten(ss[1..])
  }

  predicate WholePages(pages: seq<Bytes>) {
    forall j | 0 <= j < |pages| :: |pages[j]| == PageSize
  }

  /** A file written as a sequence of whole pages places byte k of page i at i * PageSize + k. */
  lemma {:induction false} FlattenWholePages(pages: seq<Bytes>)
    requires WholePages(pages)
    ensures |Flatten(pages)| == |pages| * PageSize
    ensures forall i, k | 0 <= i < |pages| && 0 <= k < PageSize :: Flatten(pages)[i * PageSize + k] == pages[i][k]
  {
    if pages != [] {
      var rest := pages[1..];
      FlattenWholePages(rest);
      var f := Flatten(pages);
      assert f == pages[0] + Flatten(rest);
      forall i, k | 0 <= i < |pages| && 0 <= k < PageSize
        ensures f[i * PageSize + k] == pages[i][k]
      {
        if i > 0 {
          assert i * PageSize + k == PageSize + ((i - 1) * PageSize + k);
          assert f[i * PageSize + k] == Flatten(rest)[(i - 1) * PageSize + k] == rest[i - 1][k];
        }
      }
    }
  }

  /** A file written as whole pages has exactly that many pages. */
  lemma FileOfPagesCount(pages: seq<Bytes>)
    requires WholePages(pages)
    ensures NumPages(|Flatten(pages)|) == |pages|
  {
    FlattenWholePages(pages);
  }

  /** Reading page i of a file written as whole pages gives back page i. */
  lemma FileOfPagesRead(pages: seq<Bytes>, pid: PageId)
    requires WholePages(pages) && pid.pageNumber < |pages|
    ensures ReadPage(Flatten(pages), pid) == pages[pid.pageNumber]
  {
    FlattenWholePages(pages);
    var file, i := Flatten(pages), pid.pageNumber;
    var buffer := ReadPage(file, pid);
    forall k | 0 <= k < PageSize ensures buffer[k] == pages[i][k] {
      assert PageOffset(pid) + k == i * PageSize + k < |file|;
    }
  }

  /** Line 78 as written: pageNumber() and getPageSize() are both Java ints, so their product
      is taken modulo 2^32 before seek widens it to a long. */
  function OffsetAsWritten(pid: PageId): (off: int)
    ensures IsInt32(off)
    ensures pid.pageNumber * PageSize <= IntMax ==> off == PageOffset(pid)
  {
    Wrap32(pid.pageNumber * PageSize)
  }

  /** readPage's failure: the IOException of a negative seek is printed and an
      IllegalArgumentException thrown instead. */
  datatype ReadError = IllegalArgument

  /** readPage as written, with the 32-bit offset. */
  function ReadPageAsWritten(file: Bytes, pid: PageId): (r: Result<Bytes, ReadError>)
    ensures r.Ok? <==> OffsetAsWritten(pid) >= 0
    ensures r.Ok? ==> r.value == ReadAt(file, OffsetAsWritten(pid))
  {
    var off := OffsetAsWritten(pid);
    if off < 0 then Err(IllegalArgument) else Ok(ReadAt(file, off))
  }

  /** In a file of more than 2^20 pages, page 2^20 starts at byte 2^32, which the 32-bit
      product wraps to 0: readPage returns the bytes of page 0 instead. */
  lemma AsWrittenReadsWrongPage(file: Bytes, tableId: int)
    requires |file| > 0x1_0000_1000
    ensures var pid := PageId(tableId, 0x10_0000);
      pid.pageNumber < NumPages(|file|) &&
      ReadPageAsWritten(file, pid) == Ok(ReadPage(file, PageId(tableId, 0)))
  {
    var pid := PageId(tableId, 0x10_0000);
    assert pid.pageNumber * PageSize == Two32;
    PageWithinFile(|file|, pid);
  }

  /** In a file of more than 2^19 pages, page 2^19 starts at byte 2^31, which the 32-bit
      product wraps negative: readPage fails although the page is in the file. */
  lemma AsWrittenFailsPastTwoGigabytes(file: Bytes, tableId: int)
    requires |file| > 0x8000_1000
    ensures var pid := PageId(tableId, 0x8_0000);
      pid.pageNumber < NumPages(|file|) && ReadPageAsWritten(file, pid) == Err(IllegalArgument)
  {
    var pid := PageId(tableId, 0x8_0000);
    assert pid.pageNumber * PageSize == 0x8000_0000;
    PageWithinFile(|file|, pid);
  }

  /** The tuples the buffer pool's copy of page k yields; pages past the given ones read as
      empty (a zero-filled page holds no tuples). */
  function PageOf(pageTuples: seq<seq<Tuple>>, k: nat): seq<Tuple> {
    if k < |pageTuples| then pageTuples[k] else []
  }

  /** The tuples of pages k .. end-1, in page order. */
  function ScanPages(pageTuples: seq<seq<Tuple>>, k: nat, end: nat): seq<Tuple>
    decreases end - k
  {
    if k >= end then [] else PageOf(pageTuples, k) + ScanPages(pageTuples, k + 1, end)
  }

  /** Within the given pages, a scan is the concatenation of the pages' tuples. */
  lemma {:induction false} ScanIsFlatten(pageTuples: seq<seq<Tuple>>, k: nat, end: nat)
    requires k <= end <= |pageTuples|
    ensures ScanPages(pageTuples, k, end) == Flatten(pageTuples[k..end])
    decreases end - k
  {
    if k < end {
      ScanIsFlatten(pageTuples, k + 1, end);
      assert pageTuples[k..end][1..] == pageTuples[k + 1..end];
    }
  }

  /** A scan extended by one page at its end gains that page's tuples. */
  lemma {:induction false} ScanExtend(pageTuples: seq<seq<Tuple>>, k: nat, end: nat)
    requires k <= end
    ensures ScanPages(pageTuples, k, end + 1) == ScanPages(pageTuples, k, end) + PageOf(pageTuples, end)
    decreases end - k
  {
    if k < end {
      ScanExtend(pageTuples, k + 1, end);
    }
  }

  /** A tuple is scanned exactly when some page in the range holds it. */
  lemma {:induction false} ScanMembers(pageTuples: seq<seq<Tuple>>, k: nat, end: nat, t: Tuple)
    ensures t in ScanPages(pageTuples, k, end) <==> exists p :: k <= p < end && t in PageOf(pageTuples, p)
    decreases end - k
  {
    if k < end {
      ScanMembers(pageTuples, k + 1, end, t);
      if t in PageOf(pageTuples, k) {
        assert k <= k < end && t in PageOf(pageTuples, k);
      }
      if exists p :: k <= p < end && t in PageOf(pageTuples, p) {
        var p :| k <= p < end && t in PageOf(pageTuples, p);
        if p != k {
          assert k + 1 <= p < end;
        }
      }
    }
  }

  /** One past the last page a scan of a file of numPages pages visits: page 0 is read even
      when the file is empty. */
  function ScanEnd(numPages: nat): (end: nat)
    ensures end >= 1 && end >= numPages
  {
    if numPages == 0 then 1 else numPages
  }

  /** The loop of hasNext on the cursor's values: while the cursor c is before the last page and
      the current page has nothing left, move to the next page and start on its tuples. The
      tuples still to come are kept, and the cursor moves only over pages with nothing left. */
  method SkipExhaustedPages(pageTuples: seq<seq<Tuple>>, numPages: nat, c0: nat, rest0: seq<Tuple>)
    returns (c: nat, rest: seq<Tuple>)
    requires c0 < ScanEnd(numPages)
    ensures c0 <= c < ScanEnd(numPages)
    ensures rest + ScanPages(pageTuples, c + 1, ScanEnd(numPages)) ==
            rest0 + ScanPages(pageTuples, c0 + 1, ScanEnd(numPages))
    ensures rest == [] ==> numPages <= c + 1
    ensures c == c0 ==> rest == rest0
    ensures c != c0 ==> rest0 == [] && rest == PageOf(pageTuples, c) && ScanPages(pageTuples, c0 + 1, c) == []
  {
    c, rest := c0, rest0;
    while c < numPages - 1
      invariant c0 <= c < ScanEnd(numPages)
      invariant rest + ScanPages(pageTuples, c + 1, ScanEnd(numPages)) ==
                rest0 + ScanPages(pageTuples, c0 + 1, ScanEnd(numPages))
      invariant c == c0 ==> rest == rest0
      invariant c != c0 ==> rest0 == [] && rest == PageOf(pageTuples, c) && ScanPages(pageTuples, c0 + 1, c) == []
      decreases numPages - c
    {
      if rest != [] {
        return;  // the source returns true here
      }
      if c != c0 {
        ScanExtend(pageTuples, c0 + 1, c);
      }
      assert [] + ScanPages(pageTuples, c + 1, ScanEnd(numPages)) ==
             PageOf(pageTuples, c + 1) + ScanPages(pageTuples, c + 2, ScanEnd(numPages));
      c, rest := c + 1, PageOf(pageTuples, c + 1);
    }
  }

  /** `s` is what an iterator over `t` has left: a suffix of `t`. */
  predicate IsSuffix(s: seq<Tuple>, t: seq<Tuple>) {
    |s| <= |t| && s == t[|t| - |s|..]
  }

  /** next()'s failure when nothing is left. */
  datatype IteratorError = NoSuchElement

  /** HeapFile.HeapFileIterator. The tuples the buffer pool yields for page k of the table are
      `PageOf(pageTuples, k)`; Java's null pageCursor is None, and a closed iterator's
      tupleIter (null in Java) is the empty sequence. */
  class HeapFileIterator {
    const tid: TransactionId
    const tableId: int
    const numPages: nat
    const pageTuples: seq<seq<Tuple>>
    var pageCursor: Option<nat>
    /** What the current page's tuple iterator has not yet returned. */
    var tupleIter: seq<Tuple>

    function End(): nat {
      ScanEnd(numPages)
    }

    /** The tuples successive next() calls will return. */
    function Remaining(): seq<Tuple>
      reads this
    {
      if pageCursor.None? then [] else tupleIter + ScanPages(pageTuples, pageCursor.value + 1, End())
    }

    ghost predicate Valid()
      reads this
    {
      if pageCursor.None? then tupleIter == []
      else pageCursor.value < End() && IsSuffix(tupleIter, PageOf(pageTuples, pageCursor.value))
    }

    /** The iterator of a file of `fileLength` bytes; its page count is fixed here. */
    constructor (tid: TransactionId, tableId: int, fileLength: nat, pageTuples: seq<seq<Tuple>>)
      ensures Valid()
      ensures this.tid == tid && this.tableId == tableId && this.pageTuples == pageTuples
      ensures numPages == NumPages(fileLength)
      ensures pageCursor == None && Remaining() == []
    {
      this.tid := tid;
      this.tableId := tableId;
      this.numPages := NumPages(fileLength);
      this.pageTuples := pageTuples;
      pageCursor := None;
      tupleIter := [];
    }

    /** open: start at page 0; the scan then yields every page's tuples in order. */
    method Open()
      modifies this
      ensures Valid()
      ensures pageCursor == Some(0) && tupleIter == PageOf(pageTuples, 0)
      ensures Remaining() == ScanPages(pageTuples, 0, End())
    {
      pageCursor := Some(0);
      tupleIter := PageOf(pageTuples, 0);
    }

    /** close: forget the cursor; nothing is left to return. */
    method Close()
      modifies this
      ensures Valid()
      ensures pageCursor == None && tupleIter == [] && Remaining() == []
    {
      pageCursor := None;
      tupleIter := [];
    }

    /** rewind is close followed by open. */
    method Rewind()
      modifies this
      ensures Valid()
      ensures pageCursor == Some(0) && tupleIter == PageOf(pageTuples, 0)
      ensures Remaining() == ScanPages(pageTuples, 0, End())
    {
      Close();
      Open();
    }

    /** hasNext: move past exhausted pages, never beyond the last one, until a tuple is found.
        Nothing is consumed; the cursor moves only over pages that had nothing left. */
    method HasNext() returns (b: bool)
      requires Valid()
      modifies this
      ensures Valid()
      ensures b == (Remaining() != []) && Remaining() == old(Remaining())
      ensures b ==> tupleIter != []
      ensures pageCursor.Some? && !b ==> tupleIter == [] && numPages <= pageCursor.value + 1
      ensures pageCursor.None? <==> old(pageCursor).None?
      ensures old(pageCursor).Some? ==> old(pageCursor).value <= pageCursor.value < End()
      ensures pageCursor != old(pageCursor) ==>
                old(tupleIter) == [] && ScanPages(pageTuples, old(pageCursor).value + 1, pageCursor.value) == []
    {
      if pageCursor.None? {
        return false;
      }
      // The loop advances pageCursor and tupleIter; it runs on their values, which are stored
      // back once it ends.
      var c, rest := SkipExhaustedPages(pageTuples, numPages, pageCursor.value, tupleIter);
      pageCursor, tupleIter := Some(c), rest;
      b := tupleIter != [];
    }

    /** next: the next tuple of the scan, or NoSuchElement when hasNext is false. */
    method Next() returns (r: Result<Tuple, IteratorError>)
      requires Valid()
      modifies this
      ensures Valid()
      ensures old(Remaining()) == [] ==> r == Err(NoSuchElement) && Remaining() == []
      ensures old(Remaining()) != [] ==>
                r == Ok(old(Remaining())[0]) && Remaining() == old(Remaining())[1..]
    {
      var more := HasNext();
      if !more {
        return Err(NoSuchElement);
      }
      var t := TakeTuple();
      r := Ok(t);
    }

    /** tupleIter.next(): the current page's next tuple. */
    method TakeTuple() returns (t: Tuple)
      requires Valid() && pageCursor.Some? && tupleIter != []
      modifies this
      ensures Valid() && pageCursor == old(pageCursor)
      ensures t == old(Remaining())[0] && Remaining() == old(Remaining())[1..]
    {
      t := tupleIter[0];
      ghost var page := PageOf(pageTuples, pageCursor.value);
      assert tupleIter[1..] == page[|page| - |tupleIter| + 1..];
      tupleIter := tupleIter[1..];
    }
  }

  /** A fresh iterator over a file written as whole pages, once opened, yields the tuples of
      all its pages in page order. */
  lemma OpenScansWholeFile(numPages: nat, pageTuples: seq<seq<Tuple>>)
    requires 1 <= numPages <= |pageTuples|
    ensures ScanPages(pageTuples, 0, numPages) == Flatten(pageTuples[..numPages])
  {
    ScanIsFlatten(pageTuples, 0, numPages);
    assert pageTuples[0..numPages] == pageTuples[..numPages];
  }
}
