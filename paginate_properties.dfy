/** What one call of the pagination routine promises, stated about the
    function `Pagination.Paginated` that the method `Pagination.Paginate` is
    proved to follow, and how successive pages walk the whole query. */
module PaginationProperties {
  import opened Store
  import opened PageResults
  import opened Pagination

  /** A failing count is returned at once and no field of the result is
      written. */
  lemma CountFailureWritesNothing<T>(db: Db<T>, page: int, pageSize: int, before: Fields<T>)
    requires db.countFails
    ensures Paginated(db, page, pageSize, before) == Outcome(before, Some(CountFailed))
  {
  }

  /** A failing fetch is returned without writing the total, the page or the
      page size; the records hold whatever the store left in them. */
  lemma FetchFailureKeepsMetadata<T>(db: Db<T>, page: int, pageSize: int, before: Fields<T>)
    requires !db.countFails && db.fetchFails
    ensures var o := Paginated(db, page, pageSize, before);
      o.err == Some(FetchFailed) &&
      o.after.total == before.total &&
      o.after.page == before.page &&
      o.after.pageSize == before.pageSize &&
      o.after.records == (if db.leftOnFailure.Some? then db.leftOnFailure.value else before.records)
  {
  }

  /** The routine reports an error exactly when one of the two round trips
      fails. */
  lemma SucceedsIffStoreSucceeds<T>(db: Db<T>, page: int, pageSize: int, before: Fields<T>)
    ensures Paginated(db, page, pageSize, before).err.None? <==> !db.countFails && !db.fetchFails
  {
  }

  /** On success the result holds the count of all matching rows, the
      normalised page and page size, and the rows of that page: at most
      `pageSize` of them, in query order, starting at the offset. */
  lemma SuccessFillsResult<T>(db: Db<T>, page: int, pageSize: int, before: Fields<T>)
    requires !db.countFails && !db.fetchFails
    ensures var a := Paginated(db, page, pageSize, before).after;
      var offset := (a.page - 1) * a.pageSize;
      a.total == |db.rows| &&
      a.page == EffectivePage(page) && a.page >= 1 &&
      a.pageSize == EffectivePageSize(pageSize) && a.pageSize >= 1 &&
      offset >= 0 &&
      |a.records| == (if offset >= |db.rows| then 0 else Min(a.pageSize, |db.rows| - offset)) &&
      (forall i :: 0 <= i < |a.records| ==> a.records[i] == db.rows[offset + i])
  {
  }

  /** The total does not depend on the page or page size asked for, nor on
      what the result held before. */
  lemma TotalIgnoresPaging<T>(db: Db<T>, page1: int, pageSize1: int, before1: Fields<T>,
                              page2: int, pageSize2: int, before2: Fields<T>)
    requires Paginated(db, page1, pageSize1, before1).err.None?
    requires Paginated(db, page2, pageSize2, before2).err.None?
    ensures Paginated(db, page1, pageSize1, before1).after.total
         == Paginated(db, page2, pageSize2, before2).after.total
  {
  }

  /** Repeating a call with the same arguments against the same store leaves
      the result as the first call left it, and returns the same error. */
  lemma Idempotent<T>(db: Db<T>, page: int, pageSize: int, before: Fields<T>)
    ensures var once := Paginated(db, page, pageSize, before);
      Paginated(db, page, pageSize, once.after) == once
  {
  }

  /** The scenarios of a store with 25 matching rows. */
  lemma TwentyFiveRows<T>(db: Db<T>, before: Fields<T>)
    requires |db.rows| == 25 && !db.countFails && !db.fetchFails
    ensures Paginated(db, 1, 10, before) == Outcome(Fields(db.rows[..10], 25, 1, 10), None)
    ensures Paginated(db, 3, 10, before) == Outcome(Fields(db.rows[20..], 25, 3, 10), None)
    ensures Paginated(db, 4, 10, before) == Outcome(Fields([], 25, 4, 10), None)
    ensures Paginated(db, 0, -5, before) == Outcome(Fields(db.rows[..10], 25, 1, 10), None)
  {
  }

  // Walking the pages

  /** The number of pages needed to hold `total` rows. */
  function PageCount(total: nat, pageSize: int): nat
    requires pageSize >= 1
  {
    (total + pageSize - 1) / pageSize
  }

  lemma MulMonotone(a: int, b: int, c: int)
    requires a <= b && c >= 0
    ensures a * c <= b * c
  {
  }

  /** The last page is the one on which the final row falls. */
  lemma PageCountBounds(total: nat, pageSize: int)
    requires pageSize >= 1
    ensures var c := PageCount(total, pageSize);
      (c - 1) * pageSize < total <= c * pageSize
  {
    var c := PageCount(total, pageSize);
    var r := (total + pageSize - 1) % pageSize;
    assert total + pageSize - 1 == c * pageSize + r;
    assert (c - 1) * pageSize == c * pageSize - pageSize;
  }

  /** A page holds rows exactly when it is one of the first `PageCount`
      pages; every later page comes back empty without an error. */
  lemma {:induction false} PageEmptyIffBeyondLast<T>(db: Db<T>, page: int, pageSize: int, before: Fields<T>)
    requires !db.countFails && !db.fetchFails
    ensures var a := Paginated(db, page, pageSize, before).after;
      a.records == [] <==> a.page > PageCount(|db.rows|, a.pageSize)
  {
    var p, s := EffectivePage(page), EffectivePageSize(pageSize);
    var n, c := |db.rows|, PageCount(|db.rows|, s);
    PageCountBounds(n, s);
    var offset := Offset(p, s);
    assert Paginated(db, page, pageSize, before).after.records == Window(db.rows, offset, s);
    if p <= c {
      MulMonotone(p - 1, c - 1, s);
      assert offset < n;
    } else {
      MulMonotone(c, p - 1, s);
      assert offset >= n;
    }
  }

  /** On success, the records a call leaves for page `k` are that page's
      window of rows; `FirstPages` joins these windows. */
  lemma PageIsWindow<T>(db: Db<T>, k: int, pageSize: int, before: Fields<T>)
    requires !db.countFails && !db.fetchFails && k >= 1 && pageSize >= 1
    ensures Paginated(db, k, pageSize, before).after.records == Window(db.rows, Offset(k, pageSize), pageSize)
  {
  }

  /** The rows of pages 1 to `k`, one after the other. */
  function FirstPages<T>(rows: seq<T>, pageSize: int, k: nat): seq<T>
    requires pageSize >= 1
  {
    if k == 0 then [] else FirstPages(rows, pageSize, k - 1) + Window(rows, Offset(k, pageSize), pageSize)
  }

  /** Pages 1 to `k` together are the first `k * pageSize` rows: no row is
      skipped or repeated between consecutive pages. */
  lemma {:induction false} FirstPagesArePrefix<T>(rows: seq<T>, pageSize: int, k: nat)
    requires pageSize >= 1
    ensures FirstPages(rows, pageSize, k) == rows[..Min(k * pageSize, |rows|)]
  {
    if k > 0 {
      FirstPagesArePrefix(rows, pageSize, k - 1);
      var lo, hi := Min((k - 1) * pageSize, |rows|), Min(k * pageSize, |rows|);
      assert (k - 1) * pageSize + pageSize == k * pageSize;
      assert rows[..hi] == rows[..lo] + rows[lo..hi];
    }
  }

  /** Reading pages 1 to `PageCount` in turn yields every matching row
      exactly once, in query order. */
  lemma AllPagesCoverRows<T>(rows: seq<T>, pageSize: int)
    requires pageSize >= 1
    ensures FirstPages(rows, pageSize, PageCount(|rows|, pageSize)) == rows
  {
    FirstPagesArePrefix(rows, pageSize, PageCount(|rows|, pageSize));
    PageCountBounds(|rows|, pageSize);
  }
}
