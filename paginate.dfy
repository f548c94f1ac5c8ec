/** The pagination routine: normalise the requested page and page size, count
    every matching row, fetch one page of rows at offset (page-1)*pageSize,
    and record the outcome in a caller-owned `PageResult`. */
module Pagination {
  import opened Store
  import opened PageResults

  /** The page used when the requested page is not positive. */
  const DefaultPage := 1
  /** The page size used when the requested page size is not positive. */
  const DefaultPageSize := 10

  /** The page actually served for a requested page number. */
  function EffectivePage(page: int): (p: int)
    ensures p >= 1
    ensures page >= 1 ==> p == page
    ensures page < 1 ==> p == DefaultPage
  {
    if page <= 0 then DefaultPage else page
  }

  /** The page size actually served for a requested page size; there is no
      upper bound. */
  function EffectivePageSize(pageSize: int): (s: int)
    ensures s >= 1
    ensures pageSize >= 1 ==> s == pageSize
    ensures pageSize < 1 ==> s == DefaultPageSize
  {
    if pageSize <= 0 then DefaultPageSize else pageSize
  }

  /** The number of rows skipped before `page` begins: a full page of rows
      starting there ends at `page * pageSize`, where the next page begins. */
  function Offset(page: int, pageSize: int): (o: nat)
    requires page >= 1 && pageSize >= 1
    ensures o + pageSize == page * pageSize
    ensures page == 1 <==> o == 0
  {
    (page - 1) * pageSize
  }

  /** The error returned by a call, if any, and the fields of the result
      after it. */
  datatype Outcome<T> = Outcome(after: Fields<T>, err: Option<QueryError>)

  /** What one call of the routine does to a result whose fields are
      `before`. An error never writes the total, the page or the page size;
      a success writes a valid page. */
  function Paginated<T>(db: Db<T>, page: int, pageSize: int, before: Fields<T>): (o: Outcome<T>)
    ensures o.err.Some? ==>
      o.after.total == before.total && o.after.page == before.page && o.after.pageSize == before.pageSize
    ensures o.err == Some(CountFailed) ==> o.after == before
    ensures o.err.None? ==>
      o.after.total == |db.rows| && o.after.page >= 1 && o.after.pageSize >= 1 &&
      |o.after.records| <= o.after.pageSize
  {
    var p := EffectivePage(page);
    var s := EffectivePageSize(pageSize);
    match Count(db)
    case Err(e) => Outcome(before, Some(e))
    case Ok(total) =>
      var f := Find(db, s, Offset(p, s), before.records);
      if f.err.Some? then Outcome(before.(records := f.dest), f.err)
      else Outcome(Fields(f.dest, total, p, s), None)
  }

  /** Fills `result` with one page of the rows of `tx`. The same query
      builder comes back; the error, if any, is that of the first failing
      round trip. */
  method Paginate<T>(tx: Db<T>, page: int, pageSize: int, result: PageResult<T>)
    returns (db: Db<T>, err: Option<QueryError>)
    modifies result
    ensures db == tx
    ensures Outcome(result.View(), err) == Paginated(tx, page, pageSize, old(result.View()))
  {
    var p, size := page, pageSize;
    if p <= 0 {
      p := DefaultPage;
    }
    if size <= 0 {
      size := DefaultPageSize;
    }

    var counted := Count(tx);
    if counted.Err? {
      return tx, Some(counted.error);
    }
    var total := counted.value;

    var offset := (p - 1) * size;
    assert offset == Offset(p, size);

    var fetched := Find(tx, size, offset, result.records);
    result.records := fetched.dest;
    if fetched.err.Some? {
      return tx, fetched.err;
    }

    result.total := total;
    result.page := p;
    result.pageSize := size;
    return tx, None;
  }
}
