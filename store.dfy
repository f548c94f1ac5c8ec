/** An abstract model of the part of the gorm query builder that the
    pagination routine uses: a query already scoped to one entity type is an
    immutable sequence of matching rows, plus one failure flag for the count
    and one for the fetch. SQL generation, reflection and statement reuse are
    not modelled. */
module Store {

  datatype Option<+T> = None | Some(value: T)

  /** Which of the two round trips to the database failed. */
  datatype QueryError = CountFailed | FetchFailed

  datatype Result<+T> = Ok(value: T) | Err(error: QueryError)

  /** A query over the rows that match its predicate, in query order.
      `leftOnFailure` is what a failing fetch leaves in its destination:
      `None` when it leaves the destination as it was. */
  datatype Db<T> = Db(
    rows: seq<T>,
    countFails: bool,
    fetchFails: bool,
    leftOnFailure: Option<seq<T>>)

  function Min(a: int, b: int): int { if a <= b then a else b }

  /** The rows that `Limit(limit).Offset(offset).Find` returns: at most
      `limit` consecutive rows, starting at position `offset`. */
  function Window<T>(rows: seq<T>, offset: nat, limit: nat): (r: seq<T>)
    ensures |r| <= limit
    ensures |r| == if offset >= |rows| then 0 else Min(limit, |rows| - offset)
    ensures forall i :: 0 <= i < |r| ==> r[i] == rows[offset + i]
  {
    rows[Min(offset, |rows|)..Min(offset + limit, |rows|)]
  }

  /** `tx.Count(&total)`: the number of matching rows, ignoring any paging. */
  function Count<T>(db: Db<T>): (r: Result<nat>)
    ensures r.Ok? <==> !db.countFails
    ensures r.Ok? ==> r.value == |db.rows|
    ensures r.Err? ==> r.error == CountFailed
  {
    if db.countFails then Err(CountFailed) else Ok(|db.rows|)
  }

  /** What a fetch leaves in its destination, and whether it failed. */
  datatype Fetch<T> = Fetch(dest: seq<T>, err: Option<QueryError>)

  /** `tx.Limit(limit).Offset(offset).Find(&dest)`: on success the
      destination is overwritten with the window of rows; on failure it holds
      whatever the store left in it. */
  function Find<T>(db: Db<T>, limit: nat, offset: nat, dest: seq<T>): (f: Fetch<T>)
    ensures f.err.None? <==> !db.fetchFails
    ensures f.err.None? ==> |f.dest| <= limit && f.dest == Window(db.rows, offset, limit)
    ensures f.err.Some? ==> f.err == Some(FetchFailed)
    ensures f.err.Some? && db.leftOnFailure.None? ==> f.dest == dest
  {
    if !db.fetchFails then Fetch(Window(db.rows, offset, limit), None)
    else match db.leftOnFailure
      case None => Fetch(dest, Some(FetchFailed))
      case Some(left) => Fetch(left, Some(FetchFailed))
  }
}
