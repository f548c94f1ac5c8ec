/** The caller-owned container that the pagination routine fills in. */
module PageResults {

  /** A snapshot of the four fields of a `PageResult`. */
  datatype Fields<T> = Fields(records: seq<T>, total: int, page: int, pageSize: int)

  class PageResult<T> {
    var records: seq<T>
    var total: int
    var page: int
    var pageSize: int

    /** A result whose records start as `records` and whose numeric fields
        hold Go's zero value. */
    constructor (records: seq<T>)
      ensures this.records == records
      ensures total == 0 && page == 0 && pageSize == 0
    {
      this.records := records;
      total, page, pageSize := 0, 0, 0;
    }

    function View(): Fields<T>
      reads this
    {
      Fields(records, total, page, pageSize)
    }
  }
}
