# gorm-pagination in Dafny

This project models `Paginate[T]`, the generic pagination routine of the
gorm-pagination library. The routine takes a gorm query that is already scoped
to one entity type, a requested page and a requested page size. It does four things:

1. It normalises the page and page size. A non-positive page becomes 1 and a
   non-positive page size becomes 10. There is no upper bound.
2. It counts every row that matches the query.
3. It fetches at most `pageSize` rows, starting at offset `(page-1)*pageSize`,
   into the caller-owned `PageResult`.
4. It writes the total, the page and the page size into that result.

The routine returns the query builder it was given and an error. A failing
step returns at once.

- `store.dfy` (module `Store`) models the part of gorm that the routine uses.
  A query is an immutable value `Db`: the sequence of matching rows, one
  failure flag for the count, one for the fetch, and what a failing fetch
  leaves in its destination. `Count` is the number of rows.
  `Limit(n).Offset(k).Find` is the window `rows[min(k,|rows|)..min(k+n,|rows|)]`.
- `page_result.dfy` (module `PageResults`) is `PageResult` as a class with four
  mutable fields. Its `View()` returns a `Fields` value, a snapshot of those
  four fields.
- `paginate.dfy` (module `Pagination`) holds the normalisation functions and the
  offset. `Paginated` is a specification function that gives a call's
  outcome. `Paginate` is the imperative routine. It reassigns its local copies
  of page and size, returns early on errors and updates `result` in place. It is
  proved to follow `Paginated`.
- `paginate_properties.dfy` (module `PaginationProperties`) holds the properties
  of a call. It also proves that a page is empty exactly when it lies beyond
  the last page. Over one fixed row order, the windows of pages 1, 2, … tile
  the matching rows with no gap and no overlap. The model gives every query
  that same row order.

## Model

| member | source | states |
|---|---|---|
| `Pagination.EffectivePage` | pagination/paginate.go:6-8 | the page served is at least 1; a positive request is kept unchanged and a non-positive one becomes 1 |
| `Pagination.EffectivePageSize` | pagination/paginate.go:9-11 | the page size served is at least 1; a positive request is kept unchanged with no upper bound, and a non-positive one becomes 10 |
| `Pagination.Offset` | pagination/paginate.go:19 | the offset is non-negative and is 0 exactly on page 1; a full page that starts there ends at `page*pageSize`, which is where the next page starts |
| `Store.Count` | pagination/paginate.go:15 | the count fails exactly when the store's count fails, with `CountFailed`; otherwise it is the number of all matching rows |
| `Store.Find` | pagination/paginate.go:21 | the fetch fails exactly when the store's fetch fails, with `FetchFailed`; on success the destination becomes the window of at most `limit` rows at `offset`; on a failure that writes nothing the destination stays as it was |
| `Pagination.Paginated` | pagination/paginate.go:5-30 | the outcome of one call: any error leaves total, page and page size as they were, and a count error leaves the whole result as it was; a success sets the total to the count of all matching rows and writes a page and page size of at least 1 with at most `pageSize` records |
| `Store.Window` | pagination/paginate.go:21 | the fetched rows number at most the limit; there are none when the offset is at or past the end, otherwise `min(limit, rows-offset)` of them; element `i` is row `offset+i` |
| `PageResults.PageResult.constructor` | pagination/result.go:3-8 | a result that holds the given records, with zero total, page and page size |
| `Pagination.Paginate` | pagination/paginate.go:5-30 | updates `result` in place exactly as `Paginated` describes and returns the query builder it was given, on every path |
| `PaginationProperties.CountFailureWritesNothing` | pagination/paginate.go:15-17 | if the count fails, that error is returned and no field of the result changes |
| `PaginationProperties.FetchFailureKeepsMetadata` | pagination/paginate.go:21-23 | if the fetch fails, its error is returned and the total, page and page size stay unchanged; the records hold what the store left in them |
| `PaginationProperties.SucceedsIffStoreSucceeds` | pagination/paginate.go:15-29 | a call returns no error if and only if both the count and the fetch succeed |
| `PaginationProperties.SuccessFillsResult` | pagination/paginate.go:19-27 | on success the total is the count of all matching rows; page and page size are the normalised values, both at least 1; the records are the matching rows from offset `(page-1)*pageSize` on, at most `pageSize` of them and in query order |
| `PaginationProperties.TotalIgnoresPaging` | pagination/paginate.go:15 | two successful calls on the same query report the same total, whatever page, page size or earlier result they were given |
| `PaginationProperties.Idempotent` | pagination/paginate.go:5-30 | a second identical call on an unchanged store returns the same error and leaves the result as the first call left it |
| `PaginationProperties.TwentyFiveRows` | pagination/paginate.go:5-30 | with 25 matching rows: page 1 size 10 gives rows 1-10; page 3 gives rows 21-25; page 4 gives no rows and no error; page 0 size -5 is served as page 1 size 10 |
| `PaginationProperties.PageCountBounds` | pagination/paginate.go:19 | the last page, `ceil(total/pageSize)`, is the page on which the final row falls |
| `PaginationProperties.PageEmptyIffBeyondLast` | pagination/paginate.go:19-21 | on success, a page comes back empty if and only if it lies beyond the last page |
| `PaginationProperties.PageIsWindow` | pagination/paginate.go:19-21 | on success, the records of page `k` at page size `s` are exactly the store's window of `s` rows at offset `(k-1)*s` |
| `PaginationProperties.FirstPagesArePrefix` | pagination/paginate.go:19-21 | pages 1 to `k` concatenated are exactly the first `k*pageSize` matching rows, so consecutive pages neither skip nor repeat a row |
| `PaginationProperties.AllPagesCoverRows` | pagination/paginate.go:19-21 | reading pages 1 to the last page in turn yields every matching row exactly once, in query order |

## Left out

- Go's fixed-width integers. Page, page size and offset are unbounded Dafny
  integers, so a very large `(page-1)*pageSize` does not wrap around as the
  64-bit product at pagination/paginate.go:19 would. The total is a `nat`,
  not an `int64`.
- gorm itself is not modelled: SQL generation for `Count`, `Limit`, `Offset`
  and `Find`, reflection into `result.Records`, and reuse of one statement for
  both the count and the fetch. The store is the abstract value `Store.Db`.
- Pagination.Paginate: `ensures db == tx` says only that the same query
  builder comes back. A gorm builder that was not cloned keeps the `Limit` and
  `Offset` clauses that pagination/paginate.go:21 adds to it. Passing the
  returned builder into a second call is therefore not modelled.
  `PaginationProperties.Idempotent` is about a second call on a fresh query
  over the same rows.
- Nil pointers: a nil `tx` panics inside `tx.Count` at pagination/paginate.go:15.
  A nil `result` gets through the count and panics when `&result.Records` is
  evaluated at pagination/paginate.go:21. In the model `tx` is a value and
  `result` is a non-null reference, so neither nil case nor its panic is
  modelled.
- Errors: the model returns `CountFailed` or `FetchFailed`, which names the step
  that failed. The Go routine returns gorm's own error value.
- What a failing fetch writes into `Records` is the store's choice. The model
  takes it as a parameter of the store (`leftOnFailure`). That leftover is fixed
  per store and is the same for every offset and limit. A real fetch that fails
  part-way may leave a prefix of the requested window, which depends on the page.
- Consistency between the count and the fetch under concurrent writes. The
  model reads one unchanging row sequence for both steps.
- PaginationProperties.FirstPagesArePrefix, PaginationProperties.AllPagesCoverRows:
  the model gives every query the same row order and allows no writes between
  calls. Each page is its own `Limit`/`Offset` query at
  pagination/paginate.go:21, and the routine adds no ordering. SQL keeps row
  order stable across such queries only under an ordering on a unique key. So
  these tiling results hold for the program only when the query is ordered on
  a unique key and the table does not change between calls. Otherwise pages
  may repeat or skip rows.
- The JSON struct tags of pagination/result.go:4-7. They are serialisation
  metadata.
- examples/pageExample.go: the database connection, logger set-up and `main`.
  These are I/O glue.
