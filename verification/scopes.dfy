/** Page-request normalisation and the OFFSET/LIMIT window of a paged query
    (internal/repository/scopes.go). */
module Scopes {
  import opened Model
  import Sorting

  const MaxPageSize: int := 100

  /** A page number below 1 becomes 1 and a page size outside 1..100
      becomes 100; everything else is left as it was. */
  function Normalize(p: Pagination): (r: Pagination)
    ensures r.currentPage >= 1 && 1 <= r.pageSize <= MaxPageSize
    ensures p.currentPage >= 1 ==> r.currentPage == p.currentPage
    ensures p.currentPage < 1 ==> r.currentPage == 1
    ensures 1 <= p.pageSize <= MaxPageSize ==> r.pageSize == p.pageSize
    ensures !(1 <= p.pageSize <= MaxPageSize) ==> r.pageSize == MaxPageSize
    ensures r.total == p.total && r.totalPages == p.totalPages
  {
    var page := if p.currentPage <= 0 then 1 else p.currentPage;
    var size := if p.pageSize > MaxPageSize || p.pageSize <= 0 then MaxPageSize else p.pageSize;
    p.(currentPage := page, pageSize := size)
  }

  /** Normalising twice is normalising once. */
  lemma NormalizeIdempotent(p: Pagination)
    ensures Normalize(Normalize(p)) == Normalize(p)
  {
  }

  /** ceil(total / size) on non-negative totals. */
  function CeilDiv(total: nat, size: int): (r: nat)
    requires size >= 1
    ensures r * size >= total
    ensures r > 0 ==> (r - 1) * size < total
  {
    (total + size - 1) / size
  }

  /** Rows skipped and rows returned by a paged query. */
  datatype Window = Window(offset: int, limit: int)

  /** Paginate: the request is normalised, its totals are set from the
      number of rows the query matches, and the window starts after the
      preceding full pages. */
  function Paginate(p: Pagination, count: nat): (r: (Pagination, Window))
    ensures var q := Normalize(p);
      r.0 == q.(total := count, totalPages := r.0.totalPages)
    ensures r.0.totalPages * r.0.pageSize >= count
    ensures r.0.totalPages > 0 ==> (r.0.totalPages - 1) * r.0.pageSize < count
    ensures count == 0 <==> r.0.totalPages == 0
    ensures r.1.offset >= 0 && r.1.limit == r.0.pageSize
    ensures r.1.offset == (r.0.currentPage - 1) * r.0.pageSize
  {
    var q := Normalize(p);
    var pages := CeilDiv(count, q.pageSize);
    (q.(total := count, totalPages := pages), Window((q.currentPage - 1) * q.pageSize, q.pageSize))
  }

  /** The rows of `s` that fall inside the window. */
  function Page<T>(s: seq<T>, w: Window): (r: seq<T>)
    requires w.offset >= 0 && w.limit >= 0
    ensures |r| <= w.limit
    ensures w.offset + w.limit <= |s| ==> |r| == w.limit
    ensures |r| > 0 ==> w.offset + |r| <= |s|
    ensures forall i :: 0 <= i < |r| ==> r[i] == s[w.offset + i]
    ensures w.offset < |s| < w.offset + w.limit ==> |r| == |s| - w.offset
    ensures w.offset >= |s| ==> r == []
  {
    var lo := if w.offset < |s| then w.offset else |s|;
    var hi := if w.offset + w.limit < |s| then w.offset + w.limit else |s|;
    s[lo..hi]
  }

  /** A window of a list sorted by `key` is sorted by `key` and drawn from
      the list. */
  lemma PageSorted<T>(s: seq<T>, w: Window, key: T -> int)
    requires w.offset >= 0 && w.limit >= 0
    requires Sorting.SortedBy(s, key)
    ensures Sorting.SortedBy(Page(s, w), key)
    ensures forall x :: x in Page(s, w) ==> x in s
  {
    var r := Page(s, w);
    forall i, j | 0 <= i < j < |r| ensures key(r[i]) <= key(r[j]) {
      assert r[i] == s[w.offset + i] && r[j] == s[w.offset + j];
    }
    forall x | x in r ensures x in s {
      var i :| 0 <= i < |r| && r[i] == x;
      assert r[i] == s[w.offset + i];
    }
  }

  /** Every row of a listing is returned by the page its position falls
      in: row `(pg - 1) * size + j` is row `j` of page `pg`. */
  lemma RowOnItsPage<T>(s: seq<T>, size: int, pg: int, j: int)
    requires 1 <= size <= MaxPageSize && pg >= 1 && 0 <= j < size
    requires (pg - 1) * size + j < |s|
    ensures var w := Paginate(Pagination(pg, size, 0, 0), |s|).1;
      j < |Page(s, w)| && Page(s, w)[j] == s[(pg - 1) * size + j]
  {
    var w := Paginate(Pagination(pg, size, 0, 0), |s|).1;
    assert w == Window((pg - 1) * size, size);
    PageAt(s, w, j);
  }

  /** Some page returns row `i` of the listing, at some position. */
  /** The page and the place on it where an element of the listing is shown. */
  lemma PlaceOf<T>(s: seq<T>, size: int, x: T) returns (pg: int, j: int)
    requires 1 <= size <= MaxPageSize && x in s
    ensures pg >= 1
    ensures var shown := Page(s, Paginate(Pagination(pg, size, 0, 0), |s|).1);
      0 <= j < |shown| && shown[j] == x
  {
    var i :| 0 <= i < |s| && s[i] == x;
    ListedOnSomePage(s, size, i);
    pg, j :| pg >= 1 && 0 <= j < |Page(s, Paginate(Pagination(pg, size, 0, 0), |s|).1)| &&
      Page(s, Paginate(Pagination(pg, size, 0, 0), |s|).1)[j] == s[i];
  }

  lemma ListedOnSomePage<T>(s: seq<T>, size: int, i: int)
    requires 1 <= size <= MaxPageSize && 0 <= i < |s|
    ensures exists pg, j ::
      (pg >= 1 && 0 <= j < |Page(s, Paginate(Pagination(pg, size, 0, 0), |s|).1)| &&
       Page(s, Paginate(Pagination(pg, size, 0, 0), |s|).1)[j] == s[i])
  {
    var q, m := Position(i, size);
    RowOnItsPage(s, size, q + 1, m);
    assert (q + 1 - 1) * size == q * size;
  }

  /** Row `i` sits `m` rows into page `q + 1` of pages of `n` rows. */
  lemma Position(i: int, n: int) returns (q: int, m: int)
    requires i >= 0 && n >= 1
    ensures q >= 0 && 0 <= m < n && q * n + m == i
  {
    q, m := i / n, i % n;
  }

  /** The row `m` rows into a window that reaches it. */
  lemma PageAt<T>(s: seq<T>, w: Window, m: int)
    requires w.offset >= 0 && 0 <= m < w.limit && w.offset + m < |s|
    ensures m < |Page(s, w)| && Page(s, w)[m] == s[w.offset + m]
  {
  }
}
