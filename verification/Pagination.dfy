// internal/lib/pagination.go, and the LIMIT/OFFSET slice its values select.

module Pagination {
  import opened Options
  import opened Numbers

  const DEFAULT_PAGE := 1
  const DEFAULT_PAGE_SIZE := 20
  const MAX_PAGE_SIZE := 100
  const INT64_MAX := 0x7FFF_FFFF_FFFF_FFFF
  const TWO_TO_64 := 0x1_0000_0000_0000_0000

  /** Two's complement, as Go's int. */
  function Wrap64(x: int): int { (x + INT64_MAX + 1) % TWO_TO_64 - INT64_MAX - 1 }

  datatype Params = Params(page: int, pageSize: int)
  {
    /** What ParseParams returns. */
    predicate Valid() { 1 <= page <= INT64_MAX && 1 <= pageSize <= MAX_PAGE_SIZE }

    /** Computed in 64-bit ints, so it wraps. */
    function Offset(): int { Wrap64((page - 1) * pageSize) }
  }

  datatype Meta = Meta(page: int, pageSize: int, total: int, totalPages: int)

  /** `page` and `pageSize` are what Atoi makes of the query strings: 0 for a malformed one, clamped for one out of
      range. */
  method ParseParams(page: int, pageSize: int) returns (p: Params)
    requires page <= INT64_MAX
    ensures p.Valid()
    ensures p.page == page || (p.page == 1 && page < 1)
    ensures p.pageSize == pageSize || (p.pageSize == 20 && !(1 <= pageSize <= 100))
  {
    var pg, size := page, pageSize;
    if pg < 1 { pg := DEFAULT_PAGE; }
    if size < 1 || size > MAX_PAGE_SIZE { size := DEFAULT_PAGE_SIZE; }
    return Params(pg, size);
  }

  /** The least number of pages of that size that holds `total` rows. */
  function TotalPages(total: nat, pageSize: nat): (n: nat)
    requires pageSize > 0
    ensures n * pageSize >= total
    ensures n > 0 ==> (n - 1) * pageSize < total
  {
    (total + pageSize - 1) / pageSize
  }

  lemma MulMonotone(a: int, b: int, n: nat)
    requires a <= b
    ensures a * n <= b * n
  {
  }

  lemma LeastIsUnique(total: nat, size: nat, m: nat, n: nat)
    requires size > 0
    requires m * size >= total && (m > 0 ==> (m - 1) * size < total)
    requires n * size >= total && (n > 0 ==> (n - 1) * size < total)
    ensures m == n
  {
    if m < n { MulMonotone(m, n - 1, size); }
    else if n < m { MulMonotone(n, m - 1, size); }
  }

  method NewMeta(params: Params, total: nat) returns (m: Meta)
    requires params.Valid()
    ensures m == Meta(params.page, params.pageSize, total, TotalPages(total, params.pageSize))
  {
    var totalPages := total / params.pageSize;
    if total % params.pageSize > 0 {
      totalPages := totalPages + 1;
    }
    LeastIsUnique(total, params.pageSize, totalPages, TotalPages(total, params.pageSize));
    return Meta(params.page, params.pageSize, total, totalPages);
  }

  /** LIMIT limit OFFSET offset. */
  function Slice<T>(rows: seq<T>, offset: nat, limit: nat): seq<T> {
    var from := Min(offset, |rows|);
    rows[from..Min(from + limit, |rows|)]
  }

  /** LIMIT pageSize OFFSET Offset(); the database refuses a negative OFFSET. */
  function Page<T>(rows: seq<T>, p: Params): Option<seq<T>>
    requires p.pageSize >= 0
  {
    if p.Offset() < 0 then None else Some(Slice(rows, p.Offset(), p.pageSize))
  }

  /** The offset is the one meant exactly while that fits an int64. */
  lemma OffsetIsExact(p: Params)
    requires p.Valid()
    ensures 0 <= (p.page - 1) * p.pageSize
    ensures p.Offset() == (p.page - 1) * p.pageSize <==> (p.page - 1) * p.pageSize <= INT64_MAX
  {
    MulMonotone(0, p.page - 1, p.pageSize);
  }

  /** Up to the last page the offset is below the total, and never overflows. */
  lemma OffsetsFit(p: Params, total: nat)
    requires p.Valid() && total <= INT64_MAX && p.page <= TotalPages(total, p.pageSize)
    ensures p.Offset() == (p.page - 1) * p.pageSize && 0 <= p.Offset() < total
  {
    var n := TotalPages(total, p.pageSize);
    MulMonotone(p.page - 1, n - 1, p.pageSize);
    OffsetIsExact(p);
  }

  /** Pages 1..k, one after the other. */
  function FirstPages<T>(rows: seq<T>, pageSize: int, k: nat): seq<T>
    requires pageSize >= 0
  {
    if k == 0 then []
    else
      var page := Page(rows, Params(k, pageSize));
      FirstPages(rows, pageSize, k - 1) + if page.Some? then page.value else []
  }

  lemma PageAt<T>(rows: seq<T>, p: Params, from: nat)
    requires p.pageSize >= 0 && p.Offset() == from <= |rows|
    ensures Page(rows, p) == Some(rows[from..Min(from + p.pageSize, |rows|)])
  {
  }

  lemma Joined<T>(rows: seq<T>, from: nat, to: nat)
    requires from <= |rows|
    ensures from <= to ==> rows[..from] + rows[from..Min(to, |rows|)] == rows[..Min(to, |rows|)]
  {
  }

  lemma {:induction false} FirstPagesArePrefix<T>(rows: seq<T>, pageSize: int, k: nat)
    requires 1 <= pageSize <= MAX_PAGE_SIZE && |rows| <= INT64_MAX && k <= TotalPages(|rows|, pageSize) <= INT64_MAX
    ensures k * pageSize >= 0
    ensures FirstPages(rows, pageSize, k) == rows[..Min(k * pageSize, |rows|)]
  {
    MulMonotone(0, k, pageSize);
    if k > 0 {
      FirstPagesArePrefix(rows, pageSize, k - 1);
      OffsetsFit(Params(k, pageSize), |rows|);
      var from, to := (k - 1) * pageSize, k * pageSize;
      assert to == from + pageSize;
      PageAt(rows, Params(k, pageSize), from);
      Joined(rows, from, to);
    }
  }

  lemma PagesAreFew(total: nat, pageSize: nat)
    requires pageSize > 0
    ensures TotalPages(total, pageSize) <= total
  {
    var n := TotalPages(total, pageSize);
    if n > 0 { MulMonotone(1, pageSize, n - 1); }
  }

  /** Pages 1..TotalPages put together are the rows, each exactly once and in order. */
  lemma PagesPartition<T>(rows: seq<T>, pageSize: int)
    requires 1 <= pageSize <= MAX_PAGE_SIZE && |rows| <= INT64_MAX
    ensures FirstPages(rows, pageSize, TotalPages(|rows|, pageSize)) == rows
  {
    PagesAreFew(|rows|, pageSize);
    FirstPagesArePrefix(rows, pageSize, TotalPages(|rows|, pageSize));
  }

  /** Every page but the last is full, the last is not empty, and later ones are empty while their offset fits an
      int64. */
  lemma PageSizes<T>(rows: seq<T>, p: Params)
    requires p.Valid() && |rows| <= INT64_MAX
    ensures var n, page := TotalPages(|rows|, p.pageSize), Page(rows, p);
            && (p.page < n ==> page.Some? && |page.value| == p.pageSize)
            && (p.page == n ==> page.Some? && 1 <= |page.value| <= p.pageSize)
            && (p.page > n && (p.page - 1) * p.pageSize <= INT64_MAX ==> page == Some([]))
  {
    var n := TotalPages(|rows|, p.pageSize);
    if p.page <= n {
      OffsetsFit(p, |rows|);
      if p.page < n { MulMonotone(p.page, n - 1, p.pageSize); }
      assert p.page * p.pageSize == (p.page - 1) * p.pageSize + p.pageSize;
    } else if (p.page - 1) * p.pageSize <= INT64_MAX {
      OffsetIsExact(p);
      MulMonotone(n, p.page - 1, p.pageSize);
    }
  }

  // ----- Pages past the last -----

  /** What is left of the offset of a page in 64 unsigned bits. */
  function Residue(p: Params): int { (p.page - 1) * p.pageSize % TWO_TO_64 }

  lemma OffsetOfResidue(p: Params)
    ensures p.Offset() == if Residue(p) <= INT64_MAX then Residue(p) else Residue(p) - TWO_TO_64
  {
  }

  /** A page past the last comes back empty exactly when the residue of its offset lies from the total to 2^63 - 1;
      above that the database refuses the query, and below the total it shows rows again. */
  lemma LaterPagesEmptyIff<T>(rows: seq<T>, p: Params)
    requires p.Valid() && |rows| <= INT64_MAX && p.page > TotalPages(|rows|, p.pageSize)
    ensures Page(rows, p) == Some([]) <==> |rows| <= Residue(p) <= INT64_MAX
    ensures Page(rows, p) == None <==> INT64_MAX < Residue(p)
    ensures Residue(p) < |rows| <==> Page(rows, p).Some? && Page(rows, p).value != []
  {
    OffsetOfResidue(p);
    if 0 <= p.Offset() < |rows| { assert |Page(rows, p).value| > 0; }
  }

  /** Page 2^58 + 1 of size 64 is the first page again. */
  lemma FarPagesMayRepeatTheFirst<T>(rows: seq<T>)
    ensures var far := Params(0x400_0000_0000_0001, 64);
            far.Valid() && Page(rows, far) == Page(rows, Params(1, 64))
  {
  }

  /** Page 2^57 + 1 of size 64 has a negative offset, which the database refuses. */
  lemma FarPagesMayBeRefused<T>(rows: seq<T>)
    ensures var far := Params(0x200_0000_0000_0001, 64);
            far.Valid() && Page(rows, far).None?
  {
  }

  /** The first page whose offset no longer fits an int64. */
  function FirstWrapped(pageSize: nat): Params
    requires pageSize > 0
  {
    Params(INT64_MAX / pageSize + 2, pageSize)
  }

  lemma FirstWrappedIsRefused(rows: nat, pageSize: int)
    requires 2 <= pageSize <= MAX_PAGE_SIZE && rows <= INT64_MAX
    ensures var p := FirstWrapped(pageSize);
            p.Valid() && p.page > TotalPages(rows, pageSize) && Residue(p) > INT64_MAX
  {
    var p := FirstWrapped(pageSize);
    var q := INT64_MAX / pageSize;
    var offset := (q + 1) * pageSize;
    assert INT64_MAX == q * pageSize + INT64_MAX % pageSize;
    assert offset == q * pageSize + pageSize;
    assert INT64_MAX < offset <= INT64_MAX + pageSize;
    assert Residue(p) == offset % TWO_TO_64 == offset;
    var n := TotalPages(rows, pageSize);
    if p.page <= n { MulMonotone(q + 1, n - 1, pageSize); }
  }

  /** Every page past the last is empty, whatever its number, only for pages of one row. */
  lemma AllLaterPagesEmptyIffSizeOne<T>(rows: seq<T>, pageSize: int)
    requires 1 <= pageSize <= MAX_PAGE_SIZE && |rows| <= INT64_MAX
    ensures (forall p: Params :: p.pageSize == pageSize && p.Valid() && p.page > TotalPages(|rows|, pageSize) ==>
               Page(rows, p) == Some([]))
            <==> pageSize == 1
  {
    if pageSize == 1 {
      forall p: Params | p.pageSize == 1 && p.Valid() && p.page > TotalPages(|rows|, 1)
        ensures Page(rows, p) == Some([])
      {
        PageSizes(rows, p);
      }
    } else {
      var p := FirstWrapped(pageSize);
      FirstWrappedIsRefused(|rows|, pageSize);
      LaterPagesEmptyIff(rows, p);
      assert Page(rows, p) == None;
    }
  }
}
