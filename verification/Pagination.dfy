/** Page numbers, page sizes and offsets: two ways of reading them, and how pages tile a collection. */
module Pagination {
  import opened Options
  import opened Decimal
  import opened Slices

  /** Go's int arithmetic wraps at 64 bits. */
  function Wrap64(n: int): (r: int)
    ensures InInt64(r) && (InInt64(n) ==> r == n) && (n - r) % 0x1_0000_0000_0000_0000 == 0
  {
    (n - MIN_INT64) % 0x1_0000_0000_0000_0000 + MIN_INT64
  }

  function Max(a: int, b: int): int {
    if a < b then b else a
  }

  function Abs(a: int): nat {
    if a < 0 then -a else a
  }

  /** Go's division drops the fraction, and the remainder has the sign of the dividend. */
  function GoDiv(a: int, b: int): int
    requires b != 0
  {
    if (a < 0) == (b < 0) then Abs(a) / Abs(b) else -(Abs(a) / Abs(b))
  }

  function GoMod(a: int, b: int): int
    requires b != 0
  {
    if a < 0 then -(Abs(a) % Abs(b)) else Abs(a) % Abs(b)
  }

  // ---------- the last page ----------

  datatype PaginationMeta = PaginationMeta(currentPage: int, perPage: int, total: int, lastPage: int)

  /** The pages 1..last hold `total` items, and no shorter run of pages does; an empty collection has one page. */
  ghost predicate IsLastPage(perPage: int, total: int, last: int) {
    last >= 1 && total <= last * perPage && (last == 1 || (last - 1) * perPage < total)
  }

  lemma Division(a: int, b: int)
    requires b != 0
    ensures a >= 0 && b > 0 ==> GoDiv(a, b) * b + GoMod(a, b) == a && 0 <= GoMod(a, b) < b && 0 <= GoDiv(a, b)
    ensures a < 0 && b < 0 ==> GoDiv(a, b) * -b <= -a < (GoDiv(a, b) + 1) * -b && GoDiv(a, b) >= 0
    ensures a <= 0 ==> GoMod(a, b) <= 0
    ensures (a <= 0 && b > 0) || (a >= 0 && b < 0) ==> GoDiv(a, b) <= 0
  {
    var m, n := Abs(a), Abs(b);
    assert m == n * (m / n) + m % n;
    assert (m / n + 1) * n == m / n * n + n;
  }

  lemma LastPageIs(total: int, perPage: int)
    requires perPage != 0
    ensures var last := Max(1, GoDiv(total, perPage) + if GoMod(total, perPage) > 0 then 1 else 0);
            && (perPage >= 1 && total >= 0 ==> IsLastPage(perPage, total, last))
            && (perPage < 0 && total < 0 ==>
                  last * -perPage <= Max(-total, -perPage) < (last + 1) * -perPage)
            && ((total <= 0 && perPage >= 1) || (total >= 0 && perPage < 0) ==> last == 1)
  {
    hide GoDiv, GoMod;
    Division(total, perPage);
    var q := GoDiv(total, perPage);
    assert (q + 1) * perPage == q * perPage + perPage;
  }

  /** Panics, as the source does, for a zero page size only. */
  method NewPaginationMeta(page: int, perPage: int, total: int) returns (meta: PaginationMeta)
    requires perPage != 0
    ensures meta.currentPage == page && meta.perPage == perPage && meta.total == total
    ensures perPage >= 1 && total >= 0 ==> IsLastPage(perPage, total, meta.lastPage)
    ensures meta.lastPage >= 1
    ensures perPage < 0 && total < 0 ==>
              meta.lastPage * -perPage <= Max(-total, -perPage) < (meta.lastPage + 1) * -perPage
    ensures (total <= 0 && perPage >= 1) || (total >= 0 && perPage < 0) ==> meta.lastPage == 1
  {
    hide GoDiv, GoMod, IsLastPage;
    LastPageIs(total, perPage);
    var lastPage := GoDiv(total, perPage);
    if GoMod(total, perPage) > 0 {
      lastPage := lastPage + 1;
    }
    if lastPage < 1 {
      lastPage := 1;
    }
    return PaginationMeta(page, perPage, total, lastPage);
  }

  // ---------- a request's page, page size and offset ----------

  datatype PaginationRequest = PaginationRequest(page: int, perPage: int) {
    function GetPage(): int {
      if page < 1 then 1 else page
    }

    function GetPerPage(): int {
      if perPage < 1 then 15 else if perPage > 100 then 100 else perPage
    }

    function GetOffset(): int {
      Wrap64((GetPage() - 1) * GetPerPage())
    }
  }

  datatype PaginationParams = PaginationParams(page: int, perPage: int, offset: int)

  /** A query parameter as an int: the default when missing or not a number, clamped to bounds that are not zero. */
  function ParseIntValue(text: string, default_: int, min: int, max: int): int {
    if text == "" then default_
    else
      match ParseInt(text)
      case None => default_
      case Some(n) => if min != 0 && n < min then min else if max != 0 && n > max then max else n
  }

  function ParsePagination(page: string, perPage: string): PaginationParams {
    var p, n := ParseIntValue(page, 1, 1, 0), ParseIntValue(perPage, 15, 1, 100);
    PaginationParams(p, n, Wrap64((p - 1) * n))
  }

  /** What a query parameter gives: its default for any text that is not an int64, and else the nearest number within
      the bounds, of which zero is none. */
  lemma ParseIntMeaning(text: string, default_: int, min: int, max: int)
    requires min != 0 && max != 0 ==> min <= max
    ensures (forall n :: !(InInt64(n) && IsNumeral(text, n))) ==> ParseIntValue(text, default_, min, max) == default_
    ensures forall n :: InInt64(n) && IsNumeral(text, n) ==>
              var r := ParseIntValue(text, default_, min, max);
              && (min != 0 ==> r >= min) && (max != 0 ==> r <= max)
              && (r == n || (min != 0 && n < min == r) || (max != 0 && n > max == r))
  {
    hide ParseInt, IsNumeral;
    forall n ensures ParseInt(text) == Some(n) <==> InInt64(n) && IsNumeral(text, n) {
      ParseMeaning(text, n);
    }
    NoNumberEmpty();
  }

  lemma NoNumberEmpty()
    ensures ParseInt("") == None
  {
  }

  /** What both readers give, number by number: the page at least 1, the page size at most 100; below 1 the query reader
      gives 1 and the request 15; and the offset of a page and a size, as far as 64 bits hold it. */
  lemma ReaderValues(page: int, perPage: int)
    requires InInt64(page) && InInt64(perPage)
    ensures var r, q := PaginationRequest(page, perPage), ParsePagination(FormatInt(page), FormatInt(perPage));
            && r.GetPage() == q.page && (if page >= 1 then q.page == page else q.page == 1)
            && (1 <= perPage <= 100 ==> r.GetPerPage() == q.perPage == perPage)
            && (perPage > 100 ==> r.GetPerPage() == q.perPage == 100)
            && (perPage < 1 ==> r.GetPerPage() == 15 && q.perPage == 1)
            && (InInt64((r.GetPage() - 1) * r.GetPerPage()) ==> r.GetOffset() == (r.GetPage() - 1) * r.GetPerPage())
            && (InInt64((q.page - 1) * q.perPage) ==> q.offset == (q.page - 1) * q.perPage)
  {
    hide ParseInt, FormatInt;
    ParseFormat(page);
    ParseFormat(perPage);
    FormatChars(page);
    FormatChars(perPage);
  }

  /** For explicit numbers the two readers agree exactly when the page size is at least 1: below that,
      the query reader clamps to 1 and the request falls back to 15. */
  lemma ReadersAgreeIff(page: int, perPage: int)
    requires InInt64(page) && InInt64(perPage)
    ensures var r := PaginationRequest(page, perPage);
            ParsePagination(FormatInt(page), FormatInt(perPage))
            == PaginationParams(r.GetPage(), r.GetPerPage(), r.GetOffset())
            <==> perPage >= 1
  {
    hide ParseInt, FormatInt;
    ParseFormat(page);
    ParseFormat(perPage);
    FormatChars(page);
    FormatChars(perPage);
  }

  /** Missing parameters read as the zero fields of a request. */
  lemma MissingReadersAgree()
    ensures var r := PaginationRequest(0, 0);
            ParsePagination("", "") == PaginationParams(r.GetPage(), r.GetPerPage(), r.GetOffset())
  {
  }

  // ---------- tiling ----------

  /** Item k is on page p. */
  ghost predicate OnPage(perPage: int, p: int, k: int) {
    (p - 1) * perPage <= k < p * perPage
  }

  /** Pages tile the collection: every index below the total lies on exactly one of the pages 1..last. */
  lemma PagesTile(perPage: int, total: int, last: int, k: int) returns (p: int)
    requires perPage >= 1 && IsLastPage(perPage, total, last) && 0 <= k < total
    ensures 1 <= p <= last && OnPage(perPage, p, k)
    ensures forall q :: OnPage(perPage, q, k) ==> q == p
  {
    p := k / perPage + 1;
    assert k == perPage * (k / perPage) + k % perPage;
    assert (p - 1) * perPage <= k < p * perPage;
    if p > last {
      ProductsOrdered(last, p - 1, perPage);
    }
    forall q | OnPage(perPage, q, k) ensures q == p {
      if q < p {
        ProductsOrdered(q, p - 1, perPage);
      } else if q > p {
        ProductsOrdered(p, q - 1, perPage);
      }
    }
  }

  /** A non-empty collection has as many chunks as pages. */
  lemma ChunkCountIsLastPage<M>(xs: seq<M>, perPage: nat, last: int)
    requires perPage >= 1 && xs != [] && IsLastPage(perPage, |xs|, last)
    ensures |Chunks(xs, perPage)| == last
  {
    hide Chunks;
    var n := |Chunks(xs, perPage)|;
    ChunksCount(xs, perPage);
    assert n == 0 ==> n * perPage == 0;
    if n < last {
      ProductsOrdered(n, last - 1, perPage);
    } else if n > last {
      ProductsOrdered(last, n - 1, perPage);
    }
  }

  /** Page p of a request is chunk p - 1: the slice that starts at the request's offset. */
  lemma PageIsChunk<M>(xs: seq<M>, r: PaginationRequest, last: int)
    requires xs != [] && InInt64(|xs|) && IsLastPage(r.GetPerPage(), |xs|, last)
    requires 1 <= r.page <= last
    ensures var offset := r.GetOffset();
            && 0 <= offset < |xs| && r.page - 1 < |Chunks(xs, r.GetPerPage())|
            && Chunks(xs, r.GetPerPage())[r.page - 1] == xs[offset..Min(offset + r.GetPerPage(), |xs|)]
  {
    hide Chunks;
    var n := r.GetPerPage();
    ChunkCountIsLastPage(xs, n, last);
    ChunkAt(xs, n, r.page - 1);
    ProductsOrdered(0, r.page - 1, n);
    assert (r.page - 1) * n + n == r.page * n;
  }
}
