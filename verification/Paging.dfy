/** Page arithmetic, split between List (`internal/handler/sandbox.go`, lines 31-72) and
    ListByOrgPaginated (`internal/service/sandbox.go`, lines 54-101). */
module Paging {
  import opened Options
  import Ledger

  const DEFAULT_PAGE_SIZE := 20
  const MAX_PAGE_SIZE := 100

  function EffectiveSize(pageSize: int): (n: nat)
    ensures 1 <= n <= MAX_PAGE_SIZE
    ensures n == if pageSize < 1 then 20 else if pageSize > 100 then 100 else pageSize
  {
    if pageSize < 1 then DEFAULT_PAGE_SIZE else if pageSize > MAX_PAGE_SIZE then MAX_PAGE_SIZE else pageSize
  }

  /** Skip and limit over a stably ordered collection. */
  function Window<T>(xs: seq<T>, skip: nat, limit: nat): seq<T> {
    if skip >= |xs| then [] else if skip + limit >= |xs| then xs[skip..] else xs[skip..skip + limit]
  }

  /** The skip the service sends: the product as an int64. */
  function Skip(page: int, size: nat): int {
    Ledger.Wrap((page - 1) * size)
  }

  /** The rows of a page, None where the store rejects a negative skip. */
  function Page<T>(xs: seq<T>, page: int, size: nat): Option<seq<T>> {
    if Skip(page, size) < 0 then None else Some(Window(xs, Skip(page, size), size))
  }

  datatype Listing<T> = Listing(page: int, limit: nat, total: nat, totalPages: nat, rows: seq<T>)

  function TotalPages(total: nat, size: nat): nat
    requires size > 0
  {
    (total + size - 1) / size
  }

  /** `page` and `limit` are the query parameters where they parse as integers. */
  method List<T>(xs: seq<T>, pageQuery: Option<int>, limitQuery: Option<int>) returns (r: Option<Listing<T>>)
    ensures var page := if pageQuery.Some? && pageQuery.value > 0 then pageQuery.value else 1;
            var size := EffectiveSize(if limitQuery.Some? && limitQuery.value > 0 then limitQuery.value else 0);
            match r
            case None => Page(xs, page, size) == None
            case Some(l) =>
              l.page == page && l.limit == size && l.total == |xs| && l.totalPages == TotalPages(|xs|, size) &&
              Page(xs, page, size) == Some(l.rows)
  {
    var page := 1;
    var pageSize := 0;
    if pageQuery.Some? && pageQuery.value > 0 {
      page := pageQuery.value;
    }
    if limitQuery.Some? && limitQuery.value > 0 {
      pageSize := limitQuery.value;
    }
    var rows, total, size := ListByOrgPaginated(xs, page, pageSize);
    if rows.None? {
      return None;
    }
    return Some(Listing(page, size, total, TotalPages(total, size), rows.value));
  }

  method ListByOrgPaginated<T>(xs: seq<T>, page: int, pageSize: int)
    returns (rows: Option<seq<T>>, total: nat, size: nat)
    ensures size == EffectiveSize(pageSize) && total == |xs|
    ensures rows == Page(xs, if page < 1 then 1 else page, size)
  {
    var p, s := page, pageSize;
    if p < 1 {
      p := 1;
    }
    if s < 1 {
      s := DEFAULT_PAGE_SIZE;
    } else if s > MAX_PAGE_SIZE {
      s := MAX_PAGE_SIZE;
    }
    total, size := |xs|, s;
    var skip := Skip(p, s);
    rows := if skip < 0 then None else Some(Window(xs, skip, s));
  }

  // ---------------------------------------------------------------- the pages partition the collection

  /** Where page `page` begins, without any bound on integers. */
  function Start(page: nat, size: nat): nat {
    if page == 0 then 0 else (page - 1) * size
  }

  /** What page `page` should hold. */
  function Content<T>(xs: seq<T>, size: nat, page: nat): seq<T> {
    Window(xs, Start(page, size), size)
  }

  /** Pages 1..n put together. */
  function Pages<T>(xs: seq<T>, size: nat, n: nat): seq<T> {
    if n == 0 then [] else Pages(xs, size, n - 1) + Content(xs, size, n)
  }

  lemma StartStep(page: nat, size: nat)
    requires page > 0
    ensures Start(page + 1, size) == Start(page, size) + size
  {
  }

  lemma {:induction false} StartMonotone(p: nat, q: nat, size: nat)
    requires p <= q
    ensures Start(p, size) <= Start(q, size)
  {
    if 0 < p < q {
      StartMonotone(p, q - 1, size);
      StartStep(q - 1, size);
    }
  }

  /** A page that is full is a slice. */
  lemma FullPage<T>(xs: seq<T>, size: nat, page: nat)
    requires page > 0 && Start(page + 1, size) <= |xs|
    ensures Start(page, size) <= Start(page + 1, size)
    ensures Content(xs, size, page) == xs[Start(page, size)..Start(page + 1, size)]
  {
    hide Start;
    StartStep(page, size);
  }

  lemma {:induction false} PagesArePrefix<T>(xs: seq<T>, size: nat, n: nat)
    requires Start(n + 1, size) <= |xs|
    ensures Pages(xs, size, n) == xs[..Start(n + 1, size)]
  {
    if n > 0 {
      FullPage(xs, size, n);
      hide Start, Content;
      PagesArePrefix(xs, size, n - 1);
      assert xs[..Start(n + 1, size)] == xs[..Start(n, size)] + xs[Start(n, size)..Start(n + 1, size)];
    }
  }

  lemma LastPage(total: nat, size: nat)
    requires size > 0
    ensures var n := TotalPages(total, size);
            if total == 0 then n == 0 else n > 0 && Start(n, size) < total <= Start(n + 1, size)
  {
    var n := TotalPages(total, size);
    assert n * size <= total + size - 1 < n * size + size;
    assert n > 0 ==> n * size == (n - 1) * size + size;
  }

  /** Below the int64 bound the service returns the page it should. */
  lemma PageWithoutOverflow<T>(xs: seq<T>, page: nat, size: nat)
    requires page >= 1 && Start(page, size) < Ledger.TWO63
    ensures Page(xs, page, size) == Some(Content(xs, size, page))
  {
  }

  /** Pages 1..totalPages, in order, are the whole collection: nothing is missing or repeated; every page
      but the last is full; the last is not empty. */
  lemma PagesPartition<T>(xs: seq<T>, size: nat)
    requires size > 0 && |xs| < Ledger.TWO63
    ensures var n := TotalPages(|xs|, size);
            && Pages(xs, size, n) == xs
            && (forall p: nat :: 1 <= p <= n ==> Page(xs, p, size) == Some(Content(xs, size, p)))
            && (forall p: nat :: 1 <= p < n ==> |Content(xs, size, p)| == size)
            && (n > 0 ==> Content(xs, size, n) != [])
  {
    hide TotalPages, Start, Page;
    var n := TotalPages(|xs|, size);
    LastPage(|xs|, size);
    if n > 0 {
      PagesArePrefix(xs, size, n - 1);
      StartStep(n, size);
      assert xs == xs[..Start(n, size)] + xs[Start(n, size)..];
    }
    forall p: nat | 1 <= p <= n
      ensures Page(xs, p, size) == Some(Content(xs, size, p))
      ensures p < n ==> |Content(xs, size, p)| == size
    {
      PageUpTo(xs, size, p, n);
    }
  }

  lemma PageUpTo<T>(xs: seq<T>, size: nat, p: nat, n: nat)
    requires 1 <= p <= n && Start(n, size) <= |xs| < Ledger.TWO63
    ensures Page(xs, p, size) == Some(Content(xs, size, p))
    ensures p < n ==> |Content(xs, size, p)| == size
  {
    hide Start, Page, Content;
    StartMonotone(p, n, size);
    PageWithoutOverflow(xs, p, size);
    if p < n {
      StartMonotone(p + 1, n, size);
      StartStep(p, size);
      FullPage(xs, size, p);
    }
  }

  /** A page past the last is empty exactly when the skip, as the int64 it becomes, is at least the
      number of rows; in particular whenever the product does not overflow. */
  lemma LaterPagesEmpty<T>(xs: seq<T>, page: nat, size: nat)
    requires size > 0 && |xs| < Ledger.TWO63 && page > TotalPages(|xs|, size)
    ensures Page(xs, page, size) == Some([]) <==> Skip(page, size) >= |xs|
    ensures Start(page, size) < Ledger.TWO63 ==> Page(xs, page, size) == Some([])
  {
    hide TotalPages, Start;
    LastPage(|xs|, size);
    StartMonotone(TotalPages(|xs|, size) + 1, page, size);
    if Start(page, size) < Ledger.TWO63 {
      PageWithoutOverflow(xs, page, size);
    }
  }

  /** An accepted page number for which the first page comes back instead of nothing. */
  lemma OverflowRepeatsFirstPage<T>(xs: seq<T>)
    requires 0 < |xs| < Ledger.TWO63
    ensures var page, size := 0x400_0000_0000_0001, 64;
            && page > TotalPages(|xs|, size)
            && page < Ledger.TWO63
            && Page(xs, page, size) == Page(xs, 1, size) != Some([])
  {
  }
}
