/** The pager state of `PaginationWithTotal`, which keeps its own page and
    page size, and its page-size change. `GenerateEntryReport` writes the
    same formula in the handler it passes to this pager, which declares no
    props and so never calls it. Pages are numbered from 0. */
module Pagination {

  datatype Pager = Pager(page: nat, itemsPerPage: nat)

  /** `useState(0)` and `useState(20)`. */
  const Initial: Pager := Pager(0, 20)

  /** The page sizes the pager offers (`viewPerPageOptions`). */
  const PerPageOptions: seq<nat> := [20, 50, 100]

  /** `onPageChange={setPage}`: the page becomes the requested one. */
  function PageChange(p: Pager, page: nat): (r: Pager)
    ensures r.page == page && r.itemsPerPage == p.itemsPerPage
  {
    p.(page := page)
  }

  /** `handleViewPerPageChange(i)`: the new page is
      `Math.floor((itemsPerPage * page + 1) / i)` and the size becomes `i`.
      The pager only ever offers positive sizes. */
  function ViewPerPageChange(p: Pager, i: nat): (r: Pager)
    requires i > 0
    ensures r.itemsPerPage == i
    ensures r.page * i <= p.itemsPerPage * p.page + 1 < (r.page + 1) * i
  {
    Pager((p.itemsPerPage * p.page + 1) / i, i)
  }

  /** The first item of the old page (index `itemsPerPage * page`) lies on
      the new page exactly when `i` does not divide that index plus one. */
  lemma FirstItemVisibleIff(p: Pager, i: nat)
    requires i > 0
    ensures var r := ViewPerPageChange(p, i);
      var first := p.itemsPerPage * p.page;
      (r.page * i <= first < (r.page + 1) * i) <==> (first + 1) % i != 0
  {
    var r := ViewPerPageChange(p, i);
    var first := p.itemsPerPage * p.page;
    assert r.page == (first + 1) / i;
    assert (first + 1) == r.page * i + (first + 1) % i;
  }

  /** Between the offered sizes the first item of the old page stays on
      screen: every start index is a multiple of 10, so one past it is never
      a multiple of 20, 50 or 100. */
  lemma FirstItemStaysVisible(p: Pager, i: nat)
    requires p.itemsPerPage in PerPageOptions && i in PerPageOptions
    ensures var r := ViewPerPageChange(p, i);
      r.page * i <= p.itemsPerPage * p.page < (r.page + 1) * i
  {
    var first := p.itemsPerPage * p.page;
    assert first == 10 * ((p.itemsPerPage / 10) * p.page);
    FirstItemVisibleIff(p, i);
    OneAfterTensNotMultiple(first, i);
  }

  lemma OneAfterTensNotMultiple(x: nat, i: nat)
    requires x % 10 == 0 && i > 0 && i % 10 == 0
    ensures (x + 1) % i != 0
  {
    var q := (x + 1) / i;
    assert x + 1 == q * i + (x + 1) % i;
    assert q * i == 10 * (q * (i / 10));
  }

  /** Choosing the size already in use (of at least 2) keeps the page. */
  lemma SameSizeKeepsPage(p: Pager)
    requires p.itemsPerPage >= 2
    ensures ViewPerPageChange(p, p.itemsPerPage).page == p.page
  {
    var n := p.itemsPerPage;
    assert n * p.page == p.page * n;
    DivOfOffset(n, p.page, 1);
  }

  /** Division undoes multiplication when the remainder is below the divisor. */
  lemma DivOfOffset(n: nat, q: nat, r: nat)
    requires r < n
    ensures (q * n + r) / n == q
  {
    var d := (q * n + r) / n;
    var m := (q * n + r) % n;
    assert q * n + r == d * n + m;
    MulLessCancel(d, q + 1, n);
    MulLessCancel(q, d + 1, n);
  }

  lemma MulLessCancel(a: int, b: int, n: int)
    requires n > 0 && a * n < b * n
    ensures a < b
  {
  }

  /** The pager starts on page 0 with a size it offers, and a size change to
      an offered size leaves it on an offered size. */
  lemma InitialIsOffered(p: Pager, i: nat)
    requires i in PerPageOptions
    ensures Initial.itemsPerPage in PerPageOptions && Initial.page == 0
    ensures ViewPerPageChange(p, i).itemsPerPage in PerPageOptions
  {
  }
}
