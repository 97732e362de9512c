/** The check of a page of results, in wrapping 64-bit arithmetic (authorization_management_client.go). */
module Paging {
  import opened Int64

  datatype Page = Page(size: int, number: int, totalElements: int, totalPages: int)

  predicate Fits64(p: Page) {
    Fits(p.size) && Fits(p.number) && Fits(p.totalElements) && Fits(p.totalPages)
  }

  function Min(a: int, b: int): int {
    if a < b then a else b
  }

  /** How many pages so many elements fill. */
  function PagesFor(total: int, size: int): int
    requires size > 0
  {
    if total % size == 0 then total / size else total / size + 1
  }

  /** A page as it should be, over unbounded integers: the page count is exact, the page exists (the one
      empty page when there is nothing), and it is full unless it is the last. */
  predicate IdealPage(count: int, p: Page) {
    && 1 <= p.size <= 100
    && p.totalElements >= 0
    && p.totalPages == PagesFor(p.totalElements, p.size)
    && if p.totalElements == 0 then p.number == 0 && count == 0
       else 0 <= p.number < p.totalPages && count == Min(p.size, p.totalElements - p.number * p.size)
  }

  lemma PageStartsWithin(total: int, size: int, number: int)
    requires 1 <= size && 0 < total && 0 <= number < PagesFor(total, size)
    ensures 0 <= number * size < total
  {
    assert total == total / size * size + total % size;
    if number <= total / size - 1 {
      assert number * size <= (total / size - 1) * size == total / size * size - size;
    }
  }

  /** The wrapping check accepts exactly the ideal pages. */
  method ValidateAuthorizationPage(count: int, p: Page) returns (ok: bool)
    requires 0 <= count <= MAX && Fits64(p)
    ensures ok <==> IdealPage(count, p)
  {
    if p.size < 1 || p.size > 100 {
      return false;
    }
    var expectedPages := Quotient(p.totalElements, p.size);
    if Remainder(p.totalElements, p.size) != 0 {
      expectedPages := Wrap(expectedPages + 1);
    }
    var expectedContent := 0;
    if p.totalElements > 0 {
      var remaining := Wrap(p.totalElements - Wrap(p.number * p.size));
      expectedContent := Min(p.size, remaining);
    }
    if p.number < 0 || p.totalElements < 0 || p.totalPages != expectedPages
      || count > p.size || count > p.totalElements
      || (p.totalElements == 0 && p.number != 0) || (p.totalElements > 0 && p.number >= p.totalPages)
      || count != expectedContent
    {
      if p.totalElements >= 0 { RejectedIsNotIdeal(count, p, expectedPages, expectedContent); }
      return false;
    }
    PageCountFits(p.totalElements, p.size);
    if p.totalElements > 0 { PageStartsWithin(p.totalElements, p.size, p.number); }
    return true;
  }

  lemma PageCountFits(total: int, size: int)
    requires 0 <= total <= MAX && 1 <= size
    ensures 0 <= PagesFor(total, size) <= MAX
  {
    if size == 1 {
      assert total % 1 == 0 && total / 1 == total;
    }
  }

  lemma RejectedIsNotIdeal(count: int, p: Page, expectedPages: int, expectedContent: int)
    requires 0 <= count && Fits64(p) && 1 <= p.size <= 100 && p.totalElements >= 0
    requires expectedPages ==
      if p.totalElements % p.size != 0 then Wrap(p.totalElements / p.size + 1) else p.totalElements / p.size
    requires expectedContent ==
      if p.totalElements > 0 then Min(p.size, Wrap(p.totalElements - Wrap(p.number * p.size))) else 0
    requires || p.number < 0 || p.totalPages != expectedPages
             || count > p.size || count > p.totalElements
             || (p.totalElements == 0 && p.number != 0) || (p.totalElements > 0 && p.number >= p.totalPages)
             || count != expectedContent
    ensures !IdealPage(count, p)
  {
    PageCountFits(p.totalElements, p.size);
    if p.totalElements > 0 && 0 <= p.number < PagesFor(p.totalElements, p.size) {
      PageStartsWithin(p.totalElements, p.size, p.number);
    }
  }

  lemma PagesCover(total: int, size: int)
    requires 1 <= size && 0 <= total
    ensures PagesFor(total, size) * size >= total
  {
    var q := total / size;
    assert total == q * size + total % size;
    assert (q + 1) * size == q * size + size;
  }

  function Sum(counts: seq<int>): int {
    if counts == [] then 0 else Sum(counts[..|counts| - 1]) + counts[|counts| - 1]
  }

  lemma {:induction false} CountsSoFar(total: int, size: int, counts: seq<int>, n: nat)
    requires 1 <= size && 0 < total && n <= |counts| == PagesFor(total, size)
    requires forall i | 0 <= i < |counts| :: counts[i] == Min(size, total - i * size)
    ensures Sum(counts[..n]) == Min(n * size, total)
  {
    if n > 0 {
      CountsSoFar(total, size, counts, n - 1);
      assert counts[..n][..n - 1] == counts[..n - 1];
      PageStartsWithin(total, size, n - 1);
      assert n * size == (n - 1) * size + size;
    }
  }

  /** Nothing is lost or repeated: for any total and size, the counts accepted on pages zero to the last
      add up to exactly the total. */
  lemma PagesConserveElements(total: int, size: int, counts: seq<int>)
    requires 1 <= size <= 100 && total >= 0 && |counts| == PagesFor(total, size)
    requires forall i | 0 <= i < |counts| :: IdealPage(counts[i], Page(size, i, total, |counts|))
    ensures Sum(counts) == total
  {
    if total == 0 {
      assert counts == [];
    } else {
      CountsSoFar(total, size, counts, |counts|);
      assert counts[..|counts|] == counts;
      PagesCover(total, size);
    }
  }

  /** Every page of a well-formed listing has exactly one acceptable count, so the sum above is not empty
      talk: the counts exist. */
  lemma EveryPageHasOneCount(total: int, size: int, number: int, count: int)
    requires 1 <= size <= 100 && total > 0 && 0 <= number < PagesFor(total, size)
    ensures IdealPage(count, Page(size, number, total, PagesFor(total, size))) <==> count == Min(size, total - number * size)
    ensures 0 < Min(size, total - number * size) <= size
  {
    PageStartsWithin(total, size, number);
  }
}
