/** The paging arithmetic of `getAllTransactions`
    (backend/src/transaction/transaction.service.ts): skip `(page - 1) * limit`
    rows of the id-descending listing, take at most `limit`, and report
    `ceil(total / limit)` pages. */
module Pagination {

  function Min(a: int, b: int): int {
    if a <= b then a else b
  }

  /** The number of rows skipped before a page. */
  function Skip(page: int, limit: int): nat
    requires page >= 1 && limit >= 1
  {
    MulMonotone(0, page - 1, limit);
    (page - 1) * limit
  }

  /** The rows `findAndCount` returns for one page, from the full listing `rows`. */
  function PageOf<T>(rows: seq<T>, page: int, limit: int): (r: seq<T>)
    requires page >= 1 && limit >= 1
    ensures |r| == if Skip(page, limit) < |rows| then Min(limit, |rows| - Skip(page, limit)) else 0
    ensures forall i :: 0 <= i < |r| ==> Skip(page, limit) + i < |rows| && r[i] == rows[Skip(page, limit) + i]
  {
    var skip := Skip(page, limit);
    if skip >= |rows| then [] else rows[skip .. Min(skip + limit, |rows|)]
  }

  /** `Math.ceil(total / limit)`: the fewest pages of `limit` rows that hold `total` rows. */
  function TotalPages(total: nat, limit: int): (n: nat)
    requires limit >= 1
    ensures n * limit >= total
    ensures n > 0 ==> (n - 1) * limit < total
  {
    var n := (total + limit - 1) / limit;
    assert n * limit + (total + limit - 1) % limit == total + limit - 1;
    assert n > 0 ==> (n - 1) * limit == n * limit - limit;
    n
  }

  /** Row `k` of the listing is on page `k / limit + 1`, at position
      `k % limit`, and that page is within `TotalPages`. */
  lemma RowOnItsPage<T>(rows: seq<T>, limit: int, k: int)
    requires limit >= 1 && 0 <= k < |rows|
    ensures 1 <= k / limit + 1 <= TotalPages(|rows|, limit)
    ensures k % limit < |PageOf(rows, k / limit + 1, limit)|
    ensures PageOf(rows, k / limit + 1, limit)[k % limit] == rows[k]
  {
    var p, off := k / limit, k % limit;
    DivMod(k, limit);
    var skip := Skip(p + 1, limit);
    assert skip == p * limit;
    assert skip <= k < |rows| && skip + off == k;
    PageWithinTotal(|rows|, limit, p);
  }

  lemma DivMod(k: nat, limit: int)
    requires limit >= 1
    ensures k / limit >= 0 && 0 <= k % limit < limit && (k / limit) * limit + k % limit == k
  {
  }

  /** A page that starts before the end of the listing is within `TotalPages`. */
  lemma PageWithinTotal(total: nat, limit: int, p: nat)
    requires limit >= 1 && p * limit < total
    ensures p + 1 <= TotalPages(total, limit)
  {
    var n := TotalPages(total, limit);
    assert p * limit < total <= n * limit;
    if n <= p {
      MulMonotone(n, p, limit);
    }
  }

  /** A page past `TotalPages` is empty. */
  lemma PastLastPageEmpty<T>(rows: seq<T>, page: int, limit: int)
    requires limit >= 1 && page > TotalPages(|rows|, limit)
    ensures PageOf(rows, page, limit) == []
  {
    var n := TotalPages(|rows|, limit);
    MulMonotone(n, page - 1, limit);
  }

  lemma MulMonotone(a: nat, b: int, c: nat)
    requires a <= b
    ensures a * c <= b * c
  {
  }
}
