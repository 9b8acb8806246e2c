/** `LIMIT`/`OFFSET` pagination as the admin list screens and
    `CP_Contact_Manager::get_all` compute it. */
module Paging {

  /** PHP's `ceil($total / $perPage)` for a positive page size. */
  function CeilDiv(total: nat, perPage: nat): (pages: nat)
    requires perPage > 0
    ensures pages * perPage >= total
    ensures pages == 0 || (pages - 1) * perPage < total
    ensures (pages == 0) == (total == 0)
  {
    var q := (total + perPage - 1) / perPage;
    assert q * perPage <= total + perPage - 1 < (q + 1) * perPage;
    q
  }

  /** The rows `LIMIT limit OFFSET offset` selects from `rows`; a negative
      `LIMIT` or `OFFSET` is an SQL error, which leaves the result set empty. */
  function Window<T>(rows: seq<T>, offset: int, limit: int): (r: seq<T>)
    ensures |r| <= (if limit < 0 then 0 else limit)
    ensures offset >= 0 && limit >= 0 ==>
      forall k :: 0 <= k < |r| ==> offset + k < |rows| && r[k] == rows[offset + k]
  {
    if offset < 0 || limit < 0 || offset >= |rows| then []
    else if offset + limit >= |rows| then rows[offset..]
    else rows[offset..offset + limit]
  }

  /** The offset of page `page` (1-based) of `perPage` rows. */
  function Offset(page: int, perPage: int): int {
    (page - 1) * perPage
  }

  /** Every row is shown on exactly the page `index / perPage + 1`, which is one of
      the `ceil(total / perPage)` pages the screen links to. */
  lemma PageOfRow<T>(rows: seq<T>, perPage: nat, i: nat)
    requires perPage > 0 && i < |rows|
    ensures var p := i / perPage + 1;
      && 1 <= p <= CeilDiv(|rows|, perPage)
      && 0 <= i - Offset(p, perPage) < |Window(rows, Offset(p, perPage), perPage)|
      && Window(rows, Offset(p, perPage), perPage)[i - Offset(p, perPage)] == rows[i]
  {
    var q := i / perPage;
    var pages := CeilDiv(|rows|, perPage);
    var o := Offset(q + 1, perPage);
    DivBounds(i, perPage);
    assert o == q * perPage;
    MulCancel(q, pages, perPage);
    WindowAt(rows, o, perPage, i - o);
  }

  lemma DivBounds(i: nat, n: nat)
    requires n > 0
    ensures (i / n) * n <= i < (i / n) * n + n
  {
  }

  /** Row `k` of a window is row `offset + k` of the table, when that row exists. */
  lemma WindowAt<T>(rows: seq<T>, offset: nat, limit: nat, k: nat)
    requires k < limit && offset + k < |rows|
    ensures k < |Window(rows, offset, limit)| && Window(rows, offset, limit)[k] == rows[offset + k]
  {
  }

  lemma MulCancel(a: nat, b: nat, c: nat)
    requires a * c < b * c
    ensures a < b
  {
  }

  lemma MulMono(a: nat, b: nat, c: nat)
    requires a <= b
    ensures a * c <= b * c
  {
  }

  /** A page past the last one is empty. */
  lemma PastLastPageEmpty<T>(rows: seq<T>, perPage: nat, p: int)
    requires perPage > 0 && p > CeilDiv(|rows|, perPage)
    ensures Window(rows, Offset(p, perPage), perPage) == []
  {
    var pages := CeilDiv(|rows|, perPage);
    MulMono(pages, p - 1, perPage);
    assert Offset(p, perPage) >= |rows|;
  }

  /** A page before the last one is full. */
  lemma InnerPageFull<T>(rows: seq<T>, perPage: nat, p: int)
    requires perPage > 0 && 1 <= p < CeilDiv(|rows|, perPage)
    ensures |Window(rows, Offset(p, perPage), perPage)| == perPage
  {
    var pages := CeilDiv(|rows|, perPage);
    MulMono(p, pages - 1, perPage);
    var o := Offset(p, perPage);
    assert o + perPage == p * perPage;
    assert 0 <= o && o + perPage < |rows|;
    assert Window(rows, o, perPage) == rows[o..o + perPage];
  }

  /** Pages past the last one are empty, and every page before the last is full. */
  lemma PageSizes<T>(rows: seq<T>, perPage: nat, p: int)
    requires perPage > 0
    ensures p > CeilDiv(|rows|, perPage) ==> Window(rows, Offset(p, perPage), perPage) == []
    ensures 1 <= p < CeilDiv(|rows|, perPage) ==> |Window(rows, Offset(p, perPage), perPage)| == perPage
  {
    if p > CeilDiv(|rows|, perPage) {
      PastLastPageEmpty(rows, perPage, p);
    }
    if 1 <= p < CeilDiv(|rows|, perPage) {
      InnerPageFull(rows, perPage, p);
    }
  }
}
