/** `OFFSET … LIMIT …` pagination over an ordered listing, as the listing
    query of livrosapi.py:103 applies it. */
module Paging {

  function Min(a: int, b: int): int {
    if a <= b then a else b
  }

  /** Rows skipped before page `page` (1-based) of size `limit`. */
  function Offset(page: int, limit: int): int {
    (page - 1) * limit
  }

  /** The rows an SQL `OFFSET offset LIMIT limit` returns from `xs`: an
      offset past the end yields nothing, and the last page may be short. */
  function Window<T>(xs: seq<T>, offset: nat, limit: nat): (r: seq<T>)
    ensures |r| <= limit
    ensures offset >= |xs| ==> r == []
    ensures offset < |xs| ==> |r| == Min(limit, |xs| - offset)
    ensures forall i :: 0 <= i < |r| ==> r[i] == xs[offset + i]
  {
    if offset >= |xs| then [] else xs[offset..Min(offset + limit, |xs|)]
  }

  /** Row `i` of the listing is on page `i / limit + 1`, at position `i % limit`. */
  lemma ItemOnItsPage<T>(xs: seq<T>, limit: int, i: int)
    requires limit >= 1 && 0 <= i < |xs|
    ensures Offset(i / limit + 1, limit) == i - i % limit >= 0
    ensures var w := Window(xs, i - i % limit, limit);
            i % limit < |w| && w[i % limit] == xs[i]
  {
    assert i == (i / limit) * limit + i % limit;
  }

  /** Pages do not overlap: position `i` falls inside page `page` only when
      that page is `i / limit + 1`. */
  lemma PageOfPosition(page: int, limit: int, i: int)
    requires page >= 1 && limit >= 1 && i >= 0
    ensures Offset(page, limit) <= i < Offset(page, limit) + limit <==> page == i / limit + 1
  {
    var q := i / limit;
    assert i == q * limit + i % limit;
    if page - 1 < q {
      assert (page - 1) * limit + limit == page * limit <= q * limit;
    } else if page - 1 > q {
      assert (page - 1) * limit >= (q + 1) * limit == q * limit + limit;
    }
  }
}
