/**
 * `LIMIT n OFFSET m` over rows in a fixed order, the 1-based page arithmetic
 * `offset = (page - 1) * per_page`, and the page count
 * `total // per_page + (1 if total % per_page > 0 else 0)`.
 */
module Paging {

  function Min(a: int, b: int): int {
    if a <= b then a else b
  }

  /** SQL `LIMIT limit OFFSET offset`: at most `limit` rows, starting at index `offset`. */
  function Slice<T>(s: seq<T>, offset: nat, limit: nat): (r: seq<T>)
    ensures |r| == if offset >= |s| then 0 else Min(limit, |s| - offset)
    ensures forall k :: 0 <= k < |r| ==> r[k] == s[offset + k]
  {
    if offset >= |s| then [] else s[offset..Min(|s|, offset + limit)]
  }

  /** The rows of 1-based page `page` when each page holds `perPage` rows. */
  function Page<T>(s: seq<T>, perPage: nat, page: nat): (r: seq<T>)
    requires page >= 1
    ensures |r| <= perPage
    ensures |r| == 0 <==> perPage == 0 || (page - 1) * perPage >= |s|
    ensures forall k :: 0 <= k < |r| ==> (page - 1) * perPage + k < |s| && r[k] == s[(page - 1) * perPage + k]
  {
    Slice(s, (page - 1) * perPage, perPage)
  }

  /** The page count reported next to the rows. */
  function TotalPages(total: nat, perPage: nat): (r: nat)
    requires perPage >= 1
    ensures total == 0 ==> r == 0
    ensures total > 0 ==> (r - 1) * perPage < total <= r * perPage
  {
    var q := total / perPage;
    assert total == q * perPage + total % perPage;
    q + (if total % perPage > 0 then 1 else 0)
  }

  lemma MulMonotone(a: nat, b: nat, c: nat)
    requires a <= b
    ensures a * c <= b * c
  {
  }

  /** The page count is the least number of pages that holds every row. */
  lemma TotalPagesIsLeast(total: nat, perPage: nat, q: nat)
    requires perPage >= 1
    ensures q * perPage >= total <==> q >= TotalPages(total, perPage)
  {
    var t := TotalPages(total, perPage);
    if q >= t {
      MulMonotone(t, q, perPage);
    } else {
      MulMonotone(q, t - 1, perPage);
    }
  }

  /** The rows of pages 1 to `q`, one after the other. */
  function Joined<T>(s: seq<T>, perPage: nat, q: nat): seq<T>
  {
    if q == 0 then [] else Joined(s, perPage, q - 1) + Page(s, perPage, q)
  }

  lemma {:induction false} JoinedIsPrefix<T>(s: seq<T>, perPage: nat, q: nat)
    ensures Joined(s, perPage, q) == s[..Min(q * perPage, |s|)]
  {
    if q > 0 {
      MulSucc(q, perPage);
      var lo: nat := (q - 1) * perPage;
      JoinedIsPrefix(s, perPage, q - 1);
      PrefixSplit(s, lo, lo + perPage);
      assert Joined(s, perPage, q) == Joined(s, perPage, q - 1) + Slice(s, lo, perPage);
    }
  }

  lemma MulSucc(q: nat, p: nat)
    requires q >= 1
    ensures (q - 1) * p >= 0 && q * p == (q - 1) * p + p
  {
  }

  /** A prefix of `s` is a shorter prefix followed by the rows in between. */
  lemma PrefixSplit<T>(s: seq<T>, lo: nat, hi: nat)
    requires lo <= hi
    ensures s[..Min(hi, |s|)] == s[..Min(lo, |s|)] + Slice(s, lo, hi - lo)
  {
    if lo < |s| {
      assert s[..Min(hi, |s|)] == s[..lo] + s[lo..Min(|s|, hi)];
    }
  }

  /** Pages 1 to TotalPages are non-empty and together hold every row once, in
      order; every later page is empty. */
  lemma PagesPartition<T>(s: seq<T>, perPage: nat)
    requires perPage >= 1
    ensures Joined(s, perPage, TotalPages(|s|, perPage)) == s
    ensures forall p :: 1 <= p <= TotalPages(|s|, perPage) ==> Page(s, perPage, p) != []
    ensures forall p :: p > TotalPages(|s|, perPage) ==> Page(s, perPage, p) == []
  {
    var t := TotalPages(|s|, perPage);
    TotalPagesIsLeast(|s|, perPage, t);
    JoinedIsPrefix(s, perPage, t);
    forall p | 1 <= p <= t ensures Page(s, perPage, p) != [] {
      TotalPagesIsLeast(|s|, perPage, p - 1);
    }
    forall p | p > t ensures Page(s, perPage, p) == [] {
      TotalPagesIsLeast(|s|, perPage, p - 1);
    }
  }

  /** The worked example: 25 rows, 10 per page. */
  lemma PaginationExample(s: seq<int>)
    requires |s| == 25
    ensures TotalPages(|s|, 10) == 3
    ensures |Page(s, 10, 1)| == 10 && |Page(s, 10, 2)| == 10 && |Page(s, 10, 3)| == 5
    ensures Page(s, 10, 4) == []
  {
  }
}
