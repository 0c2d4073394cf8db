/**
 * Pagination of `get_inbox` (banf_web/gmail_service.py, lines 200-248):
 * the ids the mailbox search returns, oldest first, are reversed to newest
 * first and cut into pages with Python slice and floor-division semantics.
 * Fetching and parsing the messages of a page is not modelled.
 */
module Inbox {
  import opened Wrappers

  function Min(a: int, b: int): int {
    if a <= b then a else b
  }

  /** How Python clamps a slice bound against a sequence of length `n`; a negative bound counts from the end. */
  function SliceBound(i: int, n: nat): (r: nat)
    ensures r <= n
    ensures 0 <= i ==> r == Min(i, n)
    ensures i < 0 ==> r == (if n + i < 0 then 0 else n + i)
  {
    if i < 0 then (if n + i < 0 then 0 else n + i) else if i > n then n else i
  }

  /** `xs[i:j]` */
  function PySlice<T>(xs: seq<T>, i: int, j: int): (r: seq<T>)
    ensures |r| <= |xs|
    ensures forall k :: 0 <= k < |r| ==> r[k] in xs
    ensures 0 <= i <= j ==> r == xs[Min(i, |xs|)..Min(j, |xs|)]
    ensures 0 <= j <= i ==> r == []
  {
    var a := SliceBound(i, |xs|);
    var b := SliceBound(j, |xs|);
    if a <= b then xs[a..b] else []
  }

  /** Python's `//`, which rounds toward negative infinity. */
  function FloorDiv(a: int, b: int): (q: int)
    requires b != 0
    ensures b > 0 ==> q * b <= a < (q + 1) * b
    ensures b < 0 ==> (q + 1) * b < a <= q * b
  {
    if b > 0 then a / b else (-a) / (-b)
  }

  /** The list reversed: `all_ids.reverse()`. */
  function Reverse<T>(xs: seq<T>): (r: seq<T>)
    ensures |r| == |xs|
    ensures forall i :: 0 <= i < |xs| ==> r[i] == xs[|xs| - 1 - i]
  {
    if xs == [] then [] else Reverse(xs[1..]) + [xs[0]]
  }

  datatype Page = Page(ids: seq<string>, total: nat, page: int, perPage: int, totalPages: int)

  /** `start = (page - 1) * per_page` */
  function PageStart(page: int, perPage: int): (r: int)
    ensures page >= 1 && perPage >= 0 ==> r >= 0
    ensures r + perPage == page * perPage
  {
    if page >= 1 && perPage >= 0 then
      assert (page - 1) * perPage >= 0;
      (page - 1) * perPage
    else (page - 1) * perPage
  }

  /** The ids of page `page`: `all_ids[start:start + per_page]`. */
  function PageIds(ids: seq<string>, page: int, perPage: int): (r: seq<string>)
    ensures |r| <= |ids|
    ensures forall k :: 0 <= k < |r| ==> r[k] in ids
  {
    var start := PageStart(page, perPage);
    var newest := Reverse(ids);
    var r := PySlice(newest, start, start + perPage);
    assert forall x :: x in newest ==> x in ids by {
      forall x | x in newest
        ensures x in ids
      {
        var m :| 0 <= m < |newest| && newest[m] == x;
        assert ids[|ids| - 1 - m] == x;
      }
    }
    r
  }

  /** `(total + per_page - 1) // per_page` */
  function TotalPages(total: nat, perPage: int): (r: int)
    requires perPage != 0
    ensures perPage > 0 ==> r >= 0 && (r == 0 <==> total == 0)
  {
    FloorDiv(total + perPage - 1, perPage)
  }

  /**
   * The page `get_inbox` answers; None when `per_page` is 0, where the page
   * count divides by zero and the handler answers HTTP 500.
   */
  function InboxPage(ids: seq<string>, page: int, perPage: int): (r: Option<Page>)
    ensures r.None? <==> perPage == 0
    ensures r.Some? ==> r.value.total == |ids| && r.value.page == page && r.value.perPage == perPage
    ensures r.Some? ==> |r.value.ids| <= |ids| && forall k :: 0 <= k < |r.value.ids| ==> r.value.ids[k] in ids
    ensures r.Some? && perPage > 0 ==> (r.value.totalPages == 0 <==> ids == [])
    ensures r.Some? && page >= 1 && perPage >= 1 ==> |r.value.ids| <= perPage
  {
    if perPage == 0 then None
    else
      var answer := Page(PageIds(ids, page, perPage), |ids|, page, perPage, TotalPages(|ids|, perPage));
      if page >= 1 && perPage >= 1 then PageIsSlice(ids, page, perPage); Some(answer) else Some(answer)
  }

  /** The slice of the newest-first list from `start`, at most `size` long. */
  lemma SliceFrom(ids: seq<string>, start: int, size: int)
    requires start >= 0 && size >= 1
    ensures var r := PySlice(Reverse(ids), start, start + size);
            && r == Reverse(ids)[Min(start, |ids|)..Min(start + size, |ids|)]
            && |r| <= size
            && forall k :: 0 <= k < |r| ==> r[k] == ids[|ids| - 1 - (start + k)]
  {
    var newest := Reverse(ids);
    var a := Min(start, |ids|);
    var b := Min(start + size, |ids|);
    assert SliceBound(start, |ids|) == a && SliceBound(start + size, |ids|) == b;
    var r := newest[a..b];
    forall k | 0 <= k < |r| ensures r[k] == ids[|ids| - 1 - (start + k)] {
      assert a == start;
      assert r[k] == newest[start + k];
    }
  }

  /**
   * For a positive page number and page size, page `page` holds the ids
   * from position (page - 1) * per_page of the newest-first list, at most
   * per_page of them, and position k of the page is the k-th of those.
   */
  lemma PageIsSlice(ids: seq<string>, page: int, perPage: int)
    requires page >= 1 && perPage >= 1
    ensures var start := PageStart(page, perPage);
            var r := PageIds(ids, page, perPage);
            && r == Reverse(ids)[Min(start, |ids|)..Min(start + perPage, |ids|)]
            && |r| <= perPage
            && forall k :: 0 <= k < |r| ==> r[k] == ids[|ids| - 1 - (start + k)]
  {
    SliceFrom(ids, PageStart(page, perPage), perPage);
  }

  /** `total_pages` is the ceiling of total / per_page. */
  lemma TotalPagesIsCeiling(total: nat, perPage: int)
    requires perPage >= 1
    ensures var t := TotalPages(total, perPage);
            && t >= 0
            && t * perPage >= total
            && (total > 0 ==> (t - 1) * perPage < total)
            && (t == 0 <==> total == 0)
  {
    var t := TotalPages(total, perPage);
    assert t * perPage <= total + perPage - 1 < (t + 1) * perPage;
  }

  /** Page 0 is always empty: its slice ends at index 0. */
  lemma PageZeroIsEmpty(ids: seq<string>, perPage: int)
    requires perPage >= 1
    ensures PageIds(ids, 0, perPage) == []
  {
  }

  /** The concatenation of pages 1 to k. */
  function PagesUpTo(ids: seq<string>, k: nat, perPage: int): seq<string> {
    if k == 0 then [] else PagesUpTo(ids, k - 1, perPage) + PageIds(ids, k, perPage)
  }

  /** A prefix up to `start` followed by the slice from `start` to `end` is the prefix up to `end`. */
  lemma PrefixStep(newest: seq<string>, prefix: seq<string>, page: seq<string>, start: int, end: int)
    requires 0 <= start <= end
    requires prefix == newest[..Min(start, |newest|)]
    requires page == newest[Min(start, |newest|)..Min(end, |newest|)]
    ensures prefix + page == newest[..Min(end, |newest|)]
  {
  }

  lemma {:induction false} PagesUpToIsPrefix(ids: seq<string>, k: nat, perPage: int)
    requires perPage >= 1
    ensures PagesUpTo(ids, k, perPage) == Reverse(ids)[..Min(k * perPage, |ids|)]
  {
    if k > 0 {
      var start := PageStart(k, perPage);
      var newest := Reverse(ids);
      assert PagesUpTo(ids, k - 1, perPage) == newest[..Min(start, |ids|)] by {
        PagesUpToIsPrefix(ids, k - 1, perPage);
      }
      assert PageIds(ids, k, perPage) == newest[Min(start, |ids|)..Min(start + perPage, |ids|)] by {
        SliceFrom(ids, start, perPage);
      }
      PrefixStep(newest, PagesUpTo(ids, k - 1, perPage), PageIds(ids, k, perPage), start, start + perPage);
    }
  }

  /**
   * Walking the pages 1 to `total_pages` lists every id exactly once,
   * newest first, and every later page is empty.
   */
  lemma PagesCoverInbox(ids: seq<string>, perPage: int)
    requires perPage >= 1
    ensures PagesUpTo(ids, TotalPages(|ids|, perPage), perPage) == Reverse(ids)
    ensures forall p :: p > TotalPages(|ids|, perPage) ==> PageIds(ids, p, perPage) == []
  {
    TotalPagesIsCeiling(|ids|, perPage);
    var t := TotalPages(|ids|, perPage);
    PagesUpToIsPrefix(ids, t, perPage);
    assert Reverse(ids)[..|ids|] == Reverse(ids);
    forall p | p > t
      ensures PageIds(ids, p, perPage) == []
    {
      PageBeyondEndIsEmpty(ids, perPage, t, p);
    }
  }

  /** A page that starts at or after the end of the list is empty. */
  lemma PageBeyondEndIsEmpty(ids: seq<string>, perPage: int, t: int, p: int)
    requires perPage >= 1 && t >= 0 && t * perPage >= |ids| && p > t
    ensures PageIds(ids, p, perPage) == []
  {
    var d := p - 1 - t;
    assert d >= 0 && d * perPage >= 0;
    assert (p - 1) * perPage == t * perPage + d * perPage;
    SliceFrom(ids, PageStart(p, perPage), perPage);
  }
}
