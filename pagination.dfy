/**
 * The pager under a table (src/compositions/AtomTable/components/Pagination/Pagination.tsx):
 * the page count, the Back and Next updaters, when each button is offered, and the
 * row range the caption shows. A page holds 100 rows.
 */
module Pagination {
  import opened JsValues

  const PageSize: int := 100

  /** `Math.ceil(totalRows / 100)` */
  function Pages(totalRows: int): (pages: int)
    ensures (pages - 1) * PageSize < totalRows <= pages * PageSize
  {
    (totalRows + PageSize - 1) / PageSize
  }

  /** `filters.page!`: the pager relies on the filters holding a page number. */
  predicate HasPage(filters: Object)
  {
    Lookup(filters, "page").JNum?
  }

  function PageOf(filters: Object): int
    requires HasPage(filters)
  {
    Lookup(filters, "page").n
  }

  /** `{ ...prev, page: prev.page! + 1 }` */
  function NextPage(prev: Object): (r: Object)
    requires HasPage(prev)
    ensures HasPage(r) && PageOf(r) == PageOf(prev) + 1
    ensures forall k :: k != "page" ==> Get(r, k) == Get(prev, k)
    ensures KeysOf(r) == KeysOf(prev)
  {
    SetKeepsOrder(prev, "page", JNum(PageOf(prev) + 1));
    Set(prev, "page", JNum(PageOf(prev) + 1))
  }

  /** `{ ...prev, page: prev.page! - 1 }` */
  function PrevPage(prev: Object): (r: Object)
    requires HasPage(prev)
    ensures HasPage(r) && PageOf(r) == PageOf(prev) - 1
    ensures forall k :: k != "page" ==> Get(r, k) == Get(prev, k)
    ensures KeysOf(r) == KeysOf(prev)
  {
    SetKeepsOrder(prev, "page", JNum(PageOf(prev) - 1));
    Set(prev, "page", JNum(PageOf(prev) - 1))
  }

  /** Next then Back returns the filters to where they were. */
  lemma NextThenBack(prev: Object)
    requires HasPage(prev)
    ensures PrevPage(NextPage(prev)) == prev
  {
    var n := PageOf(prev);
    var next := NextPage(prev);
    assert PrevPage(next) == Set(next, "page", JNum(n)) by {
      assert PageOf(next) == n + 1;
    }
    assert next == Set(prev, "page", JNum(n + 1));
    assert Set(next, "page", JNum(n)) == prev by {
      assert Get(prev, "page") == Some(JNum(n));
      SetBack(prev, "page", JNum(n + 1), JNum(n));
    }
  }

  /** Assigning a property its current value leaves the object unchanged. */
  lemma {:induction false} SetBack(o: Object, k: string, v: Value, w: Value)
    requires Get(o, k) == Some(w)
    ensures Set(Set(o, k, v), k, w) == o
  {
    var tail: Object := o[1..];
    assert o == [o[0]] + tail;
    SetUnfold(o, k, v);
    var r := Set(o, k, v);
    SetUnfold(r, k, w);
    if o[0].0 == k {
      assert r[1..] == tail;
    } else {
      assert r[1..] == Set(tail, k, v);
      SetBack(tail, k, v, w);
    }
  }

  /** `page! > 1` */
  predicate ShowBack(page: int)
  {
    page > 1
  }

  /** `page! < pages` */
  predicate ShowNext(page: int, totalRows: int)
  {
    page < Pages(totalRows)
  }

  /** The caption: `(page - 1) * 100 + 1` to `page * 100`. */
  function ShownRange(page: int): (range: (int, int))
    ensures range.1 - range.0 + 1 == PageSize
  {
    ((page - 1) * PageSize + 1, page * PageSize)
  }

  /** On a page the pager can reach, the range starts at a row that exists; on the last page its end can pass `totalRows`. */
  lemma ShownRangeBounds(page: int, totalRows: int)
    requires 1 <= page <= Pages(totalRows)
    ensures 1 <= ShownRange(page).0 <= totalRows
    ensures ShownRange(page).1 > totalRows <==> page == Pages(totalRows) && totalRows % PageSize != 0
  {
  }

  // ---------------------------------------------------------------------------
  // Paging

  datatype Click = BackClick | NextClick

  /** The button is on screen. */
  predicate Offered(page: int, totalRows: int, c: Click)
  {
    match c
    case BackClick => ShowBack(page)
    case NextClick => ShowNext(page, totalRows)
  }

  function Press(page: int, c: Click): int
  {
    match c
    case BackClick => page - 1
    case NextClick => page + 1
  }

  /** The page after a run of clicks, each on a button that was offered. */
  function Browse(page: int, totalRows: int, cs: seq<Click>): Option<int>
    decreases |cs|
  {
    if |cs| == 0 then Some(page)
    else if Offered(page, totalRows, cs[0]) then Browse(Press(page, cs[0]), totalRows, cs[1..])
    else None
  }

  function Max(a: int, b: int): int
  {
    if a < b then b else a
  }

  /** Pressing an offered button keeps the page within `1 .. max(1, pages)`. */
  lemma PressKeepsRange(page: int, totalRows: int, c: Click)
    requires 1 <= page <= Max(1, Pages(totalRows)) && Offered(page, totalRows, c)
    ensures 1 <= Press(page, c) <= Max(1, Pages(totalRows))
  {
  }

  /** From any page in range, a run of offered clicks stays in `1 .. max(1, pages)`. */
  lemma {:induction false} BrowseKeepsRange(page: int, totalRows: int, cs: seq<Click>)
    requires 1 <= page <= Max(1, Pages(totalRows))
    requires Browse(page, totalRows, cs).Some?
    ensures 1 <= Browse(page, totalRows, cs).value <= Max(1, Pages(totalRows))
    decreases |cs|
  {
    if |cs| > 0 {
      PressKeepsRange(page, totalRows, cs[0]);
      BrowseKeepsRange(Press(page, cs[0]), totalRows, cs[1..]);
    }
  }

  /** Starting from page 1, the offered buttons never leave `1 .. max(1, pages)`. */
  lemma FromFirstPage(totalRows: int, cs: seq<Click>)
    requires Browse(1, totalRows, cs).Some?
    ensures 1 <= Browse(1, totalRows, cs).value <= Max(1, Pages(totalRows))
  {
    BrowseKeepsRange(1, totalRows, cs);
  }
}
