/**
 * Table-level logic of src/compositions/AtomTable/AtomTable.tsx: the header's sort
 * toggle, the sorted view the `pairsAtom` reader hands out (a copy of the stored
 * rows ordered by `Array.prototype.sort` with a BigNumber comparator), the writer
 * that keeps `totalRows`, the initial and rank-by sort, the query key, and reset.
 *
 * `Array.prototype.sort` is stable (section 23.1.3.30 of ECMA-262, 2023 edition) and
 * reads a comparator result of NaN as +0, a tie. The model sorts by stable insertion,
 * one of the orders the standard allows.
 */
module AtomTable {
  import opened JsValues
  import opened Numeric
  import opened Records
  import Constants
  import CanonicalKey

  datatype Direction = Desc | Asc

  /** `SortValue` when set: the row field and the direction. */
  datatype Sort = Sort(key: string, dir: Direction)

  // ---------------------------------------------------------------------------
  // The header toggle

  /** `handleChangeSort`: the sorted column flips direction, any other column starts descending. */
  function ToggleSort(prev: Option<Sort>, sortKey: string): (next: Sort)
    ensures next.key == sortKey
    ensures prev.Some? && prev.value.key == sortKey ==> next.dir != prev.value.dir
    ensures !(prev.Some? && prev.value.key == sortKey) ==> next.dir == Desc
  {
    if prev.Some? && prev.value.key == sortKey then
      Sort(sortKey, if prev.value.dir == Asc then Desc else Asc)
    else
      Sort(sortKey, Desc)
  }

  /** Two clicks on one column restore the state the first click made. */
  lemma ToggleTwice(prev: Option<Sort>, sortKey: string)
    ensures var once := ToggleSort(prev, sortKey);
      ToggleSort(Some(ToggleSort(Some(once), sortKey)), sortKey) == once
  {
  }

  /** Two clicks on the sorted column restore its direction. */
  lemma ToggleInvolution(s: Sort)
    ensures ToggleSort(Some(ToggleSort(Some(s), s.key)), s.key) == s
  {
  }

  // ---------------------------------------------------------------------------
  // The comparator

  function CountValue(n: Option<int>): Num
  {
    match n
    case Some(k) => FromInt(k)
    case None => NaN
  }

  /**
   * `BigNumber(row[key])`. `age` is a date-time string and a missing count is `null`:
   * both read as NaN. So do fields that are not sort keys.
   */
  function ValueAt(row: Row, key: string): Num
  {
    if key == "price" then row.price
    else if key == "currentMcap" then row.currentMcap
    else if key == "volume" then row.volume
    else if key == "liquidity" then row.liquidity
    else if key == "diff5M" then row.diff5M
    else if key == "diff1H" then row.diff1H
    else if key == "diff6H" then row.diff6H
    else if key == "diff24H" then row.diff24H
    else if key == "migrationProgress" then row.migrationProgress
    else if key == "buys" then CountValue(row.buys)
    else if key == "sells" then CountValue(row.sells)
    else if key == "txns" then CountValue(row.txns)
    else NaN
  }

  /** The comparator: `b[key] - a[key]` descending, `a[key] - b[key]` ascending. */
  function Compare(a: Row, b: Row, c: Sort): Num
  {
    if c.dir == Desc then Sub(ValueAt(b, c.key), ValueAt(a, c.key))
    else Sub(ValueAt(a, c.key), ValueAt(b, c.key))
  }

  /** `a` must come before `b`: the comparator is negative (NaN is a tie). */
  predicate Precedes(a: Row, b: Row, c: Sort)
  {
    var r := Compare(a, b, c);
    r.Dec? && r.value < 0.0
  }

  /** Only rows with different numeric values are ever ordered. */
  lemma PrecedesDistinct(a: Row, b: Row, c: Sort)
    requires Precedes(a, b, c)
    ensures ValueAt(a, c.key).Dec? && ValueAt(b, c.key).Dec? && ValueAt(a, c.key) != ValueAt(b, c.key)
  {
  }

  // ---------------------------------------------------------------------------
  // The sorted view

  /** Places `x` before the first row of `t` that does not have to precede it. */
  function InsertRow(x: Row, t: seq<Row>, c: Sort): seq<Row>
  {
    if |t| == 0 then [x]
    else if Precedes(t[0], x, c) then [t[0]] + InsertRow(x, t[1..], c)
    else [x] + t
  }

  /** A stable sort of `s` under the comparator. */
  function SortRows(s: seq<Row>, c: Sort): seq<Row>
  {
    if |s| == 0 then [] else InsertRow(s[0], SortRows(s[1..], c), c)
  }

  /** The `pairsAtom` reader: the stored rows, or a sorted copy when a sort is set. */
  function SortedView(pairs: seq<Row>, criteria: Option<Sort>): seq<Row>
  {
    match criteria
    case None => pairs
    case Some(c) => SortRows(pairs, c)
  }

  lemma {:induction false} InsertRowPermutes(x: Row, t: seq<Row>, c: Sort)
    ensures multiset(InsertRow(x, t, c)) == multiset(t) + multiset{x}
  {
    if |t| > 0 && Precedes(t[0], x, c) {
      InsertRowPermutes(x, t[1..], c);
      assert t == [t[0]] + t[1..];
    }
  }

  lemma {:induction false} SortRowsPermutes(s: seq<Row>, c: Sort)
    ensures multiset(SortRows(s, c)) == multiset(s)
  {
    if |s| > 0 {
      SortRowsPermutes(s[1..], c);
      InsertRowPermutes(s[0], SortRows(s[1..], c), c);
      assert s == [s[0]] + s[1..];
    }
  }

  /** The view is a permutation of the stored rows, and with no sort it is the stored list itself. */
  lemma ViewPermutes(pairs: seq<Row>, criteria: Option<Sort>)
    ensures multiset(SortedView(pairs, criteria)) == multiset(pairs)
    ensures criteria.None? ==> SortedView(pairs, criteria) == pairs
  {
    if criteria.Some? {
      SortRowsPermutes(pairs, criteria.value);
    }
  }

  // Stability

  /** The rows whose key value is `w`, in order. */
  function WithValue(s: seq<Row>, key: string, w: Num): (r: seq<Row>)
    ensures |r| <= |s|
  {
    if |s| == 0 then []
    else (if ValueAt(s[0], key) == w then [s[0]] else []) + WithValue(s[1..], key, w)
  }

  lemma {:induction false} InsertRowKeepsTies(x: Row, t: seq<Row>, c: Sort, w: Num)
    ensures WithValue(InsertRow(x, t, c), c.key, w) == (if ValueAt(x, c.key) == w then [x] else []) + WithValue(t, c.key, w)
  {
    var mark := if ValueAt(x, c.key) == w then [x] else [];
    if |t| == 0 {
      assert WithValue([x], c.key, w) == mark + [];
    } else if Precedes(t[0], x, c) {
      PrecedesDistinct(t[0], x, c);
      var u := InsertRow(x, t[1..], c);
      assert InsertRow(x, t, c) == [t[0]] + u;
      assert ([t[0]] + u)[1..] == u;
      InsertRowKeepsTies(x, t[1..], c, w);
      var head := if ValueAt(t[0], c.key) == w then [t[0]] else [];
      assert WithValue(t, c.key, w) == head + WithValue(t[1..], c.key, w);
      assert head == [] || mark == [];
    } else {
      assert ([x] + t)[1..] == t;
    }
  }

  lemma {:induction false} SortRowsKeepsTies(s: seq<Row>, c: Sort, w: Num)
    ensures WithValue(SortRows(s, c), c.key, w) == WithValue(s, c.key, w)
  {
    if |s| > 0 {
      SortRowsKeepsTies(s[1..], c, w);
      InsertRowKeepsTies(s[0], SortRows(s[1..], c), c, w);
    }
  }

  /**
   * Rows with equal key values, NaN included, keep their stored relative order:
   * for every value, the rows holding it appear in the view as they are stored.
   */
  lemma ViewKeepsTies(pairs: seq<Row>, c: Sort, w: Num)
    ensures WithValue(SortedView(pairs, Some(c)), c.key, w) == WithValue(pairs, c.key, w)
  {
    SortRowsKeepsTies(pairs, c, w);
  }

  lemma {:induction false} WithValueAll(s: seq<Row>, key: string, w: Num)
    requires forall r :: r in s ==> ValueAt(r, key) == w
    ensures WithValue(s, key, w) == s
  {
    if |s| > 0 {
      WithValueAll(s[1..], key, w);
      assert s == [s[0]] + s[1..];
    }
  }

  /** When every row has the same key value (all NaN, say), the view is the stored order. */
  lemma AllTiedKeepsOrder(pairs: seq<Row>, c: Sort, w: Num)
    requires forall r :: r in pairs ==> ValueAt(r, c.key) == w
    ensures SortedView(pairs, Some(c)) == pairs
  {
    var v := SortedView(pairs, Some(c));
    ViewPermutes(pairs, Some(c));
    forall r | r in v ensures ValueAt(r, c.key) == w {
      assert r in multiset(v);
    }
    WithValueAll(v, c.key, w);
    WithValueAll(pairs, c.key, w);
    ViewKeepsTies(pairs, c, w);
  }

  /** Sorting by age, a date-time string, leaves the rows in stored order. */
  lemma AgeSortKeepsOrder(pairs: seq<Row>, dir: Direction)
    ensures SortedView(pairs, Some(Sort("age", dir))) == pairs
  {
    AllTiedKeepsOrder(pairs, Sort("age", dir), NaN);
  }

  // Order

  predicate AllNumeric(s: seq<Row>, key: string)
  {
    forall r :: r in s ==> ValueAt(r, key).Dec?
  }

  /** The position a numeric row sorts to: its value, negated when descending. */
  function Rank(r: Row, c: Sort): real
    requires ValueAt(r, c.key).Dec?
  {
    if c.dir == Desc then -ValueAt(r, c.key).value else ValueAt(r, c.key).value
  }

  predicate RankSorted(t: seq<Row>, c: Sort)
    requires AllNumeric(t, c.key)
  {
    forall i, j :: 0 <= i < j < |t| ==> Rank(t[i], c) <= Rank(t[j], c)
  }

  lemma InsertRowMembers(x: Row, t: seq<Row>, c: Sort)
    ensures forall r :: r in InsertRow(x, t, c) <==> r == x || r in t
  {
    InsertRowPermutes(x, t, c);
    forall r ensures r in InsertRow(x, t, c) <==> r == x || r in t {
      assert r in InsertRow(x, t, c) <==> r in multiset(InsertRow(x, t, c));
      assert r in t <==> r in multiset(t);
    }
  }

  lemma {:induction false} InsertRowSorted(x: Row, t: seq<Row>, c: Sort)
    requires ValueAt(x, c.key).Dec? && AllNumeric(t, c.key) && RankSorted(t, c)
    ensures AllNumeric(InsertRow(x, t, c), c.key) && RankSorted(InsertRow(x, t, c), c)
  {
    if |t| == 0 {
      assert InsertRow(x, t, c) == [x];
    } else {
      HeadLeast(t, c);
      if Precedes(t[0], x, c) {
        var tail := t[1..];
        SortedTail(t, c);
        InsertRowSorted(x, tail, c);
        var v := InsertRow(x, tail, c);
        InsertRowMembers(x, tail, c);
        assert forall r :: r in tail ==> r in t;
        ConsSorted(t[0], v, c);
        assert InsertRow(x, t, c) == [t[0]] + v;
      } else {
        ConsSorted(x, t, c);
      }
    }
  }

  lemma SortedTail(t: seq<Row>, c: Sort)
    requires |t| > 0 && AllNumeric(t, c.key) && RankSorted(t, c)
    ensures AllNumeric(t[1..], c.key) && RankSorted(t[1..], c)
  {
    var tail := t[1..];
    assert forall r :: r in tail ==> r in t;
    forall i, j | 0 <= i < j < |tail| ensures Rank(tail[i], c) <= Rank(tail[j], c) {
      assert tail[i] == t[i + 1] && tail[j] == t[j + 1];
    }
  }

  lemma HeadLeast(t: seq<Row>, c: Sort)
    requires |t| > 0 && AllNumeric(t, c.key) && RankSorted(t, c)
    ensures forall r :: r in t ==> Rank(t[0], c) <= Rank(r, c)
  {
    forall r | r in t ensures Rank(t[0], c) <= Rank(r, c) {
      var k :| 0 <= k < |t| && t[k] == r;
      if k > 0 { assert Rank(t[0], c) <= Rank(t[k], c); }
    }
  }

  lemma ConsSorted(a: Row, v: seq<Row>, c: Sort)
    requires ValueAt(a, c.key).Dec? && AllNumeric(v, c.key) && RankSorted(v, c)
    requires forall r :: r in v ==> Rank(a, c) <= Rank(r, c)
    ensures AllNumeric([a] + v, c.key) && RankSorted([a] + v, c)
  {
    var u := [a] + v;
    assert forall r :: r in u ==> r == a || r in v;
    forall i, j | 0 <= i < j < |u| ensures Rank(u[i], c) <= Rank(u[j], c) {
      assert u[j] == v[j - 1];
      if i == 0 {
        assert u[j] in v;
      } else {
        assert u[i] == v[i - 1];
      }
    }
  }

  lemma {:induction false} SortRowsSorted(s: seq<Row>, c: Sort)
    requires AllNumeric(s, c.key)
    ensures AllNumeric(SortRows(s, c), c.key) && RankSorted(SortRows(s, c), c)
  {
    if |s| > 0 {
      assert forall r :: r in s[1..] ==> r in s;
      SortRowsSorted(s[1..], c);
      InsertRowSorted(s[0], SortRows(s[1..], c), c);
    }
  }

  /**
   * When every row holds a number under the key, the view is ordered by it:
   * largest first for `desc`, smallest first for `asc`.
   */
  lemma ViewOrdered(pairs: seq<Row>, c: Sort)
    requires AllNumeric(pairs, c.key)
    ensures var v := SortedView(pairs, Some(c));
      && AllNumeric(v, c.key)
      && (c.dir == Desc ==> forall i, j :: 0 <= i < j < |v| ==> ValueAt(v[i], c.key).value >= ValueAt(v[j], c.key).value)
      && (c.dir == Asc ==> forall i, j :: 0 <= i < j < |v| ==> ValueAt(v[i], c.key).value <= ValueAt(v[j], c.key).value)
  {
    SortRowsSorted(pairs, c);
  }

  // ---------------------------------------------------------------------------
  // Initial sort, rank-by change, query key

  /** `rankByToScannerKey[rankBy] ? { key, type: 'desc' } : undefined` */
  function RankSort(r: Constants.RankBy): (s: Option<Sort>)
    ensures s.Some? <==> r != Constants.Trending
    ensures s.Some? ==> s.value.dir == Desc && Constants.RankByToScannerKey(r) == Some(s.value.key)
  {
    match Constants.RankByToScannerKey(r)
    case Some(k) => Some(Sort(k, Desc))
    case None => None
  }

  /** The sort a table starts with, read off `initialFilters.rankBy`. */
  function InitialSort(initialFilters: Object): Option<Sort>
  {
    var v := Lookup(initialFilters, "rankBy");
    if !Truthy(v) then None
    else
      match Constants.ParseRankBy(ToStr(v))
      case Some(r) => RankSort(r)
      case None => None
  }

  /** The initial sort and a later rank-by change agree on every rank option. */
  lemma InitialSortIsRankSort(initialFilters: Object, r: Constants.RankBy)
    requires Get(initialFilters, "rankBy") == Some(JStr(Constants.RankByName(r)))
    ensures InitialSort(initialFilters) == RankSort(r)
  {
    Constants.RankByNameRoundTrip(r);
  }

  /** The new-tokens table starts sorted by age, descending: that view is the stored order. */
  lemma NewTableStartsUnsorted(pairs: seq<Row>)
    ensures InitialSort(Constants.NewFilters) == Some(Sort("age", Desc))
    ensures SortedView(pairs, InitialSort(Constants.NewFilters)) == pairs
  {
    NewInitialSort();
    AgeSortKeepsOrder(pairs, Desc);
  }

  lemma NewInitialSort()
    ensures InitialSort(Constants.NewFilters) == Some(Sort("age", Desc))
  {
    Constants.NewValues();
    InitialSortAge(Constants.NewFilters);
  }

  lemma InitialSortAge(f: Object)
    requires Get(f, "rankBy") == Some(JStr("age"))
    ensures InitialSort(f) == Some(Sort("age", Desc))
  {
    assert Constants.RankByName(Constants.AgeRank) == "age";
    InitialSortIsRankSort(f, Constants.AgeRank);
  }

  /** `serializeObj(filters)`, the cache key of the table's query. */
  function QueryKey(filters: Object): string
  {
    CanonicalKey.SerializeObj(filters)
  }

  /** Filters that differ only in insertion order share a cache entry. */
  lemma QueryKeyOrderIndependent(f1: Object, f2: Object)
    requires EntrySet(f1) == EntrySet(f2)
    ensures QueryKey(f1) == QueryKey(f2)
  {
    CanonicalKey.OrderIndependent(f1, f2);
  }

  // ---------------------------------------------------------------------------
  // The table's state

  /** One table: its filters, its sort, and the rows and row total of `dataAtom`. */
  class Table {
    const initialFilters: Object
    var filters: Object
    var sort: Option<Sort>
    var pairs: seq<Row>
    var totalRows: int

    /** Mounting: the initial filters and sort, and the placeholder data. */
    constructor (initial: Object)
      ensures initialFilters == initial && filters == initial && sort == InitialSort(initial)
      ensures pairs == [] && totalRows == 0
    {
      initialFilters := initial;
      filters := initial;
      sort := InitialSort(initial);
      pairs := [];
      totalRows := 0;
    }

    /** The `pairsAtom` reader. */
    function View(): seq<Row>
      reads this
    {
      SortedView(pairs, sort)
    }

    /** A fetched response becomes the table's data. */
    method Load(newPairs: seq<Row>, newTotal: int)
      modifies this
      ensures pairs == newPairs && totalRows == newTotal
      ensures filters == old(filters) && sort == old(sort)
    {
      pairs := newPairs;
      totalRows := newTotal;
    }

    /** The `pairsAtom` writer: the rows are replaced, `totalRows` stays. */
    method WritePairs(newPairs: seq<Row>)
      modifies this
      ensures pairs == newPairs
      ensures totalRows == old(totalRows) && filters == old(filters) && sort == old(sort)
    {
      pairs := newPairs;
    }

    /** `handleChangeSort` of the header for `sortKey`. */
    method ChangeSort(sortKey: string)
      modifies this
      ensures sort == Some(ToggleSort(old(sort), sortKey))
      ensures filters == old(filters) && pairs == old(pairs) && totalRows == old(totalRows)
    {
      sort := Some(ToggleSort(sort, sortKey));
    }

    /** `onRankByChange` */
    method RankByChange(r: Constants.RankBy)
      modifies this
      ensures sort == RankSort(r)
      ensures filters == old(filters) && pairs == old(pairs) && totalRows == old(totalRows)
    {
      sort := RankSort(r);
    }

    /** A filter updater's result becomes the filters. */
    method SetFilters(next: Object)
      modifies this
      ensures filters == next
      ensures sort == old(sort) && pairs == old(pairs) && totalRows == old(totalRows)
    {
      filters := next;
    }

    /** `handleResetFilters` */
    method ResetFilters()
      modifies this
      ensures filters == initialFilters
      ensures sort == old(sort) && pairs == old(pairs) && totalRows == old(totalRows)
    {
      filters := initialFilters;
    }
  }
}
