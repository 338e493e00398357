/**
 * The filter bar (src/compositions/AtomTable/components/Filters/Filters.tsx): three
 * updaters that copy the previous filters and set or delete one property, and the
 * values the controls display.
 */
module Filters {
  import opened JsValues
  import Constants
  import AtomTable

  /** The chain buttons: `'all'` and the four chain names. */
  const ChainIds: seq<string> := ["all", "ETH", "SOL", "BASE", "BSC"]

  /** `handleChainClick(id)`: `'all'` removes `chain`, any other id sets it. */
  function ChainClick(prev: Object, id: string): (r: Object)
    ensures Get(r, "chain") == if id == "all" then None else Some(JStr(id))
    ensures forall k :: k != "chain" ==> Get(r, k) == Get(prev, k)
  {
    if id == "all" then Delete(prev, "chain") else Set(prev, "chain", JStr(id))
  }

  /** `handleChangeFilter(key, value)`: the string `'any'` removes `key`, any other value sets it. */
  function ChangeFilter(prev: Object, key: string, value: Value): (r: Object)
    ensures Get(r, key) == if value == JStr("any") then None else Some(value)
    ensures forall k :: k != key ==> Get(r, k) == Get(prev, k)
  {
    if value == JStr("any") then Delete(prev, key) else Set(prev, key, value)
  }

  /** Setting a filter keeps every property where it was and appends a new one; clearing one keeps the others' order. */
  lemma ChangeFilterOrder(prev: Object, key: string, value: Value)
    ensures value != JStr("any") && key in KeySet(prev) ==> KeysOf(ChangeFilter(prev, key, value)) == KeysOf(prev)
    ensures value != JStr("any") && key !in KeySet(prev) ==> KeysOf(ChangeFilter(prev, key, value)) == KeysOf(prev) + [key]
    ensures value == JStr("any") && key !in KeySet(prev) ==> ChangeFilter(prev, key, value) == prev
  {
    if value != JStr("any") {
      SetKeepsOrder(prev, key, value);
    } else if key !in KeySet(prev) {
      DeleteAbsent(prev, key);
    }
  }

  /** Picking the same option again leaves the filters as the first pick made them. */
  lemma ChangeFilterIdempotent(prev: Object, key: string, value: Value)
    ensures ChangeFilter(ChangeFilter(prev, key, value), key, value) == ChangeFilter(prev, key, value)
  {
    if value == JStr("any") {
      DeleteIdempotent(prev, key);
    } else {
      SetIdempotent(prev, key, value);
    }
  }

  /** A chain click is a generic change of `chain`, with `'all'` in the role of `'any'`. */
  lemma ChainClickIsChange(prev: Object, id: string)
    requires id != "any"
    ensures ChainClick(prev, id) == ChangeFilter(prev, "chain", if id == "all" then JStr("any") else JStr(id))
  {
  }

  /** `handleRankByChange`: the `rankBy` filter is set and the same option is handed to the table. */
  function RankByChange(prev: Object, r: Constants.RankBy): (out: (Object, Constants.RankBy))
    ensures Get(out.0, "rankBy") == Some(JStr(Constants.RankByName(r))) && out.1 == r
    ensures forall k :: k != "rankBy" ==> Get(out.0, k) == Get(prev, k)
  {
    assert JStr(Constants.RankByName(r)) != JStr("any");
    (ChangeFilter(prev, "rankBy", JStr(Constants.RankByName(r))), r)
  }

  /**
   * After a rank-by change the table's sort is the one a table mounted with the new
   * filters would start with.
   */
  lemma RankByChangeAgrees(prev: Object, r: Constants.RankBy)
    ensures AtomTable.RankSort(RankByChange(prev, r).1) == AtomTable.InitialSort(RankByChange(prev, r).0)
  {
    AtomTable.InitialSortIsRankSort(RankByChange(prev, r).0, r);
  }

  // ---------------------------------------------------------------------------
  // What the controls show

  /** `chain || 'all'` */
  function ActiveChain(filters: Object): Value
  {
    var v := Lookup(filters, "chain");
    if Truthy(v) then v else JStr("all")
  }

  /** The button clicked is the button shown as active. */
  lemma ActiveAfterClick(prev: Object, id: string)
    requires id in ChainIds
    ensures ActiveChain(ChainClick(prev, id)) == JStr(id)
  {
  }

  /** The volume and age selects: `filters[key] ? String(filters[key]) : undefined`. */
  function SelectValue(filters: Object, key: string): Option<string>
  {
    var v := Lookup(filters, key);
    if Truthy(v) then Some(ToStr(v)) else None
  }

  /** The rank-by select: `filters.maxAge ? String(filters.rankBy) : undefined`. */
  function RankSelectValue(filters: Object): Option<string>
  {
    if Truthy(Lookup(filters, "maxAge")) then Some(ToStr(Lookup(filters, "rankBy"))) else None
  }

  /**
   * A rank chosen in the select shows there only while `maxAge` is set; otherwise the
   * select stays blank although `rankBy` now holds the choice.
   */
  lemma RankChoiceShown(prev: Object, r: Constants.RankBy)
    ensures RankSelectValue(RankByChange(prev, r).0) ==
      if Truthy(Lookup(prev, "maxAge")) then Some(Constants.RankByName(r)) else None
  {
  }

  /** Without `maxAge` the rank-by select is blank, whatever `rankBy` holds; with it, an absent `rankBy` reads `"undefined"`. */
  lemma RankSelectNeedsMaxAge(filters: Object)
    ensures Lookup(filters, "maxAge") == JUndefined ==> RankSelectValue(filters) == None
    ensures Truthy(Lookup(filters, "maxAge")) && "rankBy" !in KeySet(filters) ==> RankSelectValue(filters) == Some("undefined")
  {
  }

  /** A chosen option shows in its select; `'any'` leaves it blank. */
  lemma SelectShowsChoice(prev: Object, key: string, choice: string)
    requires choice != ""
    ensures SelectValue(ChangeFilter(prev, key, JStr(choice)), key) == if choice == "any" then None else Some(choice)
  {
  }
}
