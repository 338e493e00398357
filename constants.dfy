/**
 * src/helpers/constants.ts: the rank options, the table that maps each to the
 * row field a table sorts by, and the two preset filter objects.
 */
module Constants {
  import opened JsValues

  /** `SerdeRankBy` */
  datatype RankBy = Price5M | Price1H | Price6H | Price24H | VolumeRank | TxnsRank | BuysRank | SellsRank
                  | Trending | AgeRank | LiquidityRank | Mcap | Migration

  /** The wire spelling of each rank option. */
  function RankByName(r: RankBy): string
  {
    match r
    case Price5M => "price5M"
    case Price1H => "price1H"
    case Price6H => "price6H"
    case Price24H => "price24H"
    case VolumeRank => "volume"
    case TxnsRank => "txns"
    case BuysRank => "buys"
    case SellsRank => "sells"
    case Trending => "trending"
    case AgeRank => "age"
    case LiquidityRank => "liquidity"
    case Mcap => "mcap"
    case Migration => "migration"
  }

  /** Reads a rank option back from its spelling (the select hands over strings). */
  function ParseRankBy(s: string): (r: Option<RankBy>)
    ensures r.Some? ==> RankByName(r.value) == s
  {
    if s == "price5M" then Some(Price5M)
    else if s == "price1H" then Some(Price1H)
    else if s == "price6H" then Some(Price6H)
    else if s == "price24H" then Some(Price24H)
    else if s == "volume" then Some(VolumeRank)
    else if s == "txns" then Some(TxnsRank)
    else if s == "buys" then Some(BuysRank)
    else if s == "sells" then Some(SellsRank)
    else if s == "trending" then Some(Trending)
    else if s == "age" then Some(AgeRank)
    else if s == "liquidity" then Some(LiquidityRank)
    else if s == "mcap" then Some(Mcap)
    else if s == "migration" then Some(Migration)
    else None
  }

  lemma RankByNameRoundTrip(r: RankBy)
    ensures ParseRankBy(RankByName(r)) == Some(r)
  {
  }

  /** The row fields a table can be sorted by: the header columns and the rank targets. */
  predicate IsSortKey(k: string)
  {
    k in {"price", "currentMcap", "volume", "diff5M", "diff1H", "diff6H", "diff24H",
          "age", "buys", "sells", "txns", "liquidity", "migrationProgress"}
  }

  /** `rankByToScannerKey[r]`; `None` is `null`. */
  function RankByToScannerKey(r: RankBy): (k: Option<string>)
    ensures k.Some? ==> IsSortKey(k.value)
    ensures k.None? <==> r == Trending
  {
    match r
    case Price5M => Some("diff5M")
    case Price1H => Some("diff1H")
    case Price6H => Some("diff6H")
    case Price24H => Some("diff24H")
    case VolumeRank => Some("volume")
    case TxnsRank => Some("txns")
    case BuysRank => Some("buys")
    case SellsRank => Some("sells")
    case Trending => None
    case AgeRank => Some("age")
    case LiquidityRank => Some("liquidity")
    case Mcap => Some("currentMcap")
    case Migration => Some("migrationProgress")
  }

  /** Distinct options sort by distinct fields: the table loses no option. */
  lemma ScannerKeyInjective(r1: RankBy, r2: RankBy)
    requires RankByToScannerKey(r1).Some? && RankByToScannerKey(r1) == RankByToScannerKey(r2)
    ensures r1 == r2
  {
  }

  /** `TRENDING_TOKENS_FILTERS` */
  const TrendingFilters: Object :=
    [("page", JNum(1)), ("rankBy", JStr("volume")), ("orderBy", JStr("desc")),
     ("minVol24H", JNum(1000)), ("isNotHP", JBool(true)), ("maxAge", JNum(168))]

  /** `NEW_TOKENS_FILTERS` */
  const NewFilters: Object :=
    [("page", JNum(1)), ("rankBy", JStr("age")), ("orderBy", JStr("desc")),
     ("maxAge", JNum(24)), ("isNotHP", JBool(true))]

  /**
   * The trending preset's keys: neither `timeFrame` nor `userId`, the two fields a
   * `scanner-pairs` echo drops.
   */
  lemma TrendingKeys()
    ensures KeySet(TrendingFilters) == {"page", "rankBy", "orderBy", "minVol24H", "isNotHP", "maxAge"}
  {
  }

  /** Page 1, largest first, no honeypots, by volume, at least $1k, at most 168 hours old. */
  lemma TrendingValues()
    ensures Get(TrendingFilters, "page") == Some(JNum(1))
    ensures Get(TrendingFilters, "orderBy") == Some(JStr("desc"))
    ensures Get(TrendingFilters, "isNotHP") == Some(JBool(true))
    ensures Get(TrendingFilters, "rankBy") == Some(JStr("volume"))
    ensures Get(TrendingFilters, "minVol24H") == Some(JNum(1000))
    ensures Get(TrendingFilters, "maxAge") == Some(JNum(168))
  {
    var o := TrendingFilters;
    GetFromEntry(o, 0);
    GetFromEntry(o, 1);
    GetFromEntry(o, 2);
    GetFromEntry(o, 3);
    GetFromEntry(o, 4);
    GetFromEntry(o, 5);
  }

  /** The new-tokens preset's keys: no volume floor, and neither `timeFrame` nor `userId`. */
  lemma NewKeys()
    ensures KeySet(NewFilters) == {"page", "rankBy", "orderBy", "maxAge", "isNotHP"}
  {
  }

  /** Page 1, newest first, no honeypots, by age, at most 24 hours old. */
  lemma NewValues()
    ensures Get(NewFilters, "page") == Some(JNum(1))
    ensures Get(NewFilters, "orderBy") == Some(JStr("desc"))
    ensures Get(NewFilters, "isNotHP") == Some(JBool(true))
    ensures Get(NewFilters, "rankBy") == Some(JStr("age"))
    ensures Get(NewFilters, "maxAge") == Some(JNum(24))
  {
    var o := NewFilters;
    GetFromEntry(o, 0);
    GetFromEntry(o, 1);
    GetFromEntry(o, 2);
    GetFromEntry(o, 3);
    GetFromEntry(o, 4);
  }
}
