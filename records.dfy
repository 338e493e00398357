/**
 * The records that flow through the live-update layer: a scanner table row
 * (`ScannerResult` in global.d.ts), a swap of a `tick` message, the details and
 * window statistics of a `pair-stats` message, and the pair identity used to
 * subscribe (`PairSubscriptionPayload`).
 *
 * Numeric strings are read as `Num`; fields the core never reads or writes are
 * kept together in `other`, so that "nothing else changes" can be stated.
 */
module Records {
  import opened JsValues
  import opened Numeric

  datatype Row = Row(
    pairAddress: string,
    token1Address: string,
    chainId: int,
    routerAddress: string,
    token1Symbol: string,
    age: string,
    price: Num,
    currentMcap: Num,
    initialMcap: Num,
    pairMcapUsd: Num,
    pairMcapUsdInitial: Num,
    token1TotalSupplyFormatted: Num,
    volume: Num,
    liquidity: Num,
    diff5M: Num,
    diff1H: Num,
    diff6H: Num,
    diff24H: Num,
    migrationProgress: Num,
    buys: Option<int>,
    sells: Option<int>,
    txns: Option<int>,
    honeyPot: Option<bool>,
    dexPaid: bool,
    contractVerified: bool,
    isMintAuthDisabled: bool,
    isFreezeAuthDisabled: bool,
    discordLink: Option<string>,
    telegramLink: Option<string>,
    twitterLink: Option<string>,
    webLink: Option<string>,
    other: map<string, string>)

  /**
   * One swap of a `tick` message (`WsTokenSwap`). A missing `priceToken1Usd` or
   * `isOutlier` property is `None`.
   */
  datatype Swap = Swap(
    tokenInAddress: string,
    amountToken0: Num,
    amountToken1: Num,
    priceToken0Usd: Num,
    priceToken1Usd: Option<Num>,
    isOutlier: Option<bool>)

  /** `ScannerPairDetails`: the fields the info merge copies, the identity, and the rest. */
  datatype PairDetails = PairDetails(
    pairAddress: string,
    token1Address: string,
    chain: string,
    token1IsHoneypot: Option<bool>,
    dexPaid: bool,
    linkDiscord: Option<string>,
    linkTelegram: Option<string>,
    linkTwitter: Option<string>,
    linkWebsite: Option<string>,
    isVerified: bool,
    mintAuthorityRenounced: bool,
    freezeAuthorityRenounced: bool,
    other: map<string, string>)

  /** `TimeFramePairStatsRef`: the `diff` the merge reads, and the rest. */
  datatype WindowStats = WindowStats(diff: Num, other: map<string, string>)

  datatype TimeframeStats = TimeframeStats(
    fiveMin: WindowStats,
    oneHour: WindowStats,
    sixHour: WindowStats,
    twentyFourHour: WindowStats)

  /** The `info` a `pair-stats` message is dispatched with. */
  datatype Info = Info(details: PairDetails, stats: TimeframeStats, migrationProgress: Num)

  /** What the pair registry delivers to a row's listener: a swap batch, an info record, or both. */
  datatype PairUpdate = PairUpdate(swaps: Option<seq<Swap>>, info: Option<Info>)

  /** `PairSubscriptionPayload` */
  datatype PairPayload = PairPayload(pair: string, token: string, chain: string)

  /** The payload as the plain object `{pair, token, chain}`, in that insertion order. */
  function PayloadObject(p: PairPayload): (o: Object)
    ensures KeySet(o) == {"pair", "token", "chain"}
    ensures Get(o, "pair") == Some(JStr(p.pair))
    ensures Get(o, "token") == Some(JStr(p.token))
    ensures Get(o, "chain") == Some(JStr(p.chain))
  {
    var o: Object := [("pair", JStr(p.pair)), ("token", JStr(p.token)), ("chain", JStr(p.chain))];
    GetFromEntry(o, 0);
    GetFromEntry(o, 1);
    GetFromEntry(o, 2);
    assert o[1..][1..] == [o[2]] && [o[2]][1..] == [];
    assert KeySet([o[2]]) == {"chain"};
    assert KeySet(o[1..]) == {"token", "chain"};
    o
  }
}
