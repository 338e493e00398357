/**
 * Row reconciliation for one watched pair (src/compositions/AtomTable/utils/usePairWathcer.ts):
 * the identity a row subscribes with, the tick merge (latest price, market cap, and
 * a loop that accounts every swap as a buy or a sell with its volume) and the info
 * merge that copies fourteen fields out of a `pair-stats` record.
 */
module PairWatcher {
  import opened JsValues
  import opened Numeric
  import opened Records
  import ChainNames
  import CanonicalKey
  import SocketUpdates

  /** The payload a row subscribes with and keys its listener by. */
  function RowPayload(row: Row): (p: PairPayload)
    ensures p.pair == row.pairAddress && p.token == row.token1Address
    ensures ChainNames.IsChainName(p.chain)
    ensures p.chain == ChainNames.ChainIdToName(row.chainId)
  {
    PairPayload(row.pairAddress, row.token1Address, ChainNames.ChainIdToName(row.chainId))
  }

  /** `serializeObj(payload)`: the key the row's listener is registered under. */
  function ListenerKey(row: Row): string
  {
    CanonicalKey.SerializeObj(PayloadObject(RowPayload(row)))
  }

  /** The listener is registered under the key the row's socket subscription is counted under. */
  lemma ListenerKeyIsPairKey(row: Row)
    ensures ListenerKey(row) == SocketUpdates.PairKey(RowPayload(row))
  {
    SocketUpdates.PairKeyIsSerializeObj(RowPayload(row));
  }

  /** A `pair-stats` message reaches the row's listener exactly when it names the row's pair, token and chain. */
  lemma StatsReachesRow(row: Row, details: PairDetails, stats: TimeframeStats, migrationProgress: Num, callCount: int)
    ensures SocketUpdates.Demux(SocketUpdates.PairStats(details, stats, migrationProgress, callCount)).value.key == ListenerKey(row)
      <==> SocketUpdates.StatsPayload(details) == RowPayload(row)
  {
    ListenerKeyIsPairKey(row);
    SocketUpdates.PairKeyInjective(SocketUpdates.StatsPayload(details), RowPayload(row));
  }

  /**
   * A `tick` message reaches the row's listener exactly when its `pair` object has the
   * payload's three keys with the same strings, in whatever order.
   */
  lemma TickReachesRow(row: Row, pair: Object, swaps: seq<Swap>)
    ensures SocketUpdates.Demux(SocketUpdates.Tick(pair, swaps)).value.key == ListenerKey(row)
      <==> CanonicalKey.SameStringified(pair, PayloadObject(RowPayload(row)))
  {
    CanonicalKey.SameKeyIff(pair, PayloadObject(RowPayload(row)));
  }

  // ---------------------------------------------------------------------------
  // Choosing the latest swap

  /** `!('isOutlier' in swap) || !swap.isOutlier` */
  predicate Counted(s: Swap)
  {
    s.isOutlier.None? || !s.isOutlier.value
  }

  /** `swaps.filter(...)` keeping the swaps that are not outliers, in order. */
  function NonOutliers(swaps: seq<Swap>): (r: seq<Swap>)
    ensures |r| <= |swaps|
    ensures forall s :: s in r ==> s in swaps && Counted(s)
  {
    if |swaps| == 0 then []
    else
      var last := swaps[|swaps| - 1];
      NonOutliers(swaps[..|swaps| - 1]) + (if Counted(last) then [last] else [])
  }

  /** `.pop()` of the filtered list. */
  function LatestSwap(swaps: seq<Swap>): Option<Swap>
  {
    var kept := NonOutliers(swaps);
    if |kept| == 0 then None else Some(kept[|kept| - 1])
  }

  /** The latest swap is the last swap that is not an outlier; there is none exactly when all are outliers. */
  lemma {:induction false} LatestIsLastCounted(swaps: seq<Swap>)
    ensures LatestSwap(swaps).Some? ==>
      exists i :: 0 <= i < |swaps| && swaps[i] == LatestSwap(swaps).value && Counted(swaps[i]) &&
        forall j :: i < j < |swaps| ==> !Counted(swaps[j])
    ensures LatestSwap(swaps).None? <==> forall j :: 0 <= j < |swaps| ==> !Counted(swaps[j])
  {
    if |swaps| > 0 {
      var n := |swaps|;
      var init := swaps[..n - 1];
      LatestIsLastCounted(init);
      if !Counted(swaps[n - 1]) {
        assert LatestSwap(swaps) == LatestSwap(init) by {
          assert NonOutliers(swaps) == NonOutliers(init);
        }
        if LatestSwap(init).Some? {
          var i :| 0 <= i < |init| && init[i] == LatestSwap(init).value && Counted(init[i]) &&
            forall j :: i < j < |init| ==> !Counted(init[j]);
          OutlierKeepsLast(swaps, init, i);
        } else {
          OutlierKeepsNone(swaps, init);
        }
      }
    }
  }

  lemma OutlierKeepsLast(swaps: seq<Swap>, init: seq<Swap>, i: int)
    requires |swaps| > 0 && init == swaps[..|swaps| - 1] && !Counted(swaps[|swaps| - 1])
    requires 0 <= i < |init| && forall j :: i < j < |init| ==> !Counted(init[j])
    ensures forall j :: i < j < |swaps| ==> !Counted(swaps[j])
  {
    forall j | i < j < |swaps| ensures !Counted(swaps[j]) {
      if j < |init| { assert swaps[j] == init[j]; }
    }
  }

  lemma OutlierKeepsNone(swaps: seq<Swap>, init: seq<Swap>)
    requires |swaps| > 0 && init == swaps[..|swaps| - 1] && !Counted(swaps[|swaps| - 1])
    requires forall j :: 0 <= j < |init| ==> !Counted(init[j])
    ensures forall j :: 0 <= j < |swaps| ==> !Counted(swaps[j])
  {
    forall j | 0 <= j < |swaps| ensures !Counted(swaps[j]) {
      if j < |init| { assert swaps[j] == init[j]; }
    }
  }

  // ---------------------------------------------------------------------------
  // The tick merge

  function AsciiLower(c: char): char
  {
    if 'A' <= c <= 'Z' then (c as int - 'A' as int + 'a' as int) as char else c
  }

  /** `s.toLowerCase()` on ASCII letters. */
  function ToLower(s: string): (r: string)
    ensures |r| == |s|
    ensures forall i :: 0 <= i < |s| ==> r[i] == AsciiLower(s[i])
  {
    if |s| == 0 then [] else [AsciiLower(s[0])] + ToLower(s[1..])
  }

  /** A swap whose input token is the row's token 1, compared without regard to case. */
  predicate IsBuy(s: Swap, token1Address: string)
  {
    ToLower(s.tokenInAddress) == ToLower(token1Address)
  }

  /** `(count || 0)` */
  function OrZero(count: Option<int>): int
  {
    if count.Some? then count.value else 0
  }

  /** `Number(priceToken1Usd)`, NaN for a swap without that property. */
  function PriceOrNaN(price: Option<Num>): Num
  {
    if price.Some? then price.value else NaN
  }

  /** What one swap contributes to the volume. */
  function Contribution(s: Swap, token1Address: string): Num
  {
    if IsBuy(s, token1Address) then Mul(s.amountToken1, PriceOrNaN(s.priceToken1Usd))
    else Mul(s.amountToken0, s.priceToken0Usd)
  }

  /** One iteration of the `forEach`. */
  function Account(row: Row, s: Swap): Row
  {
    if IsBuy(s, row.token1Address) then
      row.(buys := Some(OrZero(row.buys) + 1), volume := Add(row.volume, Contribution(s, row.token1Address)))
    else
      row.(sells := Some(OrZero(row.sells) + 1), volume := Add(row.volume, Contribution(s, row.token1Address)))
  }

  /** The `forEach` over a prefix of the batch, outliers included. */
  function AccountAll(row: Row, swaps: seq<Swap>): Row
  {
    if |swaps| == 0 then row else Account(AccountAll(row, swaps[..|swaps| - 1]), swaps[|swaps| - 1])
  }

  /** The row after the tick listener's `setPair` updater. */
  function TickMerge(prev: Row, swaps: seq<Swap>): Row
  {
    match LatestSwap(swaps)
    case None => prev
    case Some(latest) =>
      if latest.priceToken1Usd.None? then prev
      else
        var price := latest.priceToken1Usd.value;
        AccountAll(prev.(price := price, currentMcap := Mul(price, prev.token1TotalSupplyFormatted)), swaps)
  }

  /** The tick updater: copy the row, set price and market cap, then account each swap in turn. */
  method ApplyTick(prev: Row, swaps: seq<Swap>) returns (next: Row)
    ensures next == TickMerge(prev, swaps)
  {
    var latest := LatestSwap(swaps);
    if latest.None? || latest.value.priceToken1Usd.None? {
      return prev;
    }
    var price := latest.value.priceToken1Usd.value;
    var start := prev.(price := price, currentMcap := Mul(price, prev.token1TotalSupplyFormatted));
    next := start;
    var i := 0;
    while i < |swaps|
      invariant 0 <= i <= |swaps|
      invariant next == AccountAll(start, swaps[..i])
    {
      var s := swaps[i];
      if IsBuy(s, next.token1Address) {
        next := next.(buys := Some(OrZero(next.buys) + 1), volume := Add(next.volume, Mul(s.amountToken1, PriceOrNaN(s.priceToken1Usd))));
      } else {
        next := next.(sells := Some(OrZero(next.sells) + 1), volume := Add(next.volume, Mul(s.amountToken0, s.priceToken0Usd)));
      }
      assert swaps[..i + 1][..i] == swaps[..i];
      i := i + 1;
    }
    assert swaps[..|swaps|] == swaps;
  }

  // ---------------------------------------------------------------------------
  // What the tick merge changes

  /** `b` differs from `a` at most in the five fields a tick writes. */
  predicate SameExceptTick(a: Row, b: Row)
  {
    a.(price := b.price, currentMcap := b.currentMcap, buys := b.buys, sells := b.sells, volume := b.volume) == b
  }

  /** Number of buys in a batch. */
  function BuyCount(swaps: seq<Swap>, token1Address: string): (n: nat)
    ensures n <= |swaps|
  {
    if |swaps| == 0 then 0
    else BuyCount(swaps[..|swaps| - 1], token1Address) + (if IsBuy(swaps[|swaps| - 1], token1Address) then 1 else 0)
  }

  /** The batch's total volume, added up from the last swap backwards. */
  function BatchVolume(swaps: seq<Swap>, token1Address: string): Num
  {
    if |swaps| == 0 then Dec(0.0)
    else Add(BatchVolume(swaps[..|swaps| - 1], token1Address), Contribution(swaps[|swaps| - 1], token1Address))
  }

  lemma AddAssociative(a: Num, b: Num, c: Num)
    ensures Add(Add(a, b), c) == Add(a, Add(b, c))
  {
  }

  /** The accounting loop: buys and sells grow by the batch's buys and sells, the volume by the batch's volume, and nothing else moves. */
  lemma AccountAllEffect(row: Row, swaps: seq<Swap>)
    ensures var r := AccountAll(row, swaps);
      SameExceptTick(row, r) && r.price == row.price && r.currentMcap == row.currentMcap &&
      OrZero(r.buys) == OrZero(row.buys) + BuyCount(swaps, row.token1Address) &&
      OrZero(r.sells) == OrZero(row.sells) + (|swaps| - BuyCount(swaps, row.token1Address)) &&
      r.volume == Add(row.volume, BatchVolume(swaps, row.token1Address))
  {
    AccountAllKeeps(row, swaps);
    AccountAllCounts(row, swaps);
    AccountAllVolume(row, swaps);
  }

  /** One swap changes only buys or sells and the volume. */
  lemma AccountKeeps(row: Row, s: Swap)
    ensures var r := Account(row, s);
      SameExceptTick(row, r) && r.price == row.price && r.currentMcap == row.currentMcap
  {
  }

  lemma SameExceptTickTransitive(a: Row, b: Row, c: Row)
    requires SameExceptTick(a, b) && SameExceptTick(b, c)
    ensures SameExceptTick(a, c)
  {
  }

  lemma {:induction false} AccountAllKeeps(row: Row, swaps: seq<Swap>)
    ensures var r := AccountAll(row, swaps);
      SameExceptTick(row, r) && r.price == row.price && r.currentMcap == row.currentMcap
  {
    if |swaps| > 0 {
      var init := swaps[..|swaps| - 1];
      AccountAllKeeps(row, init);
      var mid := AccountAll(row, init);
      AccountKeeps(mid, swaps[|swaps| - 1]);
      SameExceptTickTransitive(row, mid, AccountAll(row, swaps));
    }
  }

  /** One swap adds one buy or one sell, and its contribution to the volume. */
  lemma AccountOne(row: Row, s: Swap)
    ensures var r := Account(row, s);
      && r.token1Address == row.token1Address
      && OrZero(r.buys) == OrZero(row.buys) + (if IsBuy(s, row.token1Address) then 1 else 0)
      && OrZero(r.sells) == OrZero(row.sells) + (if IsBuy(s, row.token1Address) then 0 else 1)
      && r.volume == Add(row.volume, Contribution(s, row.token1Address))
  {
    var v := Add(row.volume, Contribution(s, row.token1Address));
    if IsBuy(s, row.token1Address) {
      assert Account(row, s) == row.(buys := Some(OrZero(row.buys) + 1), volume := v);
    } else {
      assert Account(row, s) == row.(sells := Some(OrZero(row.sells) + 1), volume := v);
    }
  }

  lemma {:induction false} AccountAllCounts(row: Row, swaps: seq<Swap>)
    ensures var r := AccountAll(row, swaps);
      OrZero(r.buys) == OrZero(row.buys) + BuyCount(swaps, row.token1Address) &&
      OrZero(r.sells) == OrZero(row.sells) + (|swaps| - BuyCount(swaps, row.token1Address))
  {
    if |swaps| > 0 {
      var init, last := swaps[..|swaps| - 1], swaps[|swaps| - 1];
      AccountAllCounts(row, init);
      AccountAllKeeps(row, init);
      var mid := AccountAll(row, init);
      assert AccountAll(row, swaps) == Account(mid, last);
      AccountOne(mid, last);
    }
  }

  lemma {:induction false} AccountAllVolume(row: Row, swaps: seq<Swap>)
    ensures AccountAll(row, swaps).volume == Add(row.volume, BatchVolume(swaps, row.token1Address))
  {
    if |swaps| > 0 {
      var init, last := swaps[..|swaps| - 1], swaps[|swaps| - 1];
      AccountAllVolume(row, init);
      AccountAllKeeps(row, init);
      var mid := AccountAll(row, init);
      assert AccountAll(row, swaps) == Account(mid, last);
      AccountOne(mid, last);
      AddAssociative(row.volume, BatchVolume(init, row.token1Address), Contribution(last, row.token1Address));
    } else {
      assert Add(row.volume, Dec(0.0)) == row.volume || row.volume.NaN?;
    }
  }

  /** A tick changes at most price, market cap, buys, sells and volume. */
  lemma TickChangesOnlyFive(prev: Row, swaps: seq<Swap>)
    ensures SameExceptTick(prev, TickMerge(prev, swaps))
  {
    var latest := LatestSwap(swaps);
    if latest.Some? && latest.value.priceToken1Usd.Some? {
      var price := latest.value.priceToken1Usd.value;
      var start := prev.(price := price, currentMcap := Mul(price, prev.token1TotalSupplyFormatted));
      AccountAllEffect(start, swaps);
    }
  }

  /** Without a non-outlier swap carrying `priceToken1Usd` the row is left exactly as it was. */
  lemma NoPricedLatestUnchanged(prev: Row, swaps: seq<Swap>)
    requires LatestSwap(swaps).None? || LatestSwap(swaps).value.priceToken1Usd.None?
    ensures TickMerge(prev, swaps) == prev
  {
  }

  /** A batch of outliers alone changes nothing, not even the buy, sell and volume accounting. */
  lemma OutliersOnlyUnchanged(prev: Row, swaps: seq<Swap>)
    requires forall j :: 0 <= j < |swaps| ==> !Counted(swaps[j])
    ensures TickMerge(prev, swaps) == prev
  {
    LatestIsLastCounted(swaps);
  }

  /** The tick applies once a priced non-outlier swap exists. */
  predicate TickApplies(swaps: seq<Swap>)
  {
    LatestSwap(swaps).Some? && LatestSwap(swaps).value.priceToken1Usd.Some?
  }

  /**
   * An applied tick sets the price from the latest swap, the market cap from that price
   * and the previous supply, counts every swap as a buy or a sell and adds their volume.
   */
  lemma TickApplied(prev: Row, swaps: seq<Swap>)
    requires TickApplies(swaps)
    ensures var next := TickMerge(prev, swaps); var price := LatestSwap(swaps).value.priceToken1Usd.value;
      next.price == price &&
      next.currentMcap == Mul(price, prev.token1TotalSupplyFormatted) &&
      OrZero(next.buys) == OrZero(prev.buys) + BuyCount(swaps, prev.token1Address) &&
      OrZero(next.sells) == OrZero(prev.sells) + (|swaps| - BuyCount(swaps, prev.token1Address)) &&
      OrZero(next.buys) + OrZero(next.sells) == OrZero(prev.buys) + OrZero(prev.sells) + |swaps| &&
      next.volume == Add(prev.volume, BatchVolume(swaps, prev.token1Address))
  {
    var price := LatestSwap(swaps).value.priceToken1Usd.value;
    var start := prev.(price := price, currentMcap := Mul(price, prev.token1TotalSupplyFormatted));
    AccountAllEffect(start, swaps);
  }

  /** Delivering the same batch twice counts its swaps and its volume twice. */
  lemma TickTwiceDoubleCounts(prev: Row, swaps: seq<Swap>)
    requires TickApplies(swaps)
    ensures var twice := TickMerge(TickMerge(prev, swaps), swaps);
      OrZero(twice.buys) + OrZero(twice.sells) == OrZero(prev.buys) + OrZero(prev.sells) + 2 * |swaps| &&
      twice.volume == Add(Add(prev.volume, BatchVolume(swaps, prev.token1Address)), BatchVolume(swaps, prev.token1Address))
  {
    var once := TickMerge(prev, swaps);
    TickApplied(prev, swaps);
    TickChangesOnlyFive(prev, swaps);
    assert once.token1Address == prev.token1Address;
    TickApplied(once, swaps);
  }

  // ---------------------------------------------------------------------------
  // The info merge

  /** The row after the info listener's `setPair` updater: fourteen fields copied from the info. */
  function InfoMerge(prev: Row, info: Info): Row
  {
    prev.(
      honeyPot := info.details.token1IsHoneypot,
      dexPaid := info.details.dexPaid,
      discordLink := info.details.linkDiscord,
      telegramLink := info.details.linkTelegram,
      twitterLink := info.details.linkTwitter,
      webLink := info.details.linkWebsite,
      contractVerified := info.details.isVerified,
      isMintAuthDisabled := info.details.mintAuthorityRenounced,
      isFreezeAuthDisabled := info.details.freezeAuthorityRenounced,
      migrationProgress := info.migrationProgress,
      diff5M := info.stats.fiveMin.diff,
      diff1H := info.stats.oneHour.diff,
      diff6H := info.stats.sixHour.diff,
      diff24H := info.stats.twentyFourHour.diff)
  }

  /** `b` differs from `a` at most in the fourteen fields the info merge writes. */
  predicate SameExceptInfo(a: Row, b: Row)
  {
    a.(honeyPot := b.honeyPot, dexPaid := b.dexPaid, discordLink := b.discordLink, telegramLink := b.telegramLink,
       twitterLink := b.twitterLink, webLink := b.webLink, contractVerified := b.contractVerified,
       isMintAuthDisabled := b.isMintAuthDisabled, isFreezeAuthDisabled := b.isFreezeAuthDisabled,
       migrationProgress := b.migrationProgress, diff5M := b.diff5M, diff1H := b.diff1H, diff6H := b.diff6H,
       diff24H := b.diff24H) == b
  }

  /** The row shows what the info says about the token, its audit flags, its migration and its windows. */
  predicate Shows(row: Row, info: Info)
  {
    row.honeyPot == info.details.token1IsHoneypot && row.dexPaid == info.details.dexPaid &&
    row.discordLink == info.details.linkDiscord && row.telegramLink == info.details.linkTelegram &&
    row.twitterLink == info.details.linkTwitter && row.webLink == info.details.linkWebsite &&
    row.contractVerified == info.details.isVerified &&
    row.isMintAuthDisabled == info.details.mintAuthorityRenounced &&
    row.isFreezeAuthDisabled == info.details.freezeAuthorityRenounced &&
    row.migrationProgress == info.migrationProgress &&
    row.diff5M == info.stats.fiveMin.diff && row.diff1H == info.stats.oneHour.diff &&
    row.diff6H == info.stats.sixHour.diff && row.diff24H == info.stats.twentyFourHour.diff
  }

  /** The merged row shows the info and keeps every other field of the previous row. */
  lemma InfoMergeEffect(prev: Row, info: Info)
    ensures Shows(InfoMerge(prev, info), info)
    ensures SameExceptInfo(prev, InfoMerge(prev, info))
  {
  }

  /** Those two facts pin the merged row down: it is the only such row. */
  lemma InfoMergeUnique(prev: Row, info: Info, x: Row)
    requires Shows(x, info) && SameExceptInfo(prev, x)
    ensures x == InfoMerge(prev, info)
  {
  }

  /** Merging the same info again changes nothing. */
  lemma InfoMergeIdempotent(prev: Row, info: Info)
    ensures InfoMerge(InfoMerge(prev, info), info) == InfoMerge(prev, info)
  {
  }

  // ---------------------------------------------------------------------------
  // The listener

  /** What the row becomes when the registry delivers an update: the tick updater, then the info updater. */
  function OnPairUpdate(row: Row, update: PairUpdate): Row
  {
    var ticked := if update.swaps.Some? then TickMerge(row, update.swaps.value) else row;
    if update.info.Some? then InfoMerge(ticked, update.info.value) else ticked
  }

  /** An update changes the row's identity never. */
  lemma UpdateKeepsIdentity(row: Row, update: PairUpdate)
    ensures var next := OnPairUpdate(row, update);
      next.pairAddress == row.pairAddress && next.token1Address == row.token1Address && next.chainId == row.chainId &&
      RowPayload(next) == RowPayload(row)
  {
    if update.swaps.Some? {
      TickChangesOnlyFive(row, update.swaps.value);
    }
  }

  /** The atom holding one watched row. */
  class PairAtom {
    var row: Row

    constructor (initial: Row)
      ensures row == initial
    {
      row := initial;
    }

    /** The listener: the tick updater, then the info updater, each through `setPair`. */
    method Receive(update: PairUpdate)
      modifies this
      ensures row == OnPairUpdate(old(row), update)
    {
      if update.swaps.Some? {
        var next := ApplyTick(row, update.swaps.value);
        row := next;
      }
      if update.info.Some? {
        row := InfoMerge(row, update.info.value);
      }
    }
  }
}
