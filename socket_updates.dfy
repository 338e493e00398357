/**
 * The live-update multiplexer (src/contexts/SocketUpdates/SocketUpdates.tsx).
 *
 * Outbound: table pages subscribe with their stringified filters on every call; rows
 * subscribe to a pair through a reference-counted map from canonical key to number of
 * holders, so that one `subscribe-pair` frame goes out for the first holder and one
 * `unsubscribe-pair` frame for the last. Inbound: each decoded message is routed to the
 * scanner registry or the pair registry under a canonical key.
 */
module SocketUpdates {
  import opened JsValues
  import opened Numeric
  import opened Records
  import CanonicalKey
  import Json

  /** A frame sent on the socket: the event name and its data. */
  datatype Frame =
    | ScannerFilter(filters: Object)
    | UnsubscribeScannerFilter(filters: Object)
    | SubscribePair(payload: PairPayload)
    | UnsubscribePair(payload: PairPayload)

  /** The record `serializeObj` builds from a pair payload: keys ascending, values as they are. */
  function PayloadRecord(p: PairPayload): Json.Record
  {
    [("chain", p.chain), ("pair", p.pair), ("token", p.token)]
  }

  /** The key under which a pair subscription is counted and a pair update dispatched. */
  function PairKey(p: PairPayload): string
  {
    Json.Stringify(PayloadRecord(p))
  }

  /** The payload's keys in the order `sort()` puts them. */
  lemma PayloadKeysSorted(p: PairPayload)
    ensures CanonicalKey.SortedKeys(PayloadObject(p)) == ["chain", "pair", "token"]
  {
    var ks := ["chain", "pair", "token"];
    assert CanonicalKey.Less("chain", "pair") && CanonicalKey.Less("pair", "token") && CanonicalKey.Less("chain", "token");
    assert CanonicalKey.StrictlySorted(ks);
    var sorted := CanonicalKey.SortedKeys(PayloadObject(p));
    forall x ensures x in sorted <==> x in ks {
    }
    CanonicalKey.SortedUnique(sorted, ks);
  }

  /** It is `serializeObj({pair, token, chain})`. */
  lemma PairKeyIsSerializeObj(p: PairPayload)
    ensures PairKey(p) == CanonicalKey.SerializeObj(PayloadObject(p))
  {
    CanonicalPayload(p);
  }

  /** The record `serializeObj` builds from the payload object is `PayloadRecord`. */
  lemma CanonicalPayload(p: PairPayload)
    ensures CanonicalKey.Canonical(PayloadObject(p)) == PayloadRecord(p)
  {
    var o := PayloadObject(p);
    PayloadKeysSorted(p);
    CanonicalKey.CanonicalKeys(o);
    var es := CanonicalKey.Entries(o, ["chain", "pair", "token"]);
    assert ToStr(Lookup(o, "chain")) == p.chain;
    assert ToStr(Lookup(o, "pair")) == p.pair;
    assert ToStr(Lookup(o, "token")) == p.token;
    assert es[0] == ("chain", p.chain) && es[1] == ("pair", p.pair) && es[2] == ("token", p.token);
    ThreeMembers(es, ("chain", p.chain), ("pair", p.pair), ("token", p.token));
  }

  lemma ThreeMembers(es: Json.Record, a: (string, string), b: (string, string), c: (string, string))
    requires |es| == 3 && es[0] == a && es[1] == b && es[2] == c
    ensures es == [a, b, c]
  {
  }

  /** Pair payloads share a key exactly when they are the same payload. */
  lemma PairKeyInjective(p: PairPayload, q: PairPayload)
    ensures PairKey(p) == PairKey(q) <==> p == q
  {
    if PairKey(p) == PairKey(q) {
      Json.StringifyInjective(PayloadRecord(p), PayloadRecord(q));
      assert PayloadRecord(p)[0] == PayloadRecord(q)[0];
      assert PayloadRecord(p)[1] == PayloadRecord(q)[1];
      assert PayloadRecord(p)[2] == PayloadRecord(q)[2];
    }
  }

  /** The closure handed back by a subscribe call, with what it captured. */
  datatype Release =
    | NoOp
    | PageRelease(filters: Object)
    | PairRelease(key: string, payload: PairPayload)

  /** The subscription counts (`tokenSubscribersCount`) and every frame sent so far. */
  datatype Registry = Registry(counts: map<string, int>, sent: seq<Frame>)

  /** `tokenSubscribersCount.get(key) || 0` */
  function CountOf(r: Registry, key: string): int
  {
    if key in r.counts then r.counts[key] else 0
  }

  /** `subscribePage` on a ready socket: the filters, every value stringified, are sent. */
  function SubscribePageStep(r: Registry, filters: Object): (s: Registry)
    ensures s.counts == r.counts
    ensures s.sent == r.sent + [ScannerFilter(Stringify(filters))]
  {
    Registry(r.counts, r.sent + [ScannerFilter(Stringify(filters))])
  }

  /** `subscribeToken` on a ready socket, for the payload `p` whose key is `key`. */
  function SubscribeTokenStep(r: Registry, key: string, p: PairPayload): (s: Registry)
    ensures key in s.counts && s.counts[key] == CountOf(r, key) + 1
    ensures forall k :: k != key ==> CountOf(s, k) == CountOf(r, k) && (k in s.counts <==> k in r.counts)
    ensures CountOf(r, key) == 0 ==> s.sent == r.sent + [SubscribePair(p)]
    ensures CountOf(r, key) != 0 ==> s.sent == r.sent
  {
    if key !in r.counts || r.counts[key] == 0 then
      Registry(r.counts[key := 0 + 1], r.sent + [SubscribePair(p)])
    else
      Registry(r.counts[key := r.counts[key] + 1], r.sent)
  }

  /** The unsubscribe closure of `subscribeToken`, which captured `key` and the payload `p`. */
  function ReleaseTokenStep(r: Registry, key: string, p: PairPayload): (s: Registry)
    ensures key !in r.counts ==> s == r
    ensures key in r.counts && r.counts[key] > 1 ==>
      s.sent == r.sent && key in s.counts && s.counts[key] == r.counts[key] - 1
    ensures key in r.counts && r.counts[key] <= 1 ==>
      s.sent == r.sent + [UnsubscribePair(p)] && key !in s.counts
    ensures forall k :: k != key ==> CountOf(s, k) == CountOf(r, k) && (k in s.counts <==> k in r.counts)
  {
    if key !in r.counts then r
    else
      var left := r.counts[key] - 1;
      if left > 0 then Registry(r.counts[key := left], r.sent)
      else Registry(r.counts - {key}, r.sent + [UnsubscribePair(p)])
  }

  /**
   * Running a returned closure. A page closure captured a ready socket, so its own
   * readiness check always passes and it sends on every call.
   */
  function ReleaseStep(r: Registry, release: Release): Registry
  {
    match release
    case NoOp => r
    case PageRelease(filters) => Registry(r.counts, r.sent + [UnsubscribeScannerFilter(filters)])
    case PairRelease(key, p) => ReleaseTokenStep(r, key, p)
  }

  /** A closure for a pair remembers the key of its own payload. */
  predicate WellKeyed(release: Release)
  {
    release.PairRelease? ==> release.key == PairKey(release.payload)
  }

  // ---------------------------------------------------------------------------
  // Frame balance

  /** What one frame adds to the subscribe-minus-unsubscribe balance of a pair. */
  function Delta(f: Frame, q: PairPayload): int
  {
    match f
    case SubscribePair(p) => if p == q then 1 else 0
    case UnsubscribePair(p) => if p == q then -1 else 0
    case _ => 0
  }

  /** `subscribe-pair` frames minus `unsubscribe-pair` frames sent for a pair. */
  function Net(log: seq<Frame>, q: PairPayload): int
  {
    if |log| == 0 then 0 else Net(log[..|log| - 1], q) + Delta(log[|log| - 1], q)
  }

  lemma NetAppend(log: seq<Frame>, f: Frame, q: PairPayload)
    ensures Net(log + [f], q) == Net(log, q) + Delta(f, q)
  {
    assert (log + [f])[..|log|] == log;
  }

  /**
   * Every stored count is at least one, and for every pair the server has been told
   * to subscribe exactly once more than to unsubscribe when the pair's key is stored,
   * and equally often otherwise.
   */
  ghost predicate Balanced(r: Registry)
  {
    && (forall k :: k in r.counts ==> r.counts[k] >= 1)
    && (forall q :: Net(r.sent, q) == if PairKey(q) in r.counts then 1 else 0)
  }

  lemma SubscribePagePreserves(r: Registry, filters: Object)
    requires Balanced(r)
    ensures Balanced(SubscribePageStep(r, filters))
  {
    var s := SubscribePageStep(r, filters);
    forall q ensures Net(s.sent, q) == Net(r.sent, q) {
      NetAppend(r.sent, ScannerFilter(Stringify(filters)), q);
    }
  }

  /** The balance of pair `q`, whose key is `kq`, after a token subscribe for `p`, whose key is `key`. */
  lemma SubscribeNetAt(r: Registry, key: string, p: PairPayload, q: PairPayload, kq: string)
    requires kq == key <==> p == q
    requires key in r.counts ==> r.counts[key] >= 1
    requires Net(r.sent, q) == if kq in r.counts then 1 else 0
    ensures Net(SubscribeTokenStep(r, key, p).sent, q) == if kq in SubscribeTokenStep(r, key, p).counts then 1 else 0
  {
    if key !in r.counts {
      NetAppend(r.sent, SubscribePair(p), q);
    }
  }

  lemma SubscribeTokenPreserves(r: Registry, key: string, p: PairPayload)
    requires Balanced(r) && key == PairKey(p)
    ensures Balanced(SubscribeTokenStep(r, key, p))
  {
    var s := SubscribeTokenStep(r, key, p);
    assert forall k :: k in s.counts ==> s.counts[k] >= 1 by {
      forall k | k in s.counts ensures s.counts[k] >= 1 {
        if k != key {
          assert CountOf(s, k) == CountOf(r, k);
        }
      }
    }
    assert forall q :: Net(s.sent, q) == if PairKey(q) in s.counts then 1 else 0 by {
      forall q ensures Net(s.sent, q) == if PairKey(q) in s.counts then 1 else 0 {
        PairKeyInjective(p, q);
        SubscribeNetAt(r, key, p, q, PairKey(q));
      }
    }
  }

  /** The balance of pair `q`, whose key is `kq`, after the closure of `p`, whose key is `key`, runs. */
  lemma ReleaseNetAt(r: Registry, key: string, p: PairPayload, q: PairPayload, kq: string)
    requires kq == key <==> p == q
    requires Net(r.sent, q) == if kq in r.counts then 1 else 0
    ensures Net(ReleaseTokenStep(r, key, p).sent, q) == if kq in ReleaseTokenStep(r, key, p).counts then 1 else 0
  {
    if key in r.counts && r.counts[key] <= 1 {
      NetAppend(r.sent, UnsubscribePair(p), q);
    }
  }

  lemma ReleaseTokenPreserves(r: Registry, key: string, p: PairPayload)
    requires Balanced(r) && key == PairKey(p)
    ensures Balanced(ReleaseTokenStep(r, key, p))
  {
    var s := ReleaseTokenStep(r, key, p);
    assert forall k :: k in s.counts ==> s.counts[k] >= 1 by {
      forall k | k in s.counts ensures s.counts[k] >= 1 {
        if k != key {
          assert CountOf(s, k) == CountOf(r, k);
        }
      }
    }
    assert forall q :: Net(s.sent, q) == if PairKey(q) in s.counts then 1 else 0 by {
      forall q ensures Net(s.sent, q) == if PairKey(q) in s.counts then 1 else 0 {
        PairKeyInjective(p, q);
        ReleaseNetAt(r, key, p, q, PairKey(q));
      }
    }
  }

  lemma ReleasePreserves(r: Registry, release: Release)
    requires Balanced(r) && WellKeyed(release)
    ensures Balanced(ReleaseStep(r, release))
  {
    match release
    case NoOp =>
    case PageRelease(filters) =>
      var s := ReleaseStep(r, release);
      forall q ensures Net(s.sent, q) == Net(r.sent, q) {
        NetAppend(r.sent, UnsubscribeScannerFilter(filters), q);
      }
    case PairRelease(key, p) => ReleaseTokenPreserves(r, key, p);
  }

  /** One call the application can make: a subscribe on a ready socket, or a closure run. */
  datatype Call = PageCall(filters: Object) | TokenCall(payload: PairPayload) | ReleaseCall(release: Release)

  function Perform(r: Registry, c: Call): Registry
  {
    match c
    case PageCall(filters) => SubscribePageStep(r, filters)
    case TokenCall(p) => SubscribeTokenStep(r, PairKey(p), p)
    case ReleaseCall(release) => ReleaseStep(r, release)
  }

  function PerformAll(r: Registry, calls: seq<Call>): Registry
    decreases |calls|
  {
    if |calls| == 0 then r else PerformAll(Perform(r, calls[0]), calls[1..])
  }

  /** Whatever calls are made, in whatever order, the frame balance holds. */
  lemma {:induction false} BalancedAlways(r: Registry, calls: seq<Call>)
    requires Balanced(r)
    requires forall i :: 0 <= i < |calls| ==> (calls[i].ReleaseCall? ==> WellKeyed(calls[i].release))
    ensures Balanced(PerformAll(r, calls))
    decreases |calls|
  {
    if |calls| > 0 {
      match calls[0] {
        case PageCall(filters) => SubscribePagePreserves(r, filters);
        case TokenCall(p) => SubscribeTokenPreserves(r, PairKey(p), p);
        case ReleaseCall(release) => ReleasePreserves(r, release);
      }
      BalancedAlways(Perform(r, calls[0]), calls[1..]);
    }
  }

  /** The provider starts with no counts and nothing sent. */
  lemma InitiallyBalanced()
    ensures Balanced(Registry(map[], []))
  {
  }

  /** In a balanced registry `subscribe-pair` goes out exactly when the key is not held. */
  lemma SubscribeSendsIffAbsent(r: Registry, key: string, p: PairPayload)
    requires Balanced(r)
    ensures |SubscribeTokenStep(r, key, p).sent| > |r.sent| <==> key !in r.counts
  {
  }

  /** `ReleaseTokenStep` applied `n` times with the same closure. */
  function ReleaseTimes(r: Registry, key: string, p: PairPayload, n: nat): Registry
    decreases n
  {
    if n == 0 then r else ReleaseTimes(ReleaseTokenStep(r, key, p), key, p, n - 1)
  }

  /**
   * No closure remembers whether it already ran: one holder's closure, run as many
   * times as there are holders, unsubscribes the pair for all of them.
   */
  lemma {:induction false} RepeatedReleaseUnsubscribes(r: Registry, key: string, p: PairPayload, n: nat)
    requires key in r.counts && r.counts[key] == n && n >= 1
    ensures key !in ReleaseTimes(r, key, p, n).counts
    ensures ReleaseTimes(r, key, p, n).sent == r.sent + [UnsubscribePair(p)]
    decreases n
  {
    if n > 1 {
      RepeatedReleaseUnsubscribes(ReleaseTokenStep(r, key, p), key, p, n - 1);
    }
  }

  // ---------------------------------------------------------------------------
  // The provider's state

  /** The provider: the count map, the frames sent, and whether the socket was ready when the callbacks were made. */
  class SubscriptionManager {
    var counts: map<string, int>
    var sent: seq<Frame>
    var ready: bool

    function State(): Registry
      reads this
    {
      Registry(counts, sent)
    }

    constructor (isReady: bool)
      ensures State() == Registry(map[], []) && ready == isReady
    {
      counts := map[];
      sent := [];
      ready := isReady;
    }

    /** The socket or its readiness changed, so the callbacks are made anew; the counts survive. */
    method SocketChanged(isReady: bool)
      modifies this
      ensures State() == old(State()) && ready == isReady
    {
      ready := isReady;
    }

    method SubscribePage(filters: Object) returns (release: Release)
      modifies this
      ensures ready == old(ready)
      ensures !ready ==> State() == old(State()) && release == NoOp
      ensures ready ==> State() == SubscribePageStep(old(State()), filters) && release == PageRelease(Stringify(filters))
      ensures Balanced(old(State())) ==> Balanced(State())
    {
      if !ready {
        return NoOp;
      }
      var data := Stringify(filters);
      sent := sent + [ScannerFilter(data)];
      release := PageRelease(data);
      if Balanced(old(State())) {
        SubscribePagePreserves(old(State()), filters);
      }
    }

    method SubscribeToken(p: PairPayload) returns (release: Release)
      modifies this
      ensures ready == old(ready)
      ensures !ready ==> State() == old(State()) && release == NoOp
      ensures ready ==> State() == SubscribeTokenStep(old(State()), PairKey(p), p) && release == PairRelease(PairKey(p), p)
      ensures WellKeyed(release)
      ensures Balanced(old(State())) ==> Balanced(State())
    {
      if !ready {
        return NoOp;
      }
      var key := PairKey(p);
      Hold(key, p);
      release := PairRelease(key, p);
      if Balanced(old(State())) {
        SubscribeTokenPreserves(old(State()), key, p);
      }
    }

    /** One more holder of `key`; the first one sends `subscribe-pair` for `p`. */
    method Hold(key: string, p: PairPayload)
      modifies this
      ensures ready == old(ready)
      ensures State() == SubscribeTokenStep(old(State()), key, p)
    {
      if key !in counts || counts[key] == 0 {
        counts := counts[key := 0];
        sent := sent + [SubscribePair(p)];
      }
      counts := counts[key := (if key in counts then counts[key] else 0) + 1];
    }

    /** Runs a closure returned by one of the subscribe calls. */
    method Run(release: Release)
      modifies this
      ensures ready == old(ready)
      ensures State() == ReleaseStep(old(State()), release)
      ensures Balanced(old(State())) && WellKeyed(release) ==> Balanced(State())
    {
      match release {
        case NoOp =>
        case PageRelease(filters) =>
          sent := sent + [UnsubscribeScannerFilter(filters)];
        case PairRelease(key, p) =>
          ReleasePair(key, p);
      }
      if Balanced(old(State())) && WellKeyed(release) {
        ReleasePreserves(old(State()), release);
      }
    }

    /** The body of the closure `subscribeToken` returns, which captured `key` and `p`. */
    method ReleasePair(key: string, p: PairPayload)
      modifies this
      ensures ready == old(ready)
      ensures State() == ReleaseTokenStep(old(State()), key, p)
    {
      if key in counts {
        counts := counts[key := counts[key] - 1];
        if counts[key] <= 0 {
          counts := counts - {key};
          sent := sent + [UnsubscribePair(p)];
        }
      }
    }
  }

  // ---------------------------------------------------------------------------
  // Inbound routing

  /** A decoded inbound message. */
  datatype Inbound =
    | ScannerPairs(filter: Object, pairs: seq<Row>)
    | Tick(pair: Object, swaps: seq<Swap>)
    | PairStats(details: PairDetails, stats: TimeframeStats, migrationProgress: Num, callCount: int)
    | OtherEvent(name: string)

  /** A dispatch to one of the two registries. */
  datatype Dispatch =
    | ToScanner(key: string, pairs: seq<Row>)
    | ToPair(key: string, update: PairUpdate)

  /** The filter a `scanner-pairs` snapshot is dispatched under. */
  function SnapshotFilter(filter: Object): (f: Object)
    ensures KeySet(f) == KeySet(filter) - {"timeFrame", "userId"}
    ensures forall k :: k != "timeFrame" && k != "userId" ==> Get(f, k) == Get(filter, k)
  {
    Delete(Delete(filter, "timeFrame"), "userId")
  }

  /** The identity a `pair-stats` message is dispatched under. */
  function StatsPayload(details: PairDetails): PairPayload
  {
    PairPayload(details.pairAddress, details.token1Address, details.chain)
  }

  /** `handleMessage` */
  function Demux(m: Inbound): (d: Option<Dispatch>)
    ensures m.OtherEvent? <==> d.None?
    ensures m.ScannerPairs? ==> d == Some(ToScanner(CanonicalKey.SerializeObj(SnapshotFilter(m.filter)), m.pairs))
    ensures m.Tick? ==> d == Some(ToPair(CanonicalKey.SerializeObj(m.pair), PairUpdate(Some(m.swaps), None)))
    ensures m.PairStats? ==>
      d == Some(ToPair(PairKey(StatsPayload(m.details)), PairUpdate(None, Some(Info(m.details, m.stats, m.migrationProgress)))))
  {
    match m
    case ScannerPairs(filter, pairs) =>
      Some(ToScanner(CanonicalKey.SerializeObj(SnapshotFilter(filter)), pairs))
    case Tick(pair, swaps) =>
      Some(ToPair(CanonicalKey.SerializeObj(pair), PairUpdate(Some(swaps), None)))
    case PairStats(details, stats, migrationProgress, _) =>
      Some(ToPair(PairKey(StatsPayload(details)), PairUpdate(None, Some(Info(details, stats, migrationProgress)))))
    case OtherEvent(_) =>
      None
  }

  /** A snapshot's dispatch key never belongs to a filter that holds `timeFrame` or `userId`. */
  lemma SnapshotKeyHidesTimeFrame(filter: Object, pairs: seq<Row>, table: Object)
    requires "timeFrame" in KeySet(table) || "userId" in KeySet(table)
    ensures Demux(ScannerPairs(filter, pairs)).value.key != CanonicalKey.SerializeObj(table)
  {
    CanonicalKey.SameKeyIff(SnapshotFilter(filter), table);
  }

  /**
   * A tick and a pair-stats message about the same pair are dispatched under one key,
   * whatever order the tick's `pair` object lists its properties in.
   */
  lemma TickAndStatsShareKey(pair: Object, swaps: seq<Swap>, details: PairDetails, stats: TimeframeStats,
                             migrationProgress: Num, callCount: int)
    requires EntrySet(pair) == EntrySet(PayloadObject(StatsPayload(details)))
    ensures Demux(Tick(pair, swaps)).value.key == Demux(PairStats(details, stats, migrationProgress, callCount)).value.key
  {
    CanonicalKey.OrderIndependent(pair, PayloadObject(StatsPayload(details)));
    PairKeyIsSerializeObj(StatsPayload(details));
  }

  /** Pair-stats messages about different identities never share a key; `callCount` plays no part. */
  lemma StatsKeyIdentifies(d1: PairDetails, d2: PairDetails, s1: TimeframeStats, s2: TimeframeStats,
                           m1: Num, m2: Num, c1: int, c2: int)
    ensures Demux(PairStats(d1, s1, m1, c1)).value.key == Demux(PairStats(d2, s2, m2, c2)).value.key
      <==> StatsPayload(d1) == StatsPayload(d2)
  {
    PairKeyInjective(StatsPayload(d1), StatsPayload(d2));
  }
}
