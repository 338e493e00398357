/**
 * Wiring of one table to the live feed (src/compositions/AtomTable/utils/useScannerWatcher.ts):
 * a page subscription made for the current filters and torn down whenever they
 * change, and a listener in the scanner registry, keyed by `serializeObj(filters)`,
 * that writes each delivered snapshot into the table.
 *
 * The scanner registry is reduced to the one key this table listens under.
 */
module ScannerWatcher {
  import opened JsValues
  import opened Records
  import CanonicalKey
  import SocketUpdates
  import AtomTable
  import Constants

  /** `serializeObj(filters)`, the full filters `timeFrame` and `userId` included. */
  function ListenerKey(filters: Object): string
  {
    CanonicalKey.SerializeObj(filters)
  }

  /** The rows a listener under `key` receives from an inbound message, if any. */
  function Delivered(key: string, m: SocketUpdates.Inbound): Option<seq<Row>>
  {
    var d := SocketUpdates.Demux(m);
    if d.Some? && d.value.ToScanner? && d.value.key == key then Some(d.value.pairs) else None
  }

  predicate Hidden(filters: Object)
  {
    "timeFrame" in KeySet(filters) || "userId" in KeySet(filters)
  }

  /** A table whose filters hold `timeFrame` or `userId` never receives a snapshot. */
  lemma HiddenNeverReached(filters: Object, m: SocketUpdates.Inbound)
    requires Hidden(filters)
    ensures Delivered(ListenerKey(filters), m) == None
  {
    if m.ScannerPairs? {
      SocketUpdates.SnapshotKeyHidesTimeFrame(m.filter, m.pairs, filters);
    }
  }

  /**
   * Any other table receives the snapshot the server sends back for the filter
   * object its own subscription sent, with the rows as sent.
   */
  lemma EchoReaches(filters: Object, pairs: seq<Row>)
    requires !Hidden(filters)
    ensures Delivered(ListenerKey(filters), SocketUpdates.ScannerPairs(Stringify(filters), pairs)) == Some(pairs)
  {
    var s := Stringify(filters);
    CanonicalKey.StringifySameStringified(filters);
    DeleteAbsent(s, "timeFrame");
    DeleteAbsent(s, "userId");
    assert SocketUpdates.SnapshotFilter(s) == s;
    CanonicalKey.StringifyKeepsKey(filters);
  }

  /** Both preset tables are reachable. */
  lemma PresetsReachable()
    ensures !Hidden(Constants.TrendingFilters) && !Hidden(Constants.NewFilters)
  {
    Constants.TrendingKeys();
    Constants.NewKeys();
  }

  /** The two effects of one mounted table. */
  class Watcher {
    const manager: SocketUpdates.SubscriptionManager
    const table: AtomTable.Table
    /** The filters both effects last ran with. */
    var filters: Object
    /** The page subscription's unsubscribe. */
    var release: SocketUpdates.Release
    /** The key the listener is registered under, while registered. */
    var listening: Option<string>

    /**
     * A page closure holding the data the subscription sent for the current
     * filters, or the no-op of a socket that was not ready.
     */
    predicate Valid()
      reads this
    {
      release.NoOp? || (release.PageRelease? && release.filters == Stringify(filters))
    }

    /** Mounting runs both effects with the table's filters. */
    constructor (m: SocketUpdates.SubscriptionManager, t: AtomTable.Table)
      modifies m
      ensures manager == m && table == t && Valid() && (m.ready <==> release.PageRelease?)
      ensures filters == t.filters && listening == Some(ListenerKey(t.filters))
      ensures m.ready == old(m.ready)
      ensures m.ready ==> m.State() == SocketUpdates.SubscribePageStep(old(m.State()), t.filters)
      ensures !m.ready ==> m.State() == old(m.State())
    {
      manager := m;
      table := t;
      filters := t.filters;
      listening := Some(ListenerKey(t.filters));
      release := SocketUpdates.NoOp;
      new;
      release := m.SubscribePage(t.filters);
    }

    /**
     * The filters changed: both effects clean up (the old page subscription is
     * released, the listener removed) and run again with the new filters.
     */
    method FiltersChanged()
      requires Valid()
      modifies this, manager
      ensures Valid() && filters == table.filters && listening == Some(ListenerKey(table.filters))
      ensures manager.ready == old(manager.ready) && (manager.ready <==> release.PageRelease?)
      ensures manager.ready ==>
        manager.State() == SocketUpdates.SubscribePageStep(SocketUpdates.ReleaseStep(old(manager.State()), old(release)), table.filters)
      ensures !manager.ready ==> manager.State() == SocketUpdates.ReleaseStep(old(manager.State()), old(release))
      ensures SocketUpdates.Balanced(old(manager.State())) ==> SocketUpdates.Balanced(manager.State())
    {
      manager.Run(release);
      listening := None;
      filters := table.filters;
      release := manager.SubscribePage(filters);
      listening := Some(ListenerKey(filters));
    }

    /** The socket callbacks changed: only the page effect runs again. */
    method PageCallbackChanged()
      requires Valid()
      modifies this, manager
      ensures Valid() && filters == old(filters) && listening == old(listening)
      ensures manager.ready == old(manager.ready)
      ensures manager.ready ==>
        manager.State() == SocketUpdates.SubscribePageStep(SocketUpdates.ReleaseStep(old(manager.State()), old(release)), filters)
      ensures !manager.ready ==> manager.State() == SocketUpdates.ReleaseStep(old(manager.State()), old(release))
    {
      manager.Run(release);
      release := manager.SubscribePage(filters);
    }

    /** The scanner registry delivers a message: a snapshot for this key replaces the rows. */
    method Deliver(m: SocketUpdates.Inbound)
      modifies table
      ensures listening.Some? && Delivered(listening.value, m).Some? ==>
        table.pairs == Delivered(listening.value, m).value && table.totalRows == old(table.totalRows)
      ensures !(listening.Some? && Delivered(listening.value, m).Some?) ==> table.pairs == old(table.pairs)
      ensures table.totalRows == old(table.totalRows) && table.filters == old(table.filters) && table.sort == old(table.sort)
    {
      if listening.Some? {
        var rows := Delivered(listening.value, m);
        if rows.Some? {
          table.WritePairs(rows.value);
        }
      }
    }

    /** Unmounting runs both cleanups. */
    method Unmount()
      requires Valid()
      modifies this, manager
      ensures Valid() && listening == None && release == SocketUpdates.NoOp
      ensures manager.ready == old(manager.ready)
      ensures manager.State() == SocketUpdates.ReleaseStep(old(manager.State()), old(release))
    {
      manager.Run(release);
      release := SocketUpdates.NoOp;
      listening := None;
    }
  }
}
