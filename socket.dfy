/**
 * The connection provider (src/contexts/Socket/Socket.tsx): a guard flag that keeps
 * `connect` from opening a second socket while one is being attempted, the socket
 * published once it opens, and a reconnect scheduled one second after every close
 * whose code is not 3000.
 *
 * The WebSocket itself is abstract: each socket created is an entry of `sockets`
 * holding its `readyState`, and the timer queue is the number of `connect` calls
 * scheduled (1000 ms after a close) and not yet run. A socket's handlers are
 * detached when it closes, so an event for a closed socket reaches no handler.
 */
module Socket {

  datatype Option<+T> = None | Some(value: T)

  /** `SocketCloseReason.Unmount`: the close code that asks for no reconnect. */
  const UnmountCode: int := 3000

  /** The `readyState` of one socket. */
  datatype ReadyState = Connecting | Open | Closed

  /**
   * `attempting` is `isConnectedRef.current`; `published` the socket held in state, by
   * its index in `sockets`; `timers` the reconnects scheduled and not yet run.
   */
  datatype Conn = Conn(attempting: bool, published: Option<nat>, sockets: seq<ReadyState>, timers: nat)

  /** Before the mount effect runs. */
  const Initial: Conn := Conn(false, None, [], 0)

  /** `socket?.readyState === WebSocket.OPEN` */
  predicate IsSocketReady(c: Conn)
  {
    c.published.Some? && c.published.value < |c.sockets| && c.sockets[c.published.value] == Open
  }

  /** A socket whose handlers are still attached. */
  predicate Live(c: Conn, i: nat)
  {
    i < |c.sockets| && c.sockets[i] != Closed
  }

  /** `connect` */
  function ConnectStep(c: Conn): Conn
  {
    if c.attempting then c
    else c.(attempting := true, sockets := c.sockets + [Connecting])
  }

  /** `handleOpen` of socket `i`: the socket opens and is published. */
  function OpenStep(c: Conn, i: nat): Conn
  {
    if i < |c.sockets| && c.sockets[i] == Connecting then
      c.(published := Some(i), sockets := c.sockets[i := Open])
    else c
  }

  /** `handleClose` of socket `i` with `code`. */
  function CloseStep(c: Conn, i: nat, code: int): Conn
  {
    if Live(c, i) then
      c.(published := None, attempting := false, sockets := c.sockets[i := Closed],
         timers := if code != UnmountCode then c.timers + 1 else c.timers)
    else c
  }

  /** `handleError` of socket `i` */
  function ErrorStep(c: Conn, i: nat): Conn
  {
    if Live(c, i) then c.(attempting := false) else c
  }

  /** A scheduled `connect` runs. */
  function TimerStep(c: Conn): Conn
  {
    if c.timers == 0 then c else ConnectStep(c.(timers := c.timers - 1))
  }

  /** What can happen to the provider. */
  datatype Event =
    | ConnectCall
    | OpenEvent(socket: nat)
    | CloseEvent(socket: nat, code: int)
    | ErrorEvent(socket: nat)
    | TimerFires
    | UnmountCleanup

  function Step(c: Conn, e: Event): Conn
  {
    match e
    case ConnectCall => ConnectStep(c)
    case OpenEvent(i) => OpenStep(c, i)
    case CloseEvent(i, code) => CloseStep(c, i, code)
    case ErrorEvent(i) => ErrorStep(c, i)
    case TimerFires => TimerStep(c)
    // The cleanup closes the socket captured by the first render, which is `undefined`.
    case UnmountCleanup => c
  }

  function Run(c: Conn, es: seq<Event>): Conn
    decreases |es|
  {
    if |es| == 0 then c else Run(Step(c, es[0]), es[1..])
  }

  // ---------------------------------------------------------------------------
  // One event at a time

  /** `connect` opens exactly one socket when no attempt is under way and does nothing otherwise. */
  lemma ConnectGuarded(c: Conn)
    ensures var d := ConnectStep(c);
      && d.attempting
      && |d.sockets| == |c.sockets| + (if c.attempting then 0 else 1)
      && d.sockets[..|c.sockets|] == c.sockets
      && (!c.attempting ==> d.sockets[|c.sockets|] == Connecting)
      && d.published == c.published && d.timers == c.timers
  {
  }

  /** After the open event the provider is ready, on that socket. */
  lemma OpenPublishes(c: Conn, i: nat)
    requires i < |c.sockets| && c.sockets[i] == Connecting
    ensures var d := OpenStep(c, i);
      IsSocketReady(d) && d.published == Some(i) && d.attempting == c.attempting && d.timers == c.timers
  {
  }

  /**
   * A close clears the published socket and the guard and detaches the socket's
   * handlers; it schedules one reconnect exactly when the code is not 3000.
   */
  lemma CloseEffect(c: Conn, i: nat, code: int)
    requires Live(c, i)
    ensures var d := CloseStep(c, i, code);
      && d.published.None? && !d.attempting && !IsSocketReady(d) && !Live(d, i)
      && (d.timers == c.timers + 1 <==> code != 3000)
      && (d.timers == c.timers <==> code == 3000)
      && (forall j :: j != i ==> (Live(d, j) <==> Live(c, j)))
  {
  }

  /** An event for a closed socket reaches no handler. */
  lemma DetachedIgnored(c: Conn, i: nat, code: int)
    requires !Live(c, i)
    ensures OpenStep(c, i) == c && CloseStep(c, i, code) == c && ErrorStep(c, i) == c
  {
  }

  /** An error only clears the guard: the published socket stays and nothing is scheduled. */
  lemma ErrorOnlyClearsGuard(c: Conn, i: nat)
    requires Live(c, i)
    ensures var d := ErrorStep(c, i);
      !d.attempting && d.published == c.published && d.sockets == c.sockets && d.timers == c.timers &&
      (IsSocketReady(d) <==> IsSocketReady(c))
  {
  }

  /**
   * The guard alone does not rule out a second socket: a `connect` between an error and
   * the close that follows it would open one while the first still has its handlers
   * attached. Socket.tsx has no caller that could issue that `connect` (see
   * `MountedRunKeepsOneLive`).
   */
  lemma ConnectAfterError(c: Conn, i: nat)
    requires Live(c, i)
    ensures var d := ConnectStep(ErrorStep(c, i));
      |d.sockets| == |c.sockets| + 1 && Live(d, i) && Live(d, |c.sockets|) && i != |c.sockets|
  {
    assert ErrorStep(c, i).sockets == c.sockets;
    assert !ErrorStep(c, i).attempting;
  }

  /** The unmount cleanup changes nothing: the live socket is not closed. */
  lemma UnmountKeepsSocket(c: Conn)
    ensures Step(c, UnmountCleanup) == c
    ensures forall i :: Live(c, i) ==> Live(Step(c, UnmountCleanup), i)
  {
  }

  // ---------------------------------------------------------------------------
  // Runs

  /** Every socket but the newest is closed, the guard is up exactly while the newest is live, and only a live socket is published. */
  predicate OneLive(c: Conn)
  {
    && (forall j :: 0 <= j < |c.sockets| - 1 ==> c.sockets[j] == Closed)
    && (c.attempting <==> |c.sockets| > 0 && c.sockets[|c.sockets| - 1] != Closed)
    && (c.published.Some? ==> Live(c, c.published.value))
  }

  predicate ErrorFree(es: seq<Event>)
  {
    forall k :: 0 <= k < |es| ==> !es[k].ErrorEvent?
  }

  /** Every event but an error keeps `OneLive`. */
  lemma StepKeepsOneLive(c: Conn, e: Event)
    requires OneLive(c) && !e.ErrorEvent?
    ensures OneLive(Step(c, e))
  {
    match e
    case ConnectCall =>
      ConnectKeepsOneLive(c);
    case TimerFires =>
      if c.timers > 0 {
        ConnectKeepsOneLive(c.(timers := c.timers - 1));
      }
    case OpenEvent(i) =>
      if i < |c.sockets| && c.sockets[i] == Connecting {
        var d := OpenStep(c, i);
        assert i == |c.sockets| - 1;
        assert forall j :: 0 <= j < |c.sockets| ==> (d.sockets[j] == Closed <==> c.sockets[j] == Closed);
      }
    case CloseEvent(i, code) =>
      if Live(c, i) {
        var d := CloseStep(c, i, code);
        assert i == |c.sockets| - 1;
        assert forall j :: 0 <= j < |c.sockets| ==> d.sockets[j] == Closed;
      }
    case UnmountCleanup =>
  }

  lemma ConnectKeepsOneLive(c: Conn)
    requires OneLive(c)
    ensures OneLive(ConnectStep(c))
  {
    if !c.attempting {
      var d := ConnectStep(c);
      forall j | 0 <= j < |d.sockets| - 1 ensures d.sockets[j] == Closed {
        assert d.sockets[j] == c.sockets[j];
      }
    }
  }

  lemma InitialOneLive()
    ensures OneLive(Initial)
  {
  }

  /**
   * Without error events the guard works: whatever the order of connects, opens,
   * closes and timers, at most one socket (the newest) has its handlers attached.
   */
  lemma {:induction false} ErrorFreeRunKeepsOneLive(c: Conn, es: seq<Event>)
    requires OneLive(c) && ErrorFree(es)
    ensures OneLive(Run(c, es))
    ensures forall i, j :: Live(Run(c, es), i) && Live(Run(c, es), j) ==> i == j
    decreases |es|
  {
    if |es| > 0 {
      StepKeepsOneLive(c, es[0]);
      assert ErrorFree(es[1..]) by {
        forall k | 0 <= k < |es[1..]| ensures !es[1..][k].ErrorEvent? {
          assert es[1..][k] == es[k + 1];
        }
      }
      ErrorFreeRunKeepsOneLive(Step(c, es[0]), es[1..]);
    }
  }

  /**
   * What the guard alone allows: mount, open, error, then a second bare `connect` leaves two
   * live sockets. That second `connect` would need a caller outside the provider, which
   * Socket.tsx does not have.
   */
  lemma ErrorThenConnectTwoLive()
    ensures var d := Run(Initial, [ConnectCall, OpenEvent(0), ErrorEvent(0), ConnectCall]);
      |d.sockets| == 2 && Live(d, 0) && Live(d, 1) && IsSocketReady(d)
  {
    var c1 := Step(Initial, ConnectCall);
    assert c1.sockets == [Connecting];
    var c2 := Step(c1, OpenEvent(0));
    assert c2.sockets == [Open];
    var c3 := Step(c2, ErrorEvent(0));
    var c4 := Step(c3, ConnectCall);
    assert c4.sockets == [Open, Connecting];
    var es := [ConnectCall, OpenEvent(0), ErrorEvent(0), ConnectCall];
    assert es[1..] == [OpenEvent(0), ErrorEvent(0), ConnectCall];
    assert es[1..][1..] == [ErrorEvent(0), ConnectCall];
    assert es[1..][1..][1..] == [ConnectCall];
    assert Run(c4, []) == c4;
  }

  // ---------------------------------------------------------------------------
  // Runs of the provider as written: `connect` at mount and from timers only

  /** The newest socket still has its handlers attached. */
  predicate NewestLive(c: Conn)
  {
    |c.sockets| > 0 && c.sockets[|c.sockets| - 1] != Closed
  }

  /**
   * Every socket but the newest is closed, the guard is up only while the newest is live,
   * only a live socket is published, and at most one reconnect is scheduled, and only
   * while no socket is live.
   */
  predicate Settled(c: Conn)
  {
    && (forall j :: 0 <= j < |c.sockets| - 1 ==> c.sockets[j] == Closed)
    && (c.attempting ==> NewestLive(c))
    && (c.published.Some? ==> Live(c, c.published.value))
    && c.timers <= 1
    && (c.timers == 1 ==> !NewestLive(c))
  }

  /** No event of the run is a bare `connect`: connects come only from timers. */
  predicate TimerDriven(es: seq<Event>)
  {
    forall k :: 0 <= k < |es| ==> !es[k].ConnectCall?
  }

  /** Every event but a bare `connect`, errors included, keeps `Settled`. */
  lemma SettledStep(c: Conn, e: Event)
    requires Settled(c) && !e.ConnectCall?
    ensures Settled(Step(c, e))
  {
    match e
    case TimerFires =>
      if c.timers > 0 {
        assert forall j :: 0 <= j < |c.sockets| ==> c.sockets[j] == Closed;
        var d := Step(c, e);
        assert d.sockets == c.sockets + [Connecting] && d.timers == 0;
        forall j | 0 <= j < |d.sockets| - 1 ensures d.sockets[j] == Closed {
          assert d.sockets[j] == c.sockets[j];
        }
      }
    case OpenEvent(i) =>
      if i < |c.sockets| && c.sockets[i] == Connecting {
        assert i == |c.sockets| - 1;
        var d := Step(c, e);
        assert forall j :: 0 <= j < |c.sockets| ==> (d.sockets[j] == Closed <==> c.sockets[j] == Closed);
      }
    case CloseEvent(i, code) =>
      if Live(c, i) {
        assert i == |c.sockets| - 1;
        var d := Step(c, e);
        assert forall j :: 0 <= j < |c.sockets| ==> d.sockets[j] == Closed;
      }
    case ErrorEvent(i) =>
    case UnmountCleanup =>
  }

  /** In a settled state only the newest socket can be live. */
  lemma SettledOneLive(c: Conn)
    requires Settled(c)
    ensures forall i, j :: Live(c, i) && Live(c, j) ==> i == j
  {
  }

  lemma {:induction false} SettledRun(c: Conn, es: seq<Event>)
    requires Settled(c) && TimerDriven(es)
    ensures Settled(Run(c, es))
    decreases |es|
  {
    if |es| > 0 {
      SettledStep(c, es[0]);
      assert TimerDriven(es[1..]) by {
        forall k | 0 <= k < |es[1..]| ensures !es[1..][k].ConnectCall? {
          assert es[1..][k] == es[k + 1];
        }
      }
      SettledRun(Step(c, es[0]), es[1..]);
    }
  }

  /**
   * The provider as written never has two live sockets: after the mount's `connect`, any
   * run of opens, closes, errors, timers and the unmount cleanup keeps at most one socket
   * with its handlers attached, and at most one reconnect scheduled.
   */
  lemma MountedRunKeepsOneLive(es: seq<Event>)
    requires TimerDriven(es)
    ensures var d := Run(Initial, [ConnectCall] + es);
      Settled(d) && d.timers <= 1 && forall i, j :: Live(d, i) && Live(d, j) ==> i == j
  {
    var all := [ConnectCall] + es;
    assert all[1..] == es;
    var c := Step(Initial, ConnectCall);
    assert c.sockets == [Connecting];
    SettledRun(c, es);
    SettledOneLive(Run(c, es));
  }

  // ---------------------------------------------------------------------------
  // The provider

  /** The provider's state, changed in place by its event handlers. */
  class Connection {
    var attempting: bool
    var published: Option<nat>
    var sockets: seq<ReadyState>
    var timers: nat

    function State(): Conn
      reads this
    {
      Conn(attempting, published, sockets, timers)
    }

    /** The first render, before the mount effect. */
    constructor ()
      ensures State() == Initial
    {
      attempting := false;
      published := None;
      sockets := [];
      timers := 0;
    }

    /** `isSocketReady` as the provider publishes it. */
    function Ready(): (r: bool)
      reads this
      ensures r <==> IsSocketReady(State())
    {
      published.Some? && published.value < |sockets| && sockets[published.value] == Open
    }

    method Connect()
      modifies this
      ensures State() == ConnectStep(old(State()))
    {
      if attempting {
        return;
      }
      attempting := true;
      sockets := sockets + [Connecting];
    }

    method HandleOpen(i: nat)
      modifies this
      ensures State() == OpenStep(old(State()), i)
    {
      if i < |sockets| && sockets[i] == Connecting {
        published := Some(i);
        sockets := sockets[i := Open];
      }
    }

    method HandleClose(i: nat, code: int)
      modifies this
      ensures State() == CloseStep(old(State()), i, code)
    {
      if i < |sockets| && sockets[i] != Closed {
        published := None;
        attempting := false;
        sockets := sockets[i := Closed];
        if code != UnmountCode {
          timers := timers + 1;
        }
      }
    }

    method HandleError(i: nat)
      modifies this
      ensures State() == ErrorStep(old(State()), i)
    {
      if i < |sockets| && sockets[i] != Closed {
        attempting := false;
      }
    }

    /** One scheduled `connect` runs. */
    method FireTimer()
      modifies this
      ensures State() == TimerStep(old(State()))
    {
      if timers > 0 {
        timers := timers - 1;
        Connect();
      }
    }

    /** The unmount cleanup: `socket` as captured by the first render is `undefined`. */
    method Unmount()
      ensures State() == Step(old(State()), UnmountCleanup)
    {
    }
  }
}
