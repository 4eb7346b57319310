/**
  What the two service drivers (`src/nanoserver/nanoserver.c` and
  `src/nanoread/nanoread.c`) share: the resource actions their `main`
  functions perform, a resource discipline those actions are checked
  against, and the common start (open the socket, require `-L`, bind) and
  end (delete the endpoint, close the socket) of their lifecycles.
 */
module Lifecycle {
  import opened NnioTypes
  import Socket
  import Endpoint
  import Spawn
  import Options

  /** The resource actions of a driver's `main`, in order. */
  datatype Action =
    | OpenSocket(protocol: int, options: seq<Socket.SockOption>)  // nnio_socket_open was called
    | AddEndpoint(address: string, id: nat)                       // nnio_endpoint_add_local returned an id
    | Receive(message: seq<byte>)                                  // nnio_socket_rx handed over a message buffer
    | SpawnChild(command: string, events: seq<Spawn.Event>)        // nnio_spawn ran on the buffer
    | Echo(message: seq<byte>)                                     // nnio_socket_tx was called on the buffer
    | Print(message: seq<byte>)                                    // the buffer was written to stdout
    | FreeBuffer                                                   // nnio_free_data(data)
    | DeleteEndpoint(id: nat)                                      // nnio_endpoint_delete(sock, ep)
    | CloseSocket                                                  // nnio_socket_close(sock)

  /** What a driver's `main` returns (a -1 becomes exit status 255) and the actions it performed. */
  datatype DriverRun = DriverRun(outcome: Outcome<int>, trace: seq<Action>)

  /**
    The resources a driver holds: the socket, the endpoint, the message
    buffer; `ok` becomes false, for good, at the first action the discipline
    forbids.
   */
  datatype Resources = Resources(socket: bool, endpoint: bool, buffer: bool, ok: bool)

  /** Nothing held, nothing wrong. */
  const Fresh := Resources(false, false, false, true)

  /**
    The discipline: a socket is opened once; an endpoint is added to an open
    socket and deleted while the socket is still open; at most one message
    buffer is held, it is used only while held and freed only once; the
    socket is closed only after its endpoint was deleted.
   */
  function Step(r: Resources, a: Action): Resources
  {
    if !r.ok then r
    else match a
      case OpenSocket(_, _) => r.(socket := true, ok := !r.socket)
      case AddEndpoint(_, _) => r.(endpoint := true, ok := r.socket && !r.endpoint)
      case Receive(_) => r.(buffer := true, ok := r.socket && !r.buffer)
      case SpawnChild(_, _) => r.(ok := r.socket && r.buffer)
      case Echo(_) => r.(ok := r.socket && r.buffer)
      case Print(_) => r.(ok := r.buffer)
      case FreeBuffer => r.(buffer := false, ok := r.buffer)
      case DeleteEndpoint(_) => r.(endpoint := false, ok := r.socket && r.endpoint)
      case CloseSocket => r.(socket := false, ok := r.socket && !r.endpoint)
  }

  /** The resources after a sequence of actions. */
  function Replay(r: Resources, t: seq<Action>): Resources
    decreases |t|
  {
    if t == [] then r else Replay(Step(r, t[0]), t[1..])
  }

  /** Replaying two sequences of actions one after the other. */
  lemma {:induction false} ReplayAppend(r: Resources, a: seq<Action>, b: seq<Action>)
    ensures Replay(r, a + b) == Replay(Replay(r, a), b)
    decreases |a|
  {
    if a == [] {
      assert a + b == b;
    } else {
      assert (a + b)[0] == a[0] && (a + b)[1..] == a[1..] + b;
      ReplayAppend(Step(r, a[0]), a[1..], b);
    }
  }

  /** Once the discipline is broken it stays broken. */
  lemma {:induction false} ReplayBroken(r: Resources, t: seq<Action>)
    requires !r.ok
    ensures Replay(r, t) == r
    decreases |t|
  {
    if t != [] {
      ReplayBroken(Step(r, t[0]), t[1..]);
    }
  }

  /** Every resource released and the discipline kept. */
  predicate Clean(r: Resources)
  {
    r.ok && !r.socket && !r.endpoint && !r.buffer
  }

  /**
    A clean lifecycle frees exactly one buffer per message received: frees
    never outnumber receipts, and every receipt is followed by its free.
   */
  lemma {:induction false} CleanBalancesBuffers(r: Resources, t: seq<Action>)
    requires Replay(r, t).ok && !Replay(r, t).buffer
    ensures |FreesIn(t)| == |ReceiptsIn(t)| + (if r.buffer && r.ok then 1 else 0)
    decreases |t|
  {
    if t != [] {
      var s := Step(r, t[0]);
      if !r.ok {
        ReplayBroken(r, t);
      } else if !s.ok {
        ReplayBroken(s, t[1..]);
      } else {
        CleanBalancesBuffers(s, t[1..]);
        assert t == [t[0]] + t[1..];
        FilterAppend(t[0], t[1..]);
      }
    }
  }

  /** The receipts of a trace, in order. */
  function ReceiptsIn(t: seq<Action>): seq<Action>
  {
    if t == [] then [] else (if t[0].Receive? then [t[0]] else []) + ReceiptsIn(t[1..])
  }

  /** The frees of a trace. */
  function FreesIn(t: seq<Action>): seq<Action>
  {
    if t == [] then [] else (if t[0] == FreeBuffer then [t[0]] else []) + FreesIn(t[1..])
  }

  /** Filtering a trace with one more action in front. */
  lemma FilterAppend(a: Action, t: seq<Action>)
    ensures ReceiptsIn([a] + t) == (if a.Receive? then [a] else []) + ReceiptsIn(t)
    ensures FreesIn([a] + t) == (if a == FreeBuffer then [a] else []) + FreesIn(t)
  {
    assert ([a] + t)[0] == a && ([a] + t)[1..] == t;
  }

  /** The path of a driver from the end of its work: delete the endpoint if one was added, then close the socket. */
  function Teardown(rc: int, ep: Option<nat>, shutdown: seq<Status>, close: seq<Status>): (d: DriverRun)
    ensures d.outcome.Return? ==> d.outcome.value == rc
    ensures d.outcome.Fatal? ==> d.outcome.site == ShutdownFailed || d.outcome.site == SocketCloseFailed
  {
    var deleted := if ep.Some? then Retry(shutdown, ShutdownFailed) else Return(());
    var pre := if ep.Some? then [DeleteEndpoint(ep.value)] else [];
    if !deleted.Return? then DriverRun(Abort(deleted), pre)
    else
      var closed := Retry(close, SocketCloseFailed);
      DriverRun(if closed.Return? then Return(rc) else Abort(closed), pre + [CloseSocket])
  }

  /**
    The tear-down leaves the endpoint before the socket: it ends with the
    close, after the delete when there is an endpoint, and is the close
    alone when there is none; it returns the
    driver's `rc` exactly when both calls succeed.
   */
  lemma TeardownOrder(rc: int, ep: Option<nat>, shutdown: seq<Status>, close: seq<Status>, d: DriverRun)
    requires d == Teardown(rc, ep, shutdown, close)
    ensures ep.Some? ==> |d.trace| >= 1 && d.trace[0] == DeleteEndpoint(ep.value)
    ensures ep.None? ==> d.trace == [CloseSocket]
    ensures d.outcome.Return? <==>
      (ep.None? || Retry(shutdown, ShutdownFailed).Return?) && Retry(close, SocketCloseFailed).Return?
    ensures d.outcome.Return? ==> d.outcome.value == rc && d.trace[|d.trace| - 1] == CloseSocket
    ensures d.outcome.Fatal? ==> d.outcome.site == ShutdownFailed || d.outcome.site == SocketCloseFailed
  {
  }

  /** The tear-down keeps the discipline, and when it returns every resource is released. */
  lemma TeardownDiscipline(rc: int, ep: Option<nat>, shutdown: seq<Status>, close: seq<Status>)
    ensures var r := Replay(Resources(true, ep.Some?, false, true), Teardown(rc, ep, shutdown, close).trace);
      r.ok && (Teardown(rc, ep, shutdown, close).outcome.Return? ==> Clean(r))
  {
    var r0 := Resources(true, ep.Some?, false, true);
    var r1 := Resources(true, false, false, true);
    var r2 := Resources(false, false, false, true);
    assert [CloseSocket][1..] == [];
    assert Replay(r1, [CloseSocket]) == r2;
    if ep.Some? {
      var del := DeleteEndpoint(ep.value);
      assert [del][1..] == [] && [del] + [CloseSocket] == [del, CloseSocket];
      assert [del, CloseSocket][1..] == [CloseSocket];
      assert Replay(r0, [del]) == r1;
      assert Replay(r0, [del, CloseSocket]) == r2;
    } else {
      assert [] + [CloseSocket] == [CloseSocket];
    }
  }

  /**
    The tear-down in both drivers: `nnio_endpoint_delete` when an endpoint
    was added, then `nnio_socket_close`.
   */
  method Cleanup(rc: int, ep: Option<nat>, shutdown: seq<Status>, close: seq<Status>)
    returns (r: Outcome<int>, trace: seq<Action>)
    ensures DriverRun(r, trace) == Teardown(rc, ep, shutdown, close)
  {
    trace := [];
    if ep.Some? {
      trace := [DeleteEndpoint(ep.value)];
      var deleted, calls := Endpoint.Delete(shutdown);
      if !deleted.Return? {
        return Abort(deleted), trace;
      }
    }
    trace := trace + [CloseSocket];
    var closed, calls := Socket.Close(close);
    if !closed.Return? {
      return Abort(closed), trace;
    }
    r := Return(rc);
  }

  /** How the common start of a driver ends: it stops the driver, or it reaches the receive with an endpoint id. */
  datatype Start = Stop(run: DriverRun) | Attached(trace: seq<Action>, ep: nat)

  /** The drivers' `nnio_options_t options = { .show_usage = ... }`: every other field zeroed. */
  const Zeroed := Options.Settings(0, 0, 0, 0, None, false, false, 0, None, false, None, false)

  /** The settings of a driver after `nnio_options_parse`, from the zeroed structure. */
  function Parsed(opts: seq<Options.Opt>): Options.Settings
  {
    Options.ParseSettings(opts, Zeroed)
  }

  /**
    How `nnio_options_parse` ends a driver before anything is opened:
    fatally, or by `-h`/`-V` with `exit(EXIT_SUCCESS)`. Its -1 return for an
    unrecognised option is ignored by both drivers.
   */
  function ParseExit(opts: seq<Options.Opt>): Option<DriverRun>
  {
    var p := Options.ParseOutcome(opts, Zeroed);
    if p.Fatal? then Some(DriverRun(Fatal(p.site), []))
    else if p.Return? && !p.value.Rc? then Some(DriverRun(Return(0), []))
    else None
  }

  /** `nnio_options_parse(argc, argv, &options)` on a fresh structure, as both drivers call it. */
  method ParseOptions(opts: seq<Options.Opt>) returns (exit: Option<DriverRun>, s: Options.Settings)
    ensures exit == ParseExit(opts) && s == Parsed(opts)
  {
    var options := new Options.OptionsStruct();
    var p := options.Parse(opts);
    s := options.Snapshot();
    exit := None;
    if p.Fatal? {
      exit := Some(DriverRun(Fatal(p.site), []));
    } else if p.Return? && !p.value.Rc? {
      exit := Some(DriverRun(Return(0), []));
    }
  }

  /**
    The common start of both drivers after option parsing: open the socket
    with `protocol` and the tx timeout `tx`; `-L` is required; bind to the
    address the local endpoint designates (the url field, possibly unset);
    on a refused address close the socket and return -1.
   */
  function Begin(protocol: int, tx: int, s: Options.Settings, env: Socket.OpenEnv, bind: Attempt<nat>,
                 close: seq<Status>): (b: Start)
    ensures b.Attached? ==>
      && s.localEndpoint && s.url.Some?
      && |b.trace| == 2 && b.trace[0].OpenSocket? && b.trace[0].protocol == protocol
      && b.trace[1] == AddEndpoint(s.url.value, b.ep)
    ensures b.Stop? && b.run.trace != [] ==> b.run.trace[0].OpenSocket? && b.run.trace[0].protocol == protocol
    ensures b.Stop? && b.run.outcome.Return? ==> b.run.outcome.value == -1
  {
    var o := Socket.Open(tx, s.rxTimeout, s.socketName, s.lingerTimeout, env);
    if env.create.Err? then Stop(DriverRun(Fatal(SocketCreate), []))
    else
      var begun := [OpenSocket(protocol, o.applied)];
      if !o.rc.Return? then Stop(DriverRun(o.rc, begun))
      else if o.rc.value < 0 then Stop(DriverRun(Return(-1), begun))
      else if !s.localEndpoint then Stop(DriverRun(Fatal(LocalEndpointRequired), begun))
      else
        var a := Endpoint.AddLocal(s.url, bind);
        if !a.rc.Return? then Stop(DriverRun(a.rc, begun))
        else if a.rc.value < 0 then
          var d := Teardown(-1, None, [], close);
          Stop(DriverRun(d.outcome, begun + d.trace))
        else Attached(begun + [AddEndpoint(s.url.value, a.rc.value)], a.rc.value)
  }

  /**
    The start either stops the driver or leaves the socket open with its
    endpoint; without `-L` it is fatal right after the socket is begun; a
    refused address closes the socket without deleting an endpoint.
   */
  lemma BeginCases(protocol: int, tx: int, s: Options.Settings, env: Socket.OpenEnv, bind: Attempt<nat>,
                   close: seq<Status>, b: Start)
    requires b == Begin(protocol, tx, s, env, bind, close)
    ensures b.Attached? ==> Replay(Fresh, b.trace) == Resources(true, true, false, true)
    ensures b.Attached? ==> s.localEndpoint && s.url.Some? && bind.Ok? && b.ep == bind.value
    ensures b.Stop? ==> Replay(Fresh, b.run.trace).ok
    ensures b.Stop? && b.run.outcome.Return? ==> Clean(Replay(Fresh, b.run.trace)) && b.run.outcome.value == -1
    ensures env.create.Ok? && Socket.Open(tx, s.rxTimeout, s.socketName, s.lingerTimeout, env).rc.Return?
            && !s.localEndpoint ==>
      b == Stop(DriverRun(Fatal(LocalEndpointRequired),
                          [OpenSocket(protocol, Socket.Open(tx, s.rxTimeout, s.socketName, s.lingerTimeout, env).applied)]))
    ensures b.Stop? ==> forall q :: 0 <= q < |b.run.trace| ==> !b.run.trace[q].DeleteEndpoint?
  {
    var o := Socket.Open(tx, s.rxTimeout, s.socketName, s.lingerTimeout, env);
    var held := Resources(true, false, false, true);
    var begun := [OpenSocket(protocol, o.applied)];
    assert begun[1..] == [] && Replay(Fresh, begun) == held;
    if env.create.Ok? && o.rc.Return? && o.rc.value >= 0 && s.localEndpoint {
      var a := Endpoint.AddLocal(s.url, bind);
      if a.rc.Return? && a.rc.value < 0 {
        var d := Teardown(-1, None, [], close);
        TeardownDiscipline(-1, None, [], close);
        TeardownOrder(-1, None, [], close, d);
        ReplayAppend(Fresh, begun, d.trace);
      } else if a.rc.Return? {
        var added := [AddEndpoint(s.url.value, a.rc.value)];
        assert added[1..] == [] && Replay(held, added) == Resources(true, true, false, true);
        ReplayAppend(Fresh, begun, added);
      }
    }
  }

  /** The common start, as both drivers run it. */
  method Attach(protocol: int, tx: int, s: Options.Settings, env: Socket.OpenEnv, bind: Attempt<nat>,
               close: seq<Status>) returns (b: Start)
    ensures b == Begin(protocol, tx, s, env, bind, close)
  {
    var o := Socket.Open(tx, s.rxTimeout, s.socketName, s.lingerTimeout, env);
    if env.create.Err? {
      return Stop(DriverRun(Fatal(SocketCreate), []));
    }
    var trace := [OpenSocket(protocol, o.applied)];
    if !o.rc.Return? {
      return Stop(DriverRun(o.rc, trace));
    }
    var sock := o.rc.value;
    if sock < 0 {
      return Stop(DriverRun(Return(-1), trace));
    }
    if !s.localEndpoint {
      return Stop(DriverRun(Fatal(LocalEndpointRequired), trace));
    }
    var a := Endpoint.AddLocal(s.url, bind);
    if !a.rc.Return? {
      return Stop(DriverRun(a.rc, trace));
    }
    var ep := a.rc.value;
    if ep < 0 {
      var r, closing := Cleanup(-1, None, [], close);
      return Stop(DriverRun(r, trace + closing));
    }
    b := Attached(trace + [AddEndpoint(s.url.value, ep)], ep);
  }

  /**
    How `nnio_socket_rx` settles, decided by its first attempt that is not
    interrupted: a message, -1 (`None`) on a timeout or "try again", fatal
    on any other error, or unfinished when every attempt was interrupted.
   */
  function Receipt(attempts: seq<Attempt<seq<byte>>>): (r: Outcome<Option<seq<byte>>>)
    ensures r.Unfinished? <==> SettledAt(attempts) == |attempts|
    ensures r.Return? && r.value.Some? ==>
      SettledAt(attempts) < |attempts| && attempts[SettledAt(attempts)] == Ok(r.value.value)
    ensures SettledAt(attempts) < |attempts| && attempts[SettledAt(attempts)].Ok? ==> r.Return? && r.value.Some?
    ensures r == Return(None) <==>
      SettledAt(attempts) < |attempts| && attempts[SettledAt(attempts)].Err?
      && Socket.IsRecoverable(attempts[SettledAt(attempts)].errno)
    ensures r.Fatal? <==>
      SettledAt(attempts) < |attempts| && attempts[SettledAt(attempts)].Err?
      && !Socket.IsRecoverable(attempts[SettledAt(attempts)].errno)
    ensures r.Fatal? ==> r.site == ReceiveFailed
  {
    var k := SettledAt(attempts);
    if k == |attempts| then Unfinished
    else if attempts[k].Ok? then Return(Some(attempts[k].value))
    else if Socket.IsRecoverable(attempts[k].errno) then Return(None)
    else Fatal(ReceiveFailed)
  }

  /** `nn_recv` reports a message length as an `int`: no message it delivers is longer than INT_MAX. */
  predicate Fits(attempts: seq<Attempt<seq<byte>>>)
  {
    forall k :: 0 <= k < |attempts| && attempts[k].Ok? ==> |attempts[k].value| <= INT_MAX
  }

  /** `nnio_socket_rx` as the drivers use it: the message it hands over, if any. */
  method ReceiveMessage(attempts: seq<Attempt<seq<byte>>>) returns (r: Outcome<Option<seq<byte>>>)
    requires Fits(attempts)
    ensures r == Receipt(attempts)
    ensures r.Return? && r.value.Some? ==> |r.value.value| <= INT_MAX
  {
    var rc, out, calls := Socket.Rx(attempts);
    if !rc.Return? {
      return Abort(rc);
    }
    if rc.value < 0 {
      return Return(None);
    }
    r := Return(Some(out.data.value));
  }
}
