/**
  The `main` of `src/nanoread/nanoread.c`: a PULL reader that receives one
  message, writes it to standard output, and cleans up through the labels
  `err_eof` (free the message), `err_socket_rx` (delete the endpoint) and
  `err_add_endpoint` (close the socket).
 */
module Nanoread {
  import opened NnioTypes
  import Socket
  import Options
  import opened Lifecycle

  /**
    Reference meaning of the receive and what follows it: a failed receive
    goes to `err_socket_rx` with -1; an empty message goes to `err_eof` with
    0; a non-empty message is printed, then freed, with 0.
   */
  function Handle(rx: seq<Attempt<seq<byte>>>): (d: DriverRun)
    requires Fits(rx)
    ensures d.outcome.Return? ==> d.outcome.value == 0 || d.outcome.value == -1
    ensures d.trace != [] ==> d.trace[0].Receive? && d.trace[|d.trace| - 1] == FreeBuffer
  {
    match Receipt(rx)
    case Unfinished => DriverRun(Unfinished, [])
    case Fatal(site) => DriverRun(Fatal(site), [])
    case Return(None) => DriverRun(Return(-1), [])
    case Return(Some(msg)) =>
      if msg == [] then DriverRun(Return(0), [Receive(msg), FreeBuffer])
      else DriverRun(Return(0), [Receive(msg), Print(msg), FreeBuffer])
  }

  /**
    Reference meaning of the reader's `main`: parse, open a PULL socket
    with the tx timeout unset (-1), require `-L`, bind, receive once, then
    delete the endpoint and close the socket; the result is what `main` returns.
   */
  function Reader(opts: seq<Options.Opt>, env: Socket.OpenEnv, bind: Attempt<nat>, rx: seq<Attempt<seq<byte>>>,
                  shutdown: seq<Status>, close: seq<Status>): (d: DriverRun)
    requires Fits(rx)
    ensures ParseExit(opts).Some? ==> d.trace == []
    ensures d.trace != [] ==> d.trace[0].OpenSocket? && d.trace[0].protocol == Options.NN_PULL
  {
    if ParseExit(opts).Some? then ParseExit(opts).value
    else
      var s := Parsed(opts);
      match Begin(Options.NN_PULL, -1, s, env, bind, close)
      case Stop(run) => run
      case Attached(begun, ep) =>
        var h := Handle(rx);
        if !h.outcome.Return? then DriverRun(h.outcome, begun + h.trace)
        else
          var d := Teardown(h.outcome.value, Some(ep), shutdown, close);
          DriverRun(d.outcome, begun + h.trace + d.trace)
  }

  /**
    What the reader does with the message buffer: a failed receive frees
    nothing and gives -1; an empty message is freed once and gives 0; a
    non-empty message is printed once and freed once and gives 0.
   */
  lemma HandleCases(rx: seq<Attempt<seq<byte>>>, h: DriverRun)
    requires Fits(rx) && h == Handle(rx)
    ensures Receipt(rx) == Return(None) ==> h == DriverRun(Return(-1), [])
    ensures Receipt(rx) == Return(Some([])) ==> h == DriverRun(Return(0), [Receive([]), FreeBuffer])
    ensures Receipt(rx).Return? && Receipt(rx).value.Some? && Receipt(rx).value.value != [] ==>
      var msg := Receipt(rx).value.value;
      h == DriverRun(Return(0), [Receive(msg), Print(msg), FreeBuffer])
    ensures h.outcome.Return? ==> h.outcome.value == 0 || h.outcome.value == -1
    ensures h.outcome.Fatal? ==> h.outcome.site == ReceiveFailed
  {
  }

  /** The reader opens a PULL socket and never sets a send timeout. */
  lemma ReaderOpensPull(opts: seq<Options.Opt>, env: Socket.OpenEnv, bind: Attempt<nat>,
                        rx: seq<Attempt<seq<byte>>>, shutdown: seq<Status>, close: seq<Status>)
    requires Fits(rx)
    ensures var t := Reader(opts, env, bind, rx, shutdown, close).trace;
      t != [] ==>
        && t[0].OpenSocket? && t[0].protocol == Options.NN_PULL
        && forall q :: 0 <= q < |t[0].options| ==> !t[0].options[q].SendTimeout?
  {
    if ParseExit(opts).None? && env.create.Ok? {
      var s := Parsed(opts);
      var o := Socket.Open(-1, s.rxTimeout, s.socketName, s.lingerTimeout, env);
      OpenFailureOptions(s, env);
      var b := Begin(Options.NN_PULL, -1, s, env, bind, close);
      assert b.Stop? ==> b.run.trace == [] || b.run.trace[0] == OpenSocket(Options.NN_PULL, o.applied);
      assert b.Attached? ==> b.trace[0] == OpenSocket(Options.NN_PULL, o.applied);
    }
  }

  /** A failing setter leaves the options applied before it, none of which is a send timeout when tx is -1. */
  lemma OpenFailureOptions(s: Options.Settings, env: Socket.OpenEnv)
    ensures var o := Socket.Open(-1, s.rxTimeout, s.socketName, s.lingerTimeout, env);
      forall q :: 0 <= q < |o.applied| ==> !o.applied[q].SendTimeout?
  {
    var s1 := Socket.SetTxTimeout(-1, env.txOpt);
    assert s1.applied == [];
  }

  /**
    The reader keeps the resource discipline on every path (the endpoint is
    deleted before the socket is closed, no buffer is freed twice); when it
    returns it holds nothing and has freed one buffer per message received.
   */
  lemma ReaderDiscipline(opts: seq<Options.Opt>, env: Socket.OpenEnv, bind: Attempt<nat>,
                         rx: seq<Attempt<seq<byte>>>, shutdown: seq<Status>, close: seq<Status>, d: DriverRun)
    requires Fits(rx)
    requires d == Reader(opts, env, bind, rx, shutdown, close)
    ensures Replay(Fresh, d.trace).ok
    ensures d.outcome.Return? ==> Clean(Replay(Fresh, d.trace))
    ensures d.outcome.Return? ==> |FreesIn(d.trace)| == |ReceiptsIn(d.trace)|
  {
    if ParseExit(opts).None? {
      var s := Parsed(opts);
      var b := Begin(Options.NN_PULL, -1, s, env, bind, close);
      BeginCases(Options.NN_PULL, -1, s, env, bind, close, b);
      if b.Attached? {
        var h := Handle(rx);
        HandleDiscipline(rx);
        ReplayAppend(Fresh, b.trace, h.trace);
        if h.outcome.Return? {
          var t := Teardown(h.outcome.value, Some(b.ep), shutdown, close);
          TeardownDiscipline(h.outcome.value, Some(b.ep), shutdown, close);
          ReplayAppend(Fresh, b.trace + h.trace, t.trace);
        }
      }
    }
    if d.outcome.Return? {
      CleanBalancesBuffers(Fresh, d.trace);
    }
  }

  /** The receive keeps the discipline with the socket and endpoint held, and releases the buffer when it returns. */
  lemma HandleDiscipline(rx: seq<Attempt<seq<byte>>>)
    requires Fits(rx)
    ensures var r := Replay(Resources(true, true, false, true), Handle(rx).trace);
      r.ok && r.socket && r.endpoint && !r.buffer
  {
    var r0 := Resources(true, true, false, true);
    var held := Resources(true, true, true, true);
    var got := Receipt(rx);
    if got.Return? && got.value.Some? {
      var msg := got.value.value;
      assert [Receive(msg), FreeBuffer][1..] == [FreeBuffer] && [FreeBuffer][1..] == [];
      assert [Receive(msg), Print(msg), FreeBuffer][1..] == [Print(msg), FreeBuffer];
      assert [Print(msg), FreeBuffer][1..] == [FreeBuffer];
      assert Replay(held, [FreeBuffer]) == r0;
      assert Replay(held, [Print(msg), FreeBuffer]) == r0;
    }
  }

  /**
    Once bound, a reader whose `main` returns gives 0 exactly when a message
    (possibly empty) was received and -1 when the receive failed; in
    both cases it deletes its endpoint and then closes its socket, last.
   */
  lemma ReaderResult(opts: seq<Options.Opt>, env: Socket.OpenEnv, bind: Attempt<nat>,
                     rx: seq<Attempt<seq<byte>>>, shutdown: seq<Status>, close: seq<Status>)
    requires Fits(rx) && ParseExit(opts).None?
    requires Begin(Options.NN_PULL, -1, Parsed(opts), env, bind, close).Attached?
    requires Reader(opts, env, bind, rx, shutdown, close).outcome.Return?
    ensures var d := Reader(opts, env, bind, rx, shutdown, close);
      && Receipt(rx).Return?
      && (d.outcome.value == 0 <==> Receipt(rx).value.Some?)
      && (d.outcome.value == -1 <==> Receipt(rx).value.None?)
      && |d.trace| >= 2
      && d.trace[|d.trace| - 2..] == [DeleteEndpoint(bind.value), CloseSocket]
  {
  }

  /** From `nnio_socket_rx` to `err_eof`: receive, print a non-empty message, free the message. */
  method ReceiveAndPrint(rx: seq<Attempt<seq<byte>>>) returns (h: DriverRun)
    requires Fits(rx)
    ensures h == Handle(rx)
  {
    var got := ReceiveMessage(rx);
    if !got.Return? {
      return DriverRun(Abort(got), []);
    }
    if got.value.None? {
      return DriverRun(Return(-1), []);
    }
    var data := got.value.value;
    var trace := [Receive(data)];
    if |data| != 0 {
      trace := trace + [Print(data)];
    }
    h := DriverRun(Return(0), trace + [FreeBuffer]);
  }

  /** The reader's `main`, over the outcomes of its foreign calls. */
  method Run(opts: seq<Options.Opt>, env: Socket.OpenEnv, bind: Attempt<nat>, rx: seq<Attempt<seq<byte>>>,
             shutdown: seq<Status>, close: seq<Status>) returns (r: Outcome<int>, trace: seq<Action>)
    requires Fits(rx)
    ensures DriverRun(r, trace) == Reader(opts, env, bind, rx, shutdown, close)
  {
    var exit, s := ParseOptions(opts);
    if exit.Some? {
      return exit.value.outcome, exit.value.trace;
    }
    var b := Attach(Options.NN_PULL, -1, s, env, bind, close);
    if b.Stop? {
      return b.run.outcome, b.run.trace;
    }
    var h := ReceiveAndPrint(rx);
    if !h.outcome.Return? {
      return h.outcome, b.trace + h.trace;
    }
    var closing;
    r, closing := Cleanup(h.outcome.value, Some(b.ep), shutdown, close);
    trace := b.trace + h.trace + closing;
  }
}
