/**
  The `main` of `src/nanoserver/nanoserver.c`: a REP service that receives
  a message, hands it to a command (`--exec`) or echoes it back, and goes
  back to receiving after a command ran; it cleans up through the labels
  `err_eof` (free the message), `err_socket_rx` (delete the endpoint) and
  `err_add_endpoint` (close the socket).
 */
module Nanoserver {
  import opened NnioTypes
  import Socket
  import Spawn
  import Options
  import opened Lifecycle

  /** The outcomes the parent of `nnio_spawn` sees for one message. */
  datatype SpawnEnv = SpawnEnv(
    failure: Option<SetupStep>,
    writes: seq<Attempt<nat>>,
    steps: seq<Spawn.ReadStep>,
    sends: seq<Attempt<nat>>)

  /** The outcomes of the foreign calls of one pass through `run_again`. */
  datatype Round = Round(rx: seq<Attempt<seq<byte>>>, spawn: SpawnEnv, tx: seq<Attempt<nat>>)

  /** Every receive of every pass delivers messages `nn_recv` can report. */
  predicate AllFit(rounds: seq<Round>)
  {
    forall j :: 0 <= j < |rounds| ==> Fits(rounds[j].rx)
  }

  /** How one pass through `run_again` ends: back to `run_again`, or on to the clean-up with a result. */
  datatype Pass = Again(trace: seq<Action>) | Done(outcome: Outcome<int>, trace: seq<Action>)

  /**
    Reference meaning of one pass: a failed receive goes to `err_socket_rx`
    with -1; an empty message goes to `err_eof` with 0; with `--exec` the
    message is given to `nnio_spawn` and, when it returns 0, freed before
    the next pass; otherwise it is echoed, a failed echo giving -1, and freed.
   */
  function OnePass(exec: Option<string>, round: Round): (p: Pass)
    requires Fits(round.rx)
    ensures p.Again? ==> exec.Some?
    ensures exec.None? && p.Done? && p.outcome.Return? ==> p.outcome.value == 0 || p.outcome.value == -1
  {
    match Receipt(round.rx)
    case Unfinished => Done(Unfinished, [])
    case Fatal(site) => Done(Fatal(site), [])
    case Return(None) => Done(Return(-1), [])
    case Return(Some(msg)) =>
      if msg == [] then Done(Return(0), [Receive(msg), FreeBuffer])
      else if exec.Some? then
        var e := round.spawn;
        var sp := Spawn.Parent(e.failure, msg, |msg|, e.writes, e.steps, e.sends);
        var head := [Receive(msg), SpawnChild(exec.value, sp.trace)];
        if sp.outcome == Return(0) then Again(head + [FreeBuffer])
        else if sp.outcome.Return? then Done(sp.outcome, head + [FreeBuffer])
        else Done(Abort(sp.outcome), head)
      else
        var tx := Socket.Settle(round.tx, SendFailed);
        var head := [Receive(msg), Echo(msg)];
        if !tx.Return? then Done(Abort(tx), head)
        else Done(Return(if tx.value < 0 then -1 else 0), head + [FreeBuffer])
  }

  /** The passes through `run_again` that were run, what they did, and how the loop ended. */
  datatype LoopRun = LoopRun(outcome: Outcome<int>, trace: seq<Action>, passes: nat)

  /** Reference meaning of the `run_again` loop over the outcomes of successive passes. */
  function Serve(exec: Option<string>, rounds: seq<Round>): (l: LoopRun)
    requires AllFit(rounds)
    ensures l.passes <= |rounds|
    decreases |rounds|
  {
    if rounds == [] then LoopRun(Unfinished, [], 0)
    else match OnePass(exec, rounds[0])
      case Done(o, t) => LoopRun(o, t, 1)
      case Again(t) =>
        var rest := Serve(exec, rounds[1..]);
        LoopRun(rest.outcome, t + rest.trace, rest.passes + 1)
  }

  /**
    Reference meaning of the server's `main`: parse, open a REP socket,
    require `-L`, bind, run the loop, then delete the endpoint and close the
    socket; the result is what `main` returns.
   */
  function Server(opts: seq<Options.Opt>, env: Socket.OpenEnv, bind: Attempt<nat>, rounds: seq<Round>,
                  shutdown: seq<Status>, close: seq<Status>): (d: DriverRun)
    requires AllFit(rounds)
    ensures ParseExit(opts).Some? ==> d.trace == []
    ensures d.trace != [] ==> d.trace[0].OpenSocket? && d.trace[0].protocol == Options.NN_REP
  {
    if ParseExit(opts).Some? then ParseExit(opts).value
    else
      var s := Parsed(opts);
      match Begin(Options.NN_REP, s.txTimeout, s, env, bind, close)
      case Stop(run) => run
      case Attached(begun, ep) =>
        var l := Serve(s.exec, rounds);
        if !l.outcome.Return? then DriverRun(l.outcome, begun + l.trace)
        else
          var d := Teardown(l.outcome.value, Some(ep), shutdown, close);
          DriverRun(d.outcome, begun + l.trace + d.trace)
  }

  // ---------------------------------------------------------------------
  // Properties of one pass

  /**
    What one pass does with the message buffer: a failed receive frees
    nothing and gives -1; an empty message is freed once and gives 0; a pass
    loops back only with `--exec`, only after a non-empty message whose
    command returned, and only after freeing it; and since `nnio_spawn`
    returns only 0, with `--exec` the loop ends on a result only after a
    failed receive or an empty message. Without `--exec` a non-empty
    message is echoed: the pass gives 0 when the echo is sent and -1 when
    the send times out, and frees the message either way; a fatal send
    leaves it unfreed.
   */
  lemma PassCases(exec: Option<string>, round: Round, p: Pass)
    requires Fits(round.rx) && p == OnePass(exec, round)
    ensures Receipt(round.rx) == Return(None) ==> p == Done(Return(-1), [])
    ensures Receipt(round.rx) == Return(Some([])) ==> p == Done(Return(0), [Receive([]), FreeBuffer])
    ensures p.Again? ==>
      && exec.Some?
      && Receipt(round.rx).Return? && Receipt(round.rx).value.Some? && Receipt(round.rx).value.value != []
      && p.trace[|p.trace| - 1] == FreeBuffer
    ensures exec.Some? && p.Done? && p.outcome.Return? ==>
      Receipt(round.rx) == Return(None) || Receipt(round.rx) == Return(Some([]))
    ensures exec.None? && p.Done? && p.outcome.Return? && p.trace != [] ==>
      p.trace == [Receive(p.trace[0].message), Echo(p.trace[0].message), FreeBuffer]
      || p.trace == [Receive([]), FreeBuffer]
    ensures exec.None? && Receipt(round.rx).Return? && Receipt(round.rx).value.Some? && Receipt(round.rx).value.value != [] ==>
      var m := Receipt(round.rx).value.value;
      var tx := Socket.Settle(round.tx, SendFailed);
      && (tx == Return(-1) ==> p == Done(Return(-1), [Receive(m), Echo(m), FreeBuffer]))
      && (tx.Return? && tx.value >= 0 ==> p == Done(Return(0), [Receive(m), Echo(m), FreeBuffer]))
      && (tx.Fatal? ==> p == Done(Fatal(SendFailed), [Receive(m), Echo(m)]))
      && (tx.Unfinished? ==> p == Done(Unfinished, [Receive(m), Echo(m)]))
  {
  }

  /** The resources through the shapes a pass can take, with the socket and endpoint held. */
  lemma ReplayPass(msg: seq<byte>, use: Action)
    requires use.SpawnChild? || use.Echo?
    ensures Replay(Resources(true, true, false, true), [Receive(msg), FreeBuffer]) == Resources(true, true, false, true)
    ensures Replay(Resources(true, true, false, true), [Receive(msg), use]) == Resources(true, true, true, true)
    ensures Replay(Resources(true, true, false, true), [Receive(msg), use, FreeBuffer])
            == Resources(true, true, false, true)
  {
    var held := Resources(true, true, true, true);
    assert [Receive(msg), FreeBuffer][1..] == [FreeBuffer] && [FreeBuffer][1..] == [];
    assert [Receive(msg), use][1..] == [use] && [use][1..] == [];
    assert [Receive(msg), use, FreeBuffer][1..] == [use, FreeBuffer] && [use, FreeBuffer][1..] == [FreeBuffer];
    assert Replay(held, [FreeBuffer]) == Resources(true, true, false, true);
    assert Replay(held, [use]) == held;
    assert Replay(held, [use, FreeBuffer]) == Replay(held, [FreeBuffer]);
  }

  /**
    Each pass keeps the resource discipline with the socket and endpoint
    held: a pass that loops back or returns leaves no buffer held.
   */
  lemma PassDiscipline(exec: Option<string>, round: Round)
    requires Fits(round.rx)
    ensures var r := Replay(Resources(true, true, false, true), OnePass(exec, round).trace);
      r.ok && r.socket && r.endpoint
    ensures OnePass(exec, round).Again? || OnePass(exec, round).outcome.Return? ==>
      Replay(Resources(true, true, false, true), OnePass(exec, round).trace) == Resources(true, true, false, true)
  {
    var got := Receipt(round.rx);
    if got.Return? && got.value.Some? {
      var msg := got.value.value;
      if exec.Some? {
        var e := round.spawn;
        var sp := Spawn.Parent(e.failure, msg, |msg|, e.writes, e.steps, e.sends);
        ReplayPass(msg, SpawnChild(exec.value, sp.trace));
      } else {
        ReplayPass(msg, Echo(msg));
      }
    }
  }

  /** The loop keeps the discipline, and when it ends on a result no buffer is held. */
  lemma {:induction false} ServeDiscipline(exec: Option<string>, rounds: seq<Round>)
    requires AllFit(rounds)
    ensures var r := Replay(Resources(true, true, false, true), Serve(exec, rounds).trace);
      r.ok && r.socket && r.endpoint
    ensures Serve(exec, rounds).outcome.Return? ==>
      Replay(Resources(true, true, false, true), Serve(exec, rounds).trace) == Resources(true, true, false, true)
    decreases |rounds|
  {
    if rounds != [] {
      PassDiscipline(exec, rounds[0]);
      var p := OnePass(exec, rounds[0]);
      if p.Again? {
        ServeDiscipline(exec, rounds[1..]);
        ReplayAppend(Resources(true, true, false, true), p.trace, Serve(exec, rounds[1..]).trace);
      }
    }
  }

  /** Without `--exec` exactly one pass is made: one message at most is echoed, then the server exits. */
  lemma EchoOnce(rounds: seq<Round>)
    requires AllFit(rounds)
    ensures Serve(None, rounds).passes <= 1
    ensures |ReceiptsIn(Serve(None, rounds).trace)| <= 1
  {
    if rounds != [] {
      var p := OnePass(None, rounds[0]);
      if p.trace != [] {
        assert p.trace == [p.trace[0]] + p.trace[1..];
        FilterAppend(p.trace[0], p.trace[1..]);
        var tail := p.trace[1..];
        assert tail == [] || tail == [FreeBuffer] || tail == [Echo(p.trace[0].message)]
          || tail == [Echo(p.trace[0].message), FreeBuffer];
        assert tail == [] || tail == [tail[0]] + tail[1..];
        if tail != [] {
          FilterAppend(tail[0], tail[1..]);
          if |tail| == 2 {
            assert tail[1..] == [FreeBuffer] + [];
            FilterAppend(FreeBuffer, []);
          }
        }
      }
    }
  }

  /**
    With `--exec` the loop ends on a result only at a pass whose receive
    failed (-1) or whose message was empty (0); every pass before it
    received a non-empty message whose command returned.
   */
  lemma {:induction false} ExecLoopsUntilEmptyOrFailure(command: string, rounds: seq<Round>)
    requires AllFit(rounds)
    requires Serve(Some(command), rounds).outcome.Return?
    ensures var n := Serve(Some(command), rounds).passes;
      && 0 < n
      && (forall j :: 0 <= j < n - 1 ==> OnePass(Some(command), rounds[j]).Again?)
      && (Receipt(rounds[n - 1].rx) == Return(None) || Receipt(rounds[n - 1].rx) == Return(Some([])))
      && (Receipt(rounds[n - 1].rx) == Return(None) <==> Serve(Some(command), rounds).outcome == Return(-1))
    decreases |rounds|
  {
    var p := OnePass(Some(command), rounds[0]);
    PassCases(Some(command), rounds[0], p);
    if p.Again? {
      ExecLoopsUntilEmptyOrFailure(command, rounds[1..]);
      var n := Serve(Some(command), rounds).passes;
      forall j | 0 <= j < n - 1 ensures OnePass(Some(command), rounds[j]).Again? {
        if j > 0 {
          assert rounds[j] == rounds[1..][j - 1];
        }
      }
      assert rounds[n - 1] == rounds[1..][n - 2];
    }
  }

  // ---------------------------------------------------------------------
  // Properties of the whole lifecycle

  /**
    The server keeps the resource discipline on every path (in particular
    the endpoint is deleted before the socket is closed, and no buffer is
    freed twice); when it returns, it holds nothing and has freed exactly
    one buffer per message received.
   */
  lemma ServerDiscipline(opts: seq<Options.Opt>, env: Socket.OpenEnv, bind: Attempt<nat>, rounds: seq<Round>,
                         shutdown: seq<Status>, close: seq<Status>, d: DriverRun)
    requires AllFit(rounds)
    requires d == Server(opts, env, bind, rounds, shutdown, close)
    ensures Replay(Fresh, d.trace).ok
    ensures d.outcome.Return? ==> Clean(Replay(Fresh, d.trace))
    ensures d.outcome.Return? ==> |FreesIn(d.trace)| == |ReceiptsIn(d.trace)|
  {
    if ParseExit(opts).None? {
      var s := Parsed(opts);
      var b := Begin(Options.NN_REP, s.txTimeout, s, env, bind, close);
      BeginCases(Options.NN_REP, s.txTimeout, s, env, bind, close, b);
      if b.Attached? {
        var l := Serve(s.exec, rounds);
        ServeDiscipline(s.exec, rounds);
        ReplayAppend(Fresh, b.trace, l.trace);
        if l.outcome.Return? {
          var t := Teardown(l.outcome.value, Some(b.ep), shutdown, close);
          TeardownDiscipline(l.outcome.value, Some(b.ep), shutdown, close);
          ReplayAppend(Fresh, b.trace + l.trace, t.trace);
        }
      }
    }
    if d.outcome.Return? {
      CleanBalancesBuffers(Fresh, d.trace);
    }
  }

  /**
    Without `-L` the server fails fatally right after opening its socket;
    with an unset address (the url missing after an unrecognised option) it
    closes the socket without deleting an endpoint and returns -1.
   */
  lemma ServerEndpointRequired(opts: seq<Options.Opt>, env: Socket.OpenEnv, bind: Attempt<nat>,
                               rounds: seq<Round>, shutdown: seq<Status>, close: seq<Status>)
    requires AllFit(rounds) && ParseExit(opts).None?
    requires env.create.Ok?
    requires Socket.Open(Parsed(opts).txTimeout, Parsed(opts).rxTimeout, Parsed(opts).socketName,
                         Parsed(opts).lingerTimeout, env).rc.Return?
    ensures !Parsed(opts).localEndpoint ==>
      Server(opts, env, bind, rounds, shutdown, close).outcome == Fatal(LocalEndpointRequired)
    ensures Parsed(opts).localEndpoint && Parsed(opts).url.None? ==>
      && |Server(opts, env, bind, rounds, shutdown, close).trace| == 2
      && Server(opts, env, bind, rounds, shutdown, close).trace[1] == CloseSocket
      && (Server(opts, env, bind, rounds, shutdown, close).outcome.Return? ==>
            Server(opts, env, bind, rounds, shutdown, close).outcome.value == -1)
  {
  }

  /** When the loop ends on a result, the server deletes its endpoint and then closes its socket, last. */
  lemma ServerEndsWithTeardown(opts: seq<Options.Opt>, env: Socket.OpenEnv, bind: Attempt<nat>, rounds: seq<Round>,
                               shutdown: seq<Status>, close: seq<Status>)
    requires AllFit(rounds) && ParseExit(opts).None?
    requires Begin(Options.NN_REP, Parsed(opts).txTimeout, Parsed(opts), env, bind, close).Attached?
    requires Serve(Parsed(opts).exec, rounds).outcome.Return?
    requires Server(opts, env, bind, rounds, shutdown, close).outcome.Return?
    ensures var t := Server(opts, env, bind, rounds, shutdown, close).trace;
      && |t| >= 2
      && t[|t| - 2..] == [DeleteEndpoint(bind.value), CloseSocket]
      && Server(opts, env, bind, rounds, shutdown, close).outcome == Serve(Parsed(opts).exec, rounds).outcome
  {
    var s := Parsed(opts);
    var b := Begin(Options.NN_REP, s.txTimeout, s, env, bind, close);
    BeginCases(Options.NN_REP, s.txTimeout, s, env, bind, close, b);
  }

  // ---------------------------------------------------------------------
  // The imperative driver

  /** One pass through `run_again`, as `main` runs it. */
  method RunPass(exec: Option<string>, round: Round) returns (p: Pass)
    requires Fits(round.rx)
    ensures p == OnePass(exec, round)
  {
    var got := ReceiveMessage(round.rx);
    if !got.Return? {
      return Done(Abort(got), []);
    }
    if got.value.None? {
      return Done(Return(-1), []);
    }
    var data := got.value.value;
    var trace := [Receive(data)];
    var rc := 0;
    if |data| == 0 {
      return Done(Return(rc), trace + [FreeBuffer]);
    }
    if exec.Some? {
      var e := round.spawn;
      var sr, events := Spawn.SpawnParent(e.failure, data, |data|, e.writes, e.steps, e.sends);
      trace := trace + [SpawnChild(exec.value, events)];
      if !sr.Return? {
        return Done(Abort(sr), trace);
      }
      rc := sr.value;
      if rc == 0 {
        return Again(trace + [FreeBuffer]);
      }
      return Done(Return(rc), trace + [FreeBuffer]);
    }
    var len, requests := Socket.Tx(data, round.tx);
    trace := trace + [Echo(data)];
    if !len.Return? {
      return Done(Abort(len), trace);
    }
    if len.value < 0 {
      rc := -1;
    }
    p := Done(Return(rc), trace + [FreeBuffer]);
  }

  /** Invariant of the `run_again` loop after `i` passes that looped back with the actions `done`. */
  ghost predicate Looping(exec: Option<string>, rounds: seq<Round>, i: nat, done: seq<Action>)
    requires AllFit(rounds)
  {
    && i <= |rounds|
    && Serve(exec, rounds) == LoopRun(Serve(exec, rounds[i..]).outcome, done + Serve(exec, rounds[i..]).trace,
                                      i + Serve(exec, rounds[i..]).passes)
  }

  /** A pass that loops back keeps the loop invariant with its actions appended. */
  lemma LoopAgain(exec: Option<string>, rounds: seq<Round>, i: nat, done: seq<Action>)
    requires AllFit(rounds) && Looping(exec, rounds, i, done)
    requires i < |rounds| && OnePass(exec, rounds[i]).Again?
    ensures Looping(exec, rounds, i + 1, done + OnePass(exec, rounds[i]).trace)
  {
    assert rounds[i..][0] == rounds[i] && rounds[i..][1..] == rounds[i + 1..];
    var rest := Serve(exec, rounds[i + 1..]);
    assert done + (OnePass(exec, rounds[i]).trace + rest.trace) == (done + OnePass(exec, rounds[i]).trace) + rest.trace;
  }

  /** A pass that ends the loop, or running out of passes, decides the loop's result. */
  lemma LoopDone(exec: Option<string>, rounds: seq<Round>, i: nat, done: seq<Action>)
    requires AllFit(rounds) && Looping(exec, rounds, i, done)
    requires i < |rounds| ==> OnePass(exec, rounds[i]).Done?
    ensures i == |rounds| ==> Serve(exec, rounds).outcome == Unfinished && Serve(exec, rounds).trace == done
    ensures i < |rounds| ==>
      && Serve(exec, rounds).outcome == OnePass(exec, rounds[i]).outcome
      && Serve(exec, rounds).trace == done + OnePass(exec, rounds[i]).trace
  {
    if i < |rounds| {
      assert rounds[i..][0] == rounds[i];
    }
    assert done + [] == done;
  }

  /** The `run_again` loop. */
  method RunLoop(exec: Option<string>, rounds: seq<Round>) returns (r: Outcome<int>, trace: seq<Action>)
    requires AllFit(rounds)
    ensures r == Serve(exec, rounds).outcome && trace == Serve(exec, rounds).trace
  {
    trace := [];
    var i := 0;
    while true
      invariant Looping(exec, rounds, i, trace)
      decreases |rounds| - i
    {
      if i == |rounds| {
        LoopDone(exec, rounds, i, trace);
        return Unfinished, trace;
      }
      var p := RunPass(exec, rounds[i]);
      if p.Done? {
        LoopDone(exec, rounds, i, trace);
        return p.outcome, trace + p.trace;
      }
      LoopAgain(exec, rounds, i, trace);
      trace := trace + p.trace;
      i := i + 1;
    }
  }

  /** The server's `main`, over the outcomes of its foreign calls. */
  method Run(opts: seq<Options.Opt>, env: Socket.OpenEnv, bind: Attempt<nat>, rounds: seq<Round>,
             shutdown: seq<Status>, close: seq<Status>) returns (r: Outcome<int>, trace: seq<Action>)
    requires AllFit(rounds)
    ensures DriverRun(r, trace) == Server(opts, env, bind, rounds, shutdown, close)
  {
    var exit, s := ParseOptions(opts);
    if exit.Some? {
      return exit.value.outcome, exit.value.trace;
    }
    var b := Attach(Options.NN_REP, s.txTimeout, s, env, bind, close);
    if b.Stop? {
      return b.run.outcome, b.run.trace;
    }
    var rc, served := RunLoop(s.exec, rounds);
    trace := b.trace + served;
    if !rc.Return? {
      return rc, trace;
    }
    var closing;
    r, closing := Cleanup(rc.value, Some(b.ep), shutdown, close);
    trace := trace + closing;
  }
}
