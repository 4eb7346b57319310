/**
  The socket wrapper of `src/lib/socket.c`: opening a nanomsg socket and
  applying its options, closing it, and the send/receive calls with their
  interrupt-retry and timeout classification. Every nanomsg call is an
  oracle: the caller supplies the outcomes the library would report.
 */
module Socket {
  import opened NnioTypes

  /** A socket option handed to `nn_setsockopt` at level `NN_SOL_SOCKET`. */
  datatype SockOption =
    | SendTimeout(ms: int)
    | RecvTimeout(ms: int)
    | SocketName(name: string, len: nat)
    | Linger(ms: int)

  /** What a setter returns, and the options it applied, in order. */
  datatype SetterResult = SetterResult(rc: Outcome<int>, applied: seq<SockOption>)

  /** The three timeout options share one guard: a negative value means "leave the default". */
  function SetTimeout(option: SockOption, timeout: int, lib: Status, site: FatalSite): (r: SetterResult)
    ensures timeout < 0 <==> r.rc == Return(-1)
    ensures timeout < 0 ==> r.applied == []
    ensures timeout >= 0 ==> r.applied == [option]
    ensures timeout >= 0 ==> (r.rc == Return(0) <==> lib.Ok?)
    ensures timeout >= 0 && lib.Err? ==> r.rc == Fatal(site)
  {
    if timeout < 0 then SetterResult(Return(-1), [])
    else if lib.Ok? then SetterResult(Return(0), [option])
    else SetterResult(Fatal(site), [option])
  }

  /** `nnio_socket_set_tx_timeout`. */
  function SetTxTimeout(timeout: int, lib: Status): (r: SetterResult)
    ensures timeout < 0 ==> r == SetterResult(Return(-1), [])
    ensures timeout >= 0 ==> r.applied == [SendTimeout(timeout)]
    ensures timeout >= 0 ==> r.rc == (if lib.Ok? then Return(0) else Fatal(SetTxTimeoutFailed))
  {
    SetTimeout(SendTimeout(timeout), timeout, lib, SetTxTimeoutFailed)
  }

  /** `nnio_socket_set_rx_timeout`. */
  function SetRxTimeout(timeout: int, lib: Status): (r: SetterResult)
    ensures timeout < 0 ==> r == SetterResult(Return(-1), [])
    ensures timeout >= 0 ==> r.applied == [RecvTimeout(timeout)]
    ensures timeout >= 0 ==> r.rc == (if lib.Ok? then Return(0) else Fatal(SetRxTimeoutFailed))
  {
    SetTimeout(RecvTimeout(timeout), timeout, lib, SetRxTimeoutFailed)
  }

  /** `nnio_socket_set_linger_timeout`. */
  function SetLingerTimeout(timeout: int, lib: Status): (r: SetterResult)
    ensures timeout < 0 ==> r == SetterResult(Return(-1), [])
    ensures timeout >= 0 ==> r.applied == [Linger(timeout)]
    ensures timeout >= 0 ==> r.rc == (if lib.Ok? then Return(0) else Fatal(SetLingerFailed))
  {
    SetTimeout(Linger(timeout), timeout, lib, SetLingerFailed)
  }

  /** `nnio_socket_set_name`: a NULL name is refused; otherwise the name is set with its length. */
  function SetName(name: Option<string>, lib: Status): (r: SetterResult)
    ensures name.None? ==> r == SetterResult(Return(-1), [])
    ensures name.Some? ==> r.applied == [SocketName(name.value, |name.value|)]
    ensures name.Some? ==> r.rc == (if lib.Ok? then Return(0) else Fatal(SetNameFailed))
  {
    match name
    case None => SetterResult(Return(-1), [])
    case Some(n) =>
      SetterResult(if lib.Ok? then Return(0) else Fatal(SetNameFailed), [SocketName(n, |n|)])
  }

  /** Outcomes of the foreign calls made by `nnio_socket_open`. */
  datatype OpenEnv = OpenEnv(
    create: Attempt<nat>,
    txOpt: Status,
    rxOpt: Status,
    nameOpt: Status,
    lingerOpt: Status)

  /** The options `nnio_socket_open` applies, in its order: tx, rx, name, linger. */
  function RequestedOptions(tx: int, rx: int, name: Option<string>, linger: int): seq<SockOption>
  {
    (if tx >= 0 then [SendTimeout(tx)] else [])
    + (if rx >= 0 then [RecvTimeout(rx)] else [])
    + (if name.Some? then [SocketName(name.value, |name.value|)] else [])
    + (if linger >= 0 then [Linger(linger)] else [])
  }

  /**
    `nnio_socket_open`: a failing `nn_socket` is fatal; otherwise the four
    setters run in order, their -1 results are ignored (a setter failure is
    fatal inside the setter), and the handle is returned.
   */
  function Open(tx: int, rx: int, name: Option<string>, linger: int, env: OpenEnv): (r: SetterResult)
    ensures env.create.Err? ==> r == SetterResult(Fatal(SocketCreate), [])
    ensures r.rc.Return? ==> env.create.Ok? && r.rc.value == env.create.value && r.rc.value >= 0
    ensures r.rc.Return? ==> r.applied == RequestedOptions(tx, rx, name, linger)
    ensures env.create.Ok? ==> (r.rc.Return? <==>
      (tx < 0 || env.txOpt.Ok?) && (rx < 0 || env.rxOpt.Ok?)
      && (name.None? || env.nameOpt.Ok?) && (linger < 0 || env.lingerOpt.Ok?))
    ensures !r.rc.Unfinished?
  {
    if env.create.Err? then SetterResult(Fatal(SocketCreate), [])
    else
      var s1 := SetTxTimeout(tx, env.txOpt);
      if s1.rc.Fatal? then SetterResult(s1.rc, s1.applied)
      else
        var s2 := SetRxTimeout(rx, env.rxOpt);
        if s2.rc.Fatal? then SetterResult(s2.rc, s1.applied + s2.applied)
        else
          var s3 := SetName(name, env.nameOpt);
          if s3.rc.Fatal? then SetterResult(s3.rc, s1.applied + s2.applied + s3.applied)
          else
            var s4 := SetLingerTimeout(linger, env.lingerOpt);
            var applied := s1.applied + s2.applied + s3.applied + s4.applied;
            if s4.rc.Fatal? then SetterResult(s4.rc, applied)
            else SetterResult(Return(env.create.value), applied)
  }

  /**
    `nnio_socket_close`: retries `nn_close` while it is interrupted, returns
    on the first success, and any other failure is fatal.
   */
  method Close(attempts: seq<Status>) returns (r: Outcome<()>, calls: nat)
    ensures SettledAt(attempts) == |attempts| ==> r == Unfinished && calls == |attempts|
    ensures SettledAt(attempts) < |attempts| ==> calls == SettledAt(attempts) + 1
    ensures SettledAt(attempts) < |attempts| ==>
      r == (if attempts[SettledAt(attempts)].Ok? then Return(()) else Fatal(SocketCloseFailed))
  {
    calls := 0;
    while calls < |attempts|
      invariant calls <= |attempts|
      invariant forall j :: 0 <= j < calls ==> attempts[j] == Err(EINTR)
    {
      var a := attempts[calls];
      calls := calls + 1;
      if a.Ok? {
        return Return(()), calls;
      }
      if a.errno != EINTR {
        return Fatal(SocketCloseFailed), calls;
      }
    }
    r := Unfinished;
  }

  /** The classification shared by tx, rx and tx_iov of the first settled error. */
  predicate IsRecoverable(e: Errno)
  {
    e == ETIMEDOUT || e == EAGAIN
  }

  /** The value a send wrapper returns after retrying, as decided by its first attempt that was not interrupted. */
  function Settle(attempts: seq<Attempt<nat>>, site: FatalSite): Outcome<int>
  {
    var k := SettledAt(attempts);
    if k == |attempts| then Unfinished
    else if attempts[k].Ok? then Return(attempts[k].value as int)
    else if IsRecoverable(attempts[k].errno) then Return(-1)
    else Fatal(site)
  }

  /**
    `nnio_socket_tx`: the message is offered to `nn_send` unchanged on every
    attempt; the first attempt that is not interrupted decides: a count is
    returned as is, a timeout or "try again" gives -1, anything else is fatal.
   */
  method Tx(data: seq<byte>, attempts: seq<Attempt<nat>>)
    returns (r: Outcome<int>, requests: seq<seq<byte>>)
    ensures forall j :: 0 <= j < |requests| ==> requests[j] == data
    ensures var k := SettledAt(attempts);
      && (k == |attempts| ==> r == Unfinished && |requests| == |attempts|)
      && (k < |attempts| ==> |requests| == k + 1)
      && (k < |attempts| && attempts[k].Ok? ==> r == Return(attempts[k].value))
      && (k < |attempts| && attempts[k].Err? && IsRecoverable(attempts[k].errno) ==> r == Return(-1))
      && (k < |attempts| && attempts[k].Err? && !IsRecoverable(attempts[k].errno) ==> r == Fatal(SendFailed))
  {
    requests := [];
    var i := 0;
    while i < |attempts|
      invariant i <= |attempts|
      invariant |requests| == i
      invariant forall j :: 0 <= j < i ==> attempts[j] == Err(EINTR) && requests[j] == data
    {
      var a := attempts[i];
      requests := requests + [data];
      i := i + 1;
      if a.Ok? {
        return Return(a.value), requests;
      }
      if a.errno != EINTR {
        r := if a.errno == ETIMEDOUT || a.errno == EAGAIN then Return(-1) else Fatal(SendFailed);
        return;
      }
    }
    r := Unfinished;
  }

  /** What `nnio_socket_rx` leaves in `*data`, `*data_len` and `errno`. */
  datatype Received = Received(data: Option<seq<byte>>, dataLen: Option<nat>, errnoCleared: bool)

  /**
    `nnio_socket_rx`: like `Tx`, but a message (possibly empty) is stored in
    `*data`, its length in `*data_len`, and `errno` is reset to 0; on every
    other outcome the out-parameters are left untouched.
   */
  method Rx(attempts: seq<Attempt<seq<byte>>>) returns (r: Outcome<int>, out: Received, calls: nat)
    ensures var k := SettledAt(attempts);
      && (k == |attempts| ==> r == Unfinished && calls == |attempts|)
      && (k < |attempts| ==> calls == k + 1)
      && (k < |attempts| && attempts[k].Ok? ==>
            r == Return(|attempts[k].value|)
            && out == Received(Some(attempts[k].value), Some(|attempts[k].value|), true))
      && (k < |attempts| && attempts[k].Err? && IsRecoverable(attempts[k].errno) ==> r == Return(-1))
      && (k < |attempts| && attempts[k].Err? && !IsRecoverable(attempts[k].errno) ==> r == Fatal(ReceiveFailed))
    ensures !(r.Return? && r.value >= 0) ==> out == Received(None, None, false)
  {
    out := Received(None, None, false);
    calls := 0;
    while calls < |attempts|
      invariant calls <= |attempts|
      invariant forall j :: 0 <= j < calls ==> attempts[j] == Err(EINTR)
    {
      var a := attempts[calls];
      calls := calls + 1;
      if a.Ok? {
        out := Received(Some(a.value), Some(|a.value|), true);
        return Return(|a.value|), out, calls;
      }
      if a.errno != EINTR {
        r := if a.errno == ETIMEDOUT || a.errno == EAGAIN then Return(-1) else Fatal(ReceiveFailed);
        return;
      }
    }
    r := Unfinished;
  }

  /** The `struct nn_msghdr` built by `nnio_socket_tx_iov`. */
  datatype MsgHdr = MsgHdr(msgIov: seq<seq<byte>>, msgIovLen: nat, msgControl: Option<seq<byte>>, msgControlLen: nat)

  /**
    `nnio_socket_tx_iov`: a zeroed header carrying exactly the fragments and
    their count is sent with `nn_sendmsg` under the same retry policy as `Tx`.
   */
  method TxIov(iov: seq<seq<byte>>, attempts: seq<Attempt<nat>>)
    returns (r: Outcome<int>, hdr: MsgHdr, calls: nat)
    ensures hdr.msgIov == iov && hdr.msgIovLen == |iov|
    ensures hdr.msgControl.None? && hdr.msgControlLen == 0
    ensures var k := SettledAt(attempts);
      && (k == |attempts| ==> r == Unfinished && calls == |attempts|)
      && (k < |attempts| ==> calls == k + 1)
      && (k < |attempts| && attempts[k].Ok? ==> r == Return(attempts[k].value))
      && (k < |attempts| && attempts[k].Err? && IsRecoverable(attempts[k].errno) ==> r == Return(-1))
      && (k < |attempts| && attempts[k].Err? && !IsRecoverable(attempts[k].errno) ==> r == Fatal(SendIovFailed))
  {
    hdr := MsgHdr([], 0, None, 0);
    hdr := hdr.(msgIov := iov, msgIovLen := |iov|);
    calls := 0;
    while calls < |attempts|
      invariant calls <= |attempts|
      invariant forall j :: 0 <= j < calls ==> attempts[j] == Err(EINTR)
    {
      var a := attempts[calls];
      calls := calls + 1;
      if a.Ok? {
        return Return(a.value), hdr, calls;
      }
      if a.errno != EINTR {
        r := if a.errno == ETIMEDOUT || a.errno == EAGAIN then Return(-1) else Fatal(SendIovFailed);
        return;
      }
    }
    r := Unfinished;
  }

  /**
    Interruptions are invisible to the callers of the send wrapper: putting
    any number of interrupted attempts in front changes nothing but the
    number of calls.
   */
  lemma {:induction false} InterruptsInvisible(n: nat, attempts: seq<Attempt<nat>>)
    requires SettledAt(attempts) < |attempts|
    ensures var s := seq(n, _ => Err(EINTR)) + attempts;
      SettledAt(s) < |s| && s[SettledAt(s)] == attempts[SettledAt(attempts)]
  {
    SettledAtSkipsInterrupts(n, attempts);
  }
}
