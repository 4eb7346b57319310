/**
  Shared vocabulary of the model: error numbers reported by the C library and
  by nanomsg, the outcome of a foreign call as supplied by an oracle, and the
  outcome of a modelled operation, which either returns a value, ends the
  process through `nnio_error_assert` (logging, then `exit(EXIT_FAILURE)`),
  or runs past the end of the outcomes supplied for its foreign calls.
 */
module NnioTypes {

  /** Bytes of a message or of a pipe. */
  newtype byte = x: int | 0 <= x < 256

  /** Error numbers the code distinguishes; every other code is `OtherErrno`. */
  datatype Errno =
    | EINTR
    | ETIMEDOUT
    | EAGAIN
    | EPIPE
    | ECONNREFUSED
    | OtherErrno(code: int)

  /** A value that may be absent, as a NULL `char *` is. */
  datatype Option<+T> = None | Some(value: T)

  /** One foreign call as seen by its caller: a non-negative result, or -1 with `errno`. */
  datatype Attempt<+T> = Ok(value: T) | Err(errno: Errno)

  /** Calls whose success carries no value (`nn_close`, `nn_shutdown`, `nn_setsockopt`). */
  type Status = Attempt<()>

  /** The `nnio_error_assert` call sites that can end the process. */
  datatype FatalSite =
    | SocketCreate
    | SetTxTimeoutFailed
    | SetRxTimeoutFailed
    | SetLingerFailed
    | SetNameFailed
    | SocketCloseFailed
    | SendFailed
    | ReceiveFailed
    | SendIovFailed
    | BindFailed
    | ConnectFailed
    | ShutdownFailed
    | InvalidProtocol
    | EndpointFlagRequired
    | UrlRequired
    | LocalEndpointRequired
    | SpawnSetupFailed(step: SetupStep)
    | PayloadWriteFailed
    | OutputBufferAllocFailed
    | OutputReadFailed
    | IovAllocFailed

  /** The checked set-up steps of `nnio_spawn` before the fork, in program order. */
  datatype SetupStep =
    | IgnoreSigpipe
    | CreateInputPipe
    | CreateOutputPipe
    | OpenShm
    | UnlinkShm
    | TruncateShm
    | MapShm
    | InitSemaphore
    | Fork

  /**
    The outcome of a modelled operation. `Unfinished` means the supplied
    outcomes of the foreign calls ran out before the operation finished
    (for instance a retry loop that saw only interruptions).
   */
  datatype Outcome<+T> = Return(value: T) | Fatal(site: FatalSite) | Unfinished

  /** `PIPE_BUF` of `linux/limits.h`: the read size of the output pipe. */
  const PIPE_BUF: nat := 4096

  /** Largest value of a C `int`. */
  const INT_MAX: int := 0x7fff_ffff

  /** Largest value plus one of a C `unsigned int`. */
  const UINT_RANGE: int := 0x1_0000_0000

  /**
    Index of the first attempt that was not interrupted, or `|attempts|` if
    every supplied attempt was interrupted: where a do/while loop retrying on
    EINTR stops.
   */
  function SettledAt<T>(attempts: seq<Attempt<T>>): (k: nat)
    ensures k <= |attempts|
    ensures forall j :: 0 <= j < k ==> attempts[j] == Err(EINTR)
    ensures k < |attempts| ==> attempts[k] != Err(EINTR)
  {
    if attempts == [] then 0
    else if attempts[0] == Err(EINTR) then 1 + SettledAt(attempts[1..])
    else 0
  }

  /** Interruptions put in front of a retried call do not change where it settles. */
  lemma {:induction false} SettledAtSkipsInterrupts<T>(n: nat, attempts: seq<Attempt<T>>)
    ensures SettledAt(seq(n, _ => Err(EINTR)) + attempts) == n + SettledAt(attempts)
  {
    var s: seq<Attempt<T>> := seq(n, _ => Err(EINTR)) + attempts;
    if n > 0 {
      var rest: seq<Attempt<T>> := seq(n - 1, _ => Err(EINTR)) + attempts;
      assert s[0] == Err(EINTR);
      assert s[1..] == rest;
      SettledAtSkipsInterrupts(n - 1, attempts);
    } else {
      assert s == attempts;
    }
  }

  /** The outcome of a stage that did not return, carried over to a caller's result type. */
  function Abort<T, U>(o: Outcome<T>): (a: Outcome<U>)
    requires !o.Return?
    ensures o.Fatal? ==> a == Fatal(o.site)
    ensures o.Unfinished? ==> a == Unfinished
  {
    if o.Fatal? then Fatal(o.site) else Unfinished
  }

  /**
    How a call retried while interrupted ends, as `nnio_socket_close` and
    `nnio_endpoint_delete` retry theirs: the first attempt that is not
    interrupted succeeds or is fatal at `site`.
   */
  function Retry(attempts: seq<Status>, site: FatalSite): (r: Outcome<()>)
    ensures r.Unfinished? <==> SettledAt(attempts) == |attempts|
    ensures SettledAt(attempts) < |attempts| ==> (r.Return? <==> attempts[SettledAt(attempts)].Ok?)
    ensures SettledAt(attempts) < |attempts| ==> (r.Fatal? <==> attempts[SettledAt(attempts)].Err?)
    ensures r.Fatal? ==> r.site == site
  {
    var k := SettledAt(attempts);
    if k == |attempts| then Unfinished
    else if attempts[k].Ok? then Return(())
    else Fatal(site)
  }
}
