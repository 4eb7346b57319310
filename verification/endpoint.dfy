/**
  The endpoint manager of `src/lib/endpoint.c`: binding a socket to a local
  address, connecting it to a remote one, and shutting an endpoint down.
  `nn_bind`, `nn_connect` and `nn_shutdown` are oracles.
 */
module Endpoint {
  import opened NnioTypes

  /** What an attach call returns and whether it reset `errno` to 0. */
  datatype AttachResult = AttachResult(rc: Outcome<int>, called: bool, errnoCleared: bool)

  /**
    `nnio_endpoint_add_local`: a NULL address is refused before `nn_bind`
    is called; a bind id is returned with `errno` cleared; any bind failure
    is fatal.
   */
  function AddLocal(address: Option<string>, bind: Attempt<nat>): (r: AttachResult)
    ensures address.None? <==> r == AttachResult(Return(-1), false, false)
    ensures address.Some? ==> r.called
    ensures address.Some? && bind.Ok? ==> r == AttachResult(Return(bind.value), true, true)
    ensures address.Some? && bind.Err? ==> r.rc == Fatal(BindFailed)
    ensures address.Some? && r.rc.Return? ==> r.rc.value >= 0
  {
    if address.None? then AttachResult(Return(-1), false, false)
    else if bind.Ok? then AttachResult(Return(bind.value), true, true)
    else AttachResult(Fatal(BindFailed), true, false)
  }

  /**
    `nnio_endpoint_add_remote`: a NULL address is refused before
    `nn_connect` is called; a connect id is returned with `errno` cleared;
    ECONNREFUSED gives -1, every other connect failure is fatal.
   */
  function AddRemote(address: Option<string>, connect: Attempt<nat>): (r: AttachResult)
    ensures address.None? ==> r == AttachResult(Return(-1), false, false)
    ensures address.Some? ==> r.called
    ensures address.Some? && connect.Ok? ==> r == AttachResult(Return(connect.value), true, true)
    ensures address.Some? && connect.Err? ==>
      r.rc == (if connect.errno == ECONNREFUSED then Return(-1) else Fatal(ConnectFailed))
    ensures r.rc == Return(-1) <==> address.None? || connect == Err(ECONNREFUSED)
  {
    if address.None? then AttachResult(Return(-1), false, false)
    else if connect.Ok? then AttachResult(Return(connect.value), true, true)
    else if connect.errno == ECONNREFUSED then AttachResult(Return(-1), true, false)
    else AttachResult(Fatal(ConnectFailed), true, false)
  }

  /**
    `nnio_endpoint_delete`: retries `nn_shutdown` while interrupted, returns
    on success, and any other failure is fatal.
   */
  method Delete(attempts: seq<Status>) returns (r: Outcome<()>, calls: nat)
    ensures SettledAt(attempts) == |attempts| ==> r == Unfinished && calls == |attempts|
    ensures SettledAt(attempts) < |attempts| ==> calls == SettledAt(attempts) + 1
    ensures SettledAt(attempts) < |attempts| ==>
      r == (if attempts[SettledAt(attempts)].Ok? then Return(()) else Fatal(ShutdownFailed))
  {
    calls := 0;
    while calls < |attempts|
      invariant calls <= |attempts|
      invariant forall j :: 0 <= j < calls ==> attempts[j] == Err(EINTR)
    {
      var a := attempts[calls];
      calls := calls + 1;
      if a.Ok? {
        return Return(()), calls;
      }
      if a.errno != EINTR {
        return Fatal(ShutdownFailed), calls;
      }
    }
    r := Unfinished;
  }
}
