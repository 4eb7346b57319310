/**
  The parent side of `nnio_spawn` in `src/lib/nnio.c`: after the child has
  been forked, the parent feeds the message to the child's standard input,
  releases the child through the shared semaphore, gathers the child's
  output into a list of fragments, sends them as one message and frees them.
  `write`, `read`, `nn_allocmsg` and `nn_sendmsg` are oracles; pipes, shared
  memory, the semaphore and `wait` appear only as events of a trace.
 */
module Spawn {
  import opened NnioTypes
  import Socket

  /** What the parent does after the fork, in order. Buffers are numbered by allocation. */
  datatype Event =
    | CloseInputRead              // close(input_fds[0])
    | CloseOutputWrite            // close(output_fds[1])
    | Write(bytes: seq<byte>)     // one write(input_fds[1], ...) call and the bytes it offers
    | CloseInputWrite             // close(input_fds[1])
    | RestoreSigpipe              // signal(SIGPIPE, SIG_DFL)
    | SemPost                     // sem_post(lock)
    | Alloc(buffer: nat)          // nnio_alloc_data(PIPE_BUF) succeeded
    | Read(buffer: nat, bytes: seq<byte>)  // read(output_fds[0], ...) succeeded
    | CloseOutputRead             // close(output_fds[0])
    | SemDestroy                  // sem_destroy(lock)
    | Unmap                       // munmap(lock, ...)
    | CloseShm                    // close(shm_fd)
    | SendIov(fragments: seq<seq<byte>>)   // nnio_socket_tx_iov(sock, iov, nr_iov)
    | Free(buffer: nat)           // nnio_free_data(iov[i].iov_base)
    | FreeIov                     // free(iov)
    | Wait                        // wait(NULL)

  /** `(int)u` for an `unsigned int` `u`: values above INT_MAX wrap to negative numbers. */
  function AsInt(u: nat): (i: int)
    requires u < UINT_RANGE
    ensures i > 0 <==> 0 < u <= INT_MAX
    ensures 0 <= u <= INT_MAX ==> i == u
  {
    if u <= INT_MAX then u else u - UINT_RANGE
  }

  // ---------------------------------------------------------------------
  // The payload loop (src/lib/nnio.c:169-182)

  /** The write calls of the payload loop and how the loop ended. */
  datatype WriteRun = WriteRun(outcome: Outcome<()>, requests: seq<seq<byte>>)

  /** The number of bytes a successful write of `request` took: `write` never takes more than asked. */
  function Taken(n: nat, request: seq<byte>): nat
  {
    if n < |request| then n else |request|
  }

  /**
    Reference meaning of the payload loop on the non-empty rest `rem`: each
    write is offered what is left; a write that takes everything or fails
    with EPIPE ends the loop, any other failure is fatal.
   */
  function PayloadRun(rem: seq<byte>, writes: seq<Attempt<nat>>): (w: WriteRun)
    requires rem != []
    ensures |w.requests| <= |writes|
    decreases |writes|
  {
    if writes == [] then WriteRun(Unfinished, [])
    else match writes[0]
      case Err(e) => WriteRun(if e == EPIPE then Return(()) else Fatal(PayloadWriteFailed), [rem])
      case Ok(n) =>
        if n >= |rem| then WriteRun(Return(()), [rem])
        else
          var w := PayloadRun(rem[n..], writes[1..]);
          WriteRun(w.outcome, [rem] + w.requests)
  }

  /** The first write call is offered the whole payload. */
  lemma PayloadFirstRequest(rem: seq<byte>, writes: seq<Attempt<nat>>, w: WriteRun)
    requires rem != [] && w == PayloadRun(rem, writes)
    ensures writes != [] ==> |w.requests| > 0 && w.requests[0] == rem
  {
  }

  /**
    Each write call after the first is offered what the previous one left:
    the previous request without the bytes the previous write took.
   */
  lemma {:induction false} PayloadConsecutive(rem: seq<byte>, writes: seq<Attempt<nat>>, w: WriteRun)
    requires rem != [] && w == PayloadRun(rem, writes)
    ensures forall j :: 0 <= j < |w.requests| - 1 ==>
      writes[j].Ok? && writes[j].value < |w.requests[j]| && w.requests[j + 1] == w.requests[j][writes[j].value..]
    decreases |writes|
  {
    if writes != [] && writes[0].Ok? && writes[0].value < |rem| {
      var n := writes[0].value;
      var w' := PayloadRun(rem[n..], writes[1..]);
      PayloadConsecutive(rem[n..], writes[1..], w');
      PayloadFirstRequest(rem[n..], writes[1..], w');
      assert w.requests == [rem] + w'.requests;
      forall j | 0 <= j < |w.requests| - 1
        ensures writes[j].Ok? && writes[j].value < |w.requests[j]| && w.requests[j + 1] == w.requests[j][writes[j].value..]
      {
        if j > 0 {
          assert w.requests[j] == w'.requests[j - 1] && w.requests[j + 1] == w'.requests[j];
          assert writes[j] == writes[1..][j - 1];
        }
      }
    }
  }

  /** Every write call is offered a non-empty suffix of the payload. */
  lemma {:induction false} PayloadSuffixes(rem: seq<byte>, writes: seq<Attempt<nat>>, w: WriteRun)
    requires rem != [] && w == PayloadRun(rem, writes)
    ensures forall j :: 0 <= j < |w.requests| ==>
      0 < |w.requests[j]| <= |rem| && w.requests[j] == rem[|rem| - |w.requests[j]|..]
    decreases |writes|
  {
    if writes != [] && writes[0].Ok? && writes[0].value < |rem| {
      var n := writes[0].value;
      var w' := PayloadRun(rem[n..], writes[1..]);
      PayloadSuffixes(rem[n..], writes[1..], w');
      assert w.requests == [rem] + w'.requests;
      forall j | 0 <= j < |w.requests|
        ensures 0 < |w.requests[j]| <= |rem| && w.requests[j] == rem[|rem| - |w.requests[j]|..]
      {
        if j > 0 {
          assert w.requests[j] == w'.requests[j - 1];
          assert rem[n..][|rem[n..]| - |w.requests[j]|..] == rem[|rem| - |w.requests[j]|..];
        }
      }
    }
  }

  /**
    The loop ends exactly when a write took all that was left or failed with
    EPIPE, and a write failing otherwise is fatal; it is unfinished only when
    every supplied write took part of the rest.
   */
  lemma {:induction false} PayloadEnds(rem: seq<byte>, writes: seq<Attempt<nat>>, w: WriteRun)
    requires rem != [] && w == PayloadRun(rem, writes)
    ensures w.outcome.Unfinished? ==> |w.requests| == |writes|
    ensures w.outcome.Unfinished? ==>
      forall j :: 0 <= j < |writes| ==> writes[j].Ok? && writes[j].value < |w.requests[j]|
    ensures !w.outcome.Unfinished? ==> 0 < |w.requests|
    ensures w.outcome.Return? ==>
      || writes[|w.requests| - 1] == Err(EPIPE)
      || (writes[|w.requests| - 1].Ok? && writes[|w.requests| - 1].value >= |w.requests[|w.requests| - 1]|)
    ensures w.outcome.Fatal? ==>
      && w.outcome.site == PayloadWriteFailed
      && writes[|w.requests| - 1].Err? && writes[|w.requests| - 1].errno != EPIPE
    decreases |writes|
  {
    if writes != [] && writes[0].Ok? && writes[0].value < |rem| {
      var n := writes[0].value;
      var w' := PayloadRun(rem[n..], writes[1..]);
      PayloadEnds(rem[n..], writes[1..], w');
      assert w.requests == [rem] + w'.requests;
      if w'.outcome.Unfinished? {
        forall j | 0 <= j < |writes| ensures writes[j].Ok? && writes[j].value < |w.requests[j]| {
          if j > 0 {
            assert writes[j] == writes[1..][j - 1] && w.requests[j] == w'.requests[j - 1];
          }
        }
      } else {
        assert writes[|w.requests| - 1] == writes[1..][|w'.requests| - 1];
        assert w.requests[|w.requests| - 1] == w'.requests[|w'.requests| - 1];
      }
    }
  }

  /** Reference meaning of the payload loop: nothing is written unless `(int)data_len > 0`. */
  function Payload(data: seq<byte>, dataLen: nat, writes: seq<Attempt<nat>>): (w: WriteRun)
    requires dataLen <= |data| && dataLen < UINT_RANGE
    ensures |w.requests| <= |writes|
    ensures AsInt(dataLen) <= 0 ==> w == WriteRun(Return(()), [])
  {
    if AsInt(dataLen) > 0 then PayloadRun(data[..dataLen], writes) else WriteRun(Return(()), [])
  }

  /** The bytes the write calls took, in order. */
  function Delivered(requests: seq<seq<byte>>, writes: seq<Attempt<nat>>): seq<byte>
    requires |requests| <= |writes|
  {
    if requests == [] then []
    else
      var took := if writes[0].Ok? then requests[0][..Taken(writes[0].value, requests[0])] else [];
      took + Delivered(requests[1..], writes[1..])
  }

  /**
    When the loop ends because a write took all that was left, the bytes
    the writes took are exactly the payload, in order.
   */
  lemma {:induction false} PayloadDelivered(rem: seq<byte>, writes: seq<Attempt<nat>>)
    requires rem != []
    requires PayloadRun(rem, writes).outcome.Return?
    requires writes[|PayloadRun(rem, writes).requests| - 1].Ok?
    ensures Delivered(PayloadRun(rem, writes).requests, writes) == rem
    decreases |writes|
  {
    var w := PayloadRun(rem, writes);
    var n := writes[0].value;
    if n < |rem| {
      var w' := PayloadRun(rem[n..], writes[1..]);
      assert w.requests == [rem] + w'.requests;
      assert writes[1..][|w'.requests| - 1] == writes[|w.requests| - 1];
      PayloadDelivered(rem[n..], writes[1..]);
      assert w.requests[1..] == w'.requests;
      assert rem == rem[..n] + rem[n..];
    } else {
      assert w.requests == [rem];
      assert Delivered(w.requests[1..], writes[1..]) == [];
    }
  }

  /**
    The payload loop: writes what is left of the message until a write takes
    all of it or fails with EPIPE; any other write failure is fatal.
   */
  method WritePayload(data: seq<byte>, dataLen: nat, writes: seq<Attempt<nat>>)
    returns (r: Outcome<()>, requests: seq<seq<byte>>)
    requires dataLen <= |data| && dataLen < UINT_RANGE
    ensures r == Payload(data, dataLen, writes).outcome
    ensures requests == Payload(data, dataLen, writes).requests
  {
    var off: nat, len: nat := 0, dataLen;
    var k := 0;
    requests := [];
    while AsInt(len) > 0
      invariant off + len == dataLen && k <= |writes|
      invariant AsInt(len) > 0 ==> AsInt(dataLen) > 0
      invariant AsInt(len) > 0 ==>
        Payload(data, dataLen, writes) == WriteRun(PayloadRun(data[off..off + len], writes[k..]).outcome,
                                                   requests + PayloadRun(data[off..off + len], writes[k..]).requests)
      invariant AsInt(len) <= 0 ==> Payload(data, dataLen, writes) == WriteRun(Return(()), requests)
      decreases |writes| - k
    {
      if k == |writes| {
        return Unfinished, requests;
      }
      var sz := writes[k];
      var rem := data[off..off + len];
      assert writes[k..][1..] == writes[k + 1..];
      requests := requests + [rem];
      k := k + 1;
      if sz.Err? && sz.errno == EPIPE {
        break;
      }
      if sz.Err? {
        return Fatal(PayloadWriteFailed), requests;
      }
      if sz.value >= len {
        break;
      }
      assert rem[sz.value..] == data[off + sz.value..off + len];
      off, len := off + sz.value, len - sz.value;
    }
    r := Return(());
  }

  // ---------------------------------------------------------------------
  // The gather loop (src/lib/nnio.c:190-209)

  /**
    One round of the gather loop: the buffer allocation fails, the read
    fails, the read returns bytes and the iov vector grows, or the read
    returns bytes and growing the iov vector fails. The last is only
    consulted when the read returned at least one byte, since a zero-byte
    read leaves the loop before the vector is grown.
   */
  datatype ReadStep = AllocFailed | ReadFailed(errno: Errno) | Got(bytes: seq<byte>) | IovFailed(bytes: seq<byte>)

  /** Whether a round's read succeeded. */
  predicate ReadSucceeded(step: ReadStep)
  {
    step.Got? || step.IovFailed?
  }

  /** Whether a round's read succeeded with no bytes: the end of the child's output. */
  predicate EndOfOutput(step: ReadStep)
  {
    ReadSucceeded(step) && Bytes(step) == []
  }

  /** The bytes a round read: `read` never returns more than the PIPE_BUF bytes asked for. */
  function Bytes(step: ReadStep): (c: seq<byte>)
    ensures |c| <= PIPE_BUF
    ensures ReadSucceeded(step) && |step.bytes| <= PIPE_BUF ==> c == step.bytes
  {
    if !ReadSucceeded(step) then []
    else if |step.bytes| <= PIPE_BUF then step.bytes
    else step.bytes[..PIPE_BUF]
  }

  /** Whether a round appends a fragment: its read returned at least one byte. */
  predicate Appends(step: ReadStep)
  {
    step.Got? && Bytes(step) != []
  }

  /** The fragments gathered, how the loop ended, and how many rounds (buffer allocations) it ran. */
  datatype GatherRun = GatherRun(outcome: Outcome<()>, fragments: seq<seq<byte>>, rounds: nat)

  /**
    Reference meaning of the gather loop: every non-empty read becomes the
    next fragment; the first zero-byte read ends the loop; a failed buffer
    allocation, a failed read or a failed growth of the iov vector is fatal.
   */
  function Gather(steps: seq<ReadStep>): (g: GatherRun)
    ensures g.rounds <= |steps|
  {
    if steps == [] then GatherRun(Unfinished, [], 0)
    else match steps[0]
      case AllocFailed => GatherRun(Fatal(OutputBufferAllocFailed), [], 1)
      case ReadFailed(_) => GatherRun(Fatal(OutputReadFailed), [], 1)
      case Got(_) =>
        if !Appends(steps[0]) then GatherRun(Return(()), [], 1)
        else
          var g := Gather(steps[1..]);
          GatherRun(g.outcome, [Bytes(steps[0])] + g.fragments, g.rounds + 1)
      case IovFailed(_) =>
        if Bytes(steps[0]) == [] then GatherRun(Return(()), [], 1)
        else GatherRun(Fatal(IovAllocFailed), [], 1)
  }

  /**
    The fragments are the reads of the rounds before the last, in order,
    each of 1 to PIPE_BUF bytes; the loop stops after the first round that
    does not append, and a round that appends never ends it.
   */
  lemma {:induction false} GatherFragments(steps: seq<ReadStep>, g: GatherRun)
    requires g == Gather(steps)
    ensures |g.fragments| <= g.rounds
    ensures forall j :: 0 <= j < |g.fragments| ==> Appends(steps[j]) && g.fragments[j] == Bytes(steps[j])
    ensures forall j :: 0 <= j < |g.fragments| ==> 1 <= |g.fragments[j]| <= PIPE_BUF
    ensures g.outcome.Unfinished? ==> g.rounds == |steps| == |g.fragments|
    ensures !g.outcome.Unfinished? ==> g.rounds == |g.fragments| + 1 && !Appends(steps[|g.fragments|])
    decreases |steps|
  {
    if steps != [] && Appends(steps[0]) {
      var g' := Gather(steps[1..]);
      GatherFragments(steps[1..], g');
      assert g.fragments == [Bytes(steps[0])] + g'.fragments;
      forall j | 0 <= j < |g.fragments|
        ensures Appends(steps[j]) && g.fragments[j] == Bytes(steps[j])
      {
        if j > 0 {
          assert steps[j] == steps[1..][j - 1] && g.fragments[j] == g'.fragments[j - 1];
        }
      }
      if !g.outcome.Unfinished? {
        assert steps[|g.fragments|] == steps[1..][|g'.fragments|];
      }
    }
  }

  /**
    How the gather loop ends is decided by its last round: a zero-byte read
    returns, a failed buffer allocation, read or iov growth is fatal at
    its own site.
   */
  lemma {:induction false} GatherEnds(steps: seq<ReadStep>, g: GatherRun)
    requires g == Gather(steps)
    ensures !g.outcome.Unfinished? ==> 0 < g.rounds
    ensures g.outcome.Return? <==> !g.outcome.Unfinished? && EndOfOutput(steps[g.rounds - 1])
    ensures g.outcome == Fatal(OutputBufferAllocFailed) <==> !g.outcome.Unfinished? && steps[g.rounds - 1] == AllocFailed
    ensures g.outcome == Fatal(OutputReadFailed) <==> !g.outcome.Unfinished? && steps[g.rounds - 1].ReadFailed?
    ensures g.outcome == Fatal(IovAllocFailed) <==>
      !g.outcome.Unfinished? && steps[g.rounds - 1].IovFailed? && Bytes(steps[g.rounds - 1]) != []
    ensures g.outcome.Fatal? ==>
      g.outcome.site == OutputBufferAllocFailed || g.outcome.site == OutputReadFailed || g.outcome.site == IovAllocFailed
    decreases |steps|
  {
    if steps != [] && Appends(steps[0]) {
      var g' := Gather(steps[1..]);
      GatherEnds(steps[1..], g');
      if !g.outcome.Unfinished? {
        assert steps[g.rounds - 1] == steps[1..][g'.rounds - 1];
      }
    }
  }

  /** The concatenation of a list of fragments. */
  function Flatten(fragments: seq<seq<byte>>): seq<byte>
  {
    if fragments == [] then [] else Flatten(fragments[..|fragments| - 1]) + fragments[|fragments| - 1]
  }

  /** The sum of the fragment lengths, as `total_tx_len` accumulates it. */
  function TotalLength(fragments: seq<seq<byte>>): nat
  {
    if fragments == [] then 0 else TotalLength(fragments[..|fragments| - 1]) + |fragments[|fragments| - 1]|
  }

  /** All bytes read in the first `n` rounds, in order. */
  function BytesRead(steps: seq<ReadStep>, n: nat): seq<byte>
    requires n <= |steps|
  {
    if n == 0 then [] else BytesRead(steps, n - 1) + Bytes(steps[n - 1])
  }

  /** `total_tx_len` is the length of the concatenated fragments. */
  lemma {:induction false} TotalIsFlattenedLength(fragments: seq<seq<byte>>)
    ensures TotalLength(fragments) == |Flatten(fragments)|
    decreases |fragments|
  {
    if fragments != [] {
      TotalIsFlattenedLength(fragments[..|fragments| - 1]);
    }
  }

  /** Fragments that are the reads of the first rounds flatten to the bytes of those rounds. */
  lemma {:induction false} FlattenIsBytesRead(steps: seq<ReadStep>, fragments: seq<seq<byte>>)
    requires |fragments| <= |steps|
    requires forall j :: 0 <= j < |fragments| ==> fragments[j] == Bytes(steps[j])
    ensures Flatten(fragments) == BytesRead(steps, |fragments|)
    decreases |fragments|
  {
    if fragments != [] {
      var init := fragments[..|fragments| - 1];
      assert forall j :: 0 <= j < |init| ==> init[j] == fragments[j];
      FlattenIsBytesRead(steps, init);
    }
  }

  /**
    When the gather loop ends normally, the fragments flatten to every byte
    read, and their total length is the number of bytes read.
   */
  lemma GatheredBytes(steps: seq<ReadStep>, g: GatherRun)
    requires g == Gather(steps) && g.outcome.Return?
    ensures Flatten(g.fragments) == BytesRead(steps, g.rounds)
    ensures TotalLength(g.fragments) == |BytesRead(steps, g.rounds)|
  {
    GatherFragments(steps, g);
    GatherEnds(steps, g);
    FlattenIsBytesRead(steps, g.fragments);
    assert Bytes(steps[|g.fragments|]) == [];
    assert BytesRead(steps, g.rounds) == BytesRead(steps, |g.fragments|) + [];
    TotalIsFlattenedLength(g.fragments);
  }

  /** The events of one round of the gather loop, whose buffer is number `j`. */
  function RoundEvents(j: nat, step: ReadStep): seq<Event>
  {
    match step
    case AllocFailed => []
    case ReadFailed(_) => [Alloc(j)]
    case Got(_) => [Alloc(j), Read(j, Bytes(step))]
    case IovFailed(_) => [Alloc(j), Read(j, Bytes(step))]
  }

  /** The events of the first `n` rounds of the gather loop. */
  function GatherEvents(steps: seq<ReadStep>, n: nat): seq<Event>
    requires n <= |steps|
  {
    if n == 0 then [] else GatherEvents(steps, n - 1) + RoundEvents(n - 1, steps[n - 1])
  }

  /** The gather loop only allocates and reads buffers numbered below its round count, and allocates each of them. */
  lemma {:induction false} GatherEventKinds(steps: seq<ReadStep>, n: nat)
    requires n <= |steps|
    ensures forall e :: e in GatherEvents(steps, n) ==> ReadSide(e) && e.buffer < n
    ensures forall j :: 0 <= j < n && !steps[j].AllocFailed? ==> Alloc(j) in GatherEvents(steps, n)
  {
    if n > 0 {
      GatherEventKinds(steps, n - 1);
    }
  }

  /** Events of the gather loop: a buffer allocation or a read. */
  predicate ReadSide(e: Event)
  {
    e.Alloc? || e.Read?
  }

  /** Invariant of the gather loop after `j` appending rounds that gathered `iov`. */
  ghost predicate Gathering(steps: seq<ReadStep>, j: nat, iov: seq<seq<byte>>)
  {
    && j <= |steps| && |iov| == j
    && Gather(steps) == GatherRun(Gather(steps[j..]).outcome, iov + Gather(steps[j..]).fragments,
                                  j + Gather(steps[j..]).rounds)
  }

  /** A round that appends keeps the gather invariant with its bytes appended. */
  lemma GatherRound(steps: seq<ReadStep>, j: nat, iov: seq<seq<byte>>)
    requires Gathering(steps, j, iov) && j < |steps| && Appends(steps[j])
    ensures Gathering(steps, j + 1, iov + [Bytes(steps[j])])
  {
    assert steps[j..][0] == steps[j] && steps[j..][1..] == steps[j + 1..];
    var g := Gather(steps[j + 1..]);
    assert Gather(steps[j..]) == GatherRun(g.outcome, [Bytes(steps[j])] + g.fragments, g.rounds + 1);
    assert iov + ([Bytes(steps[j])] + g.fragments) == (iov + [Bytes(steps[j])]) + g.fragments;
  }

  /** A round that does not append ends the gather run with what was gathered so far. */
  lemma GatherStop(steps: seq<ReadStep>, j: nat, iov: seq<seq<byte>>)
    requires Gathering(steps, j, iov)
    requires j < |steps| ==> !Appends(steps[j])
    ensures Gather(steps).fragments == iov
    ensures Gather(steps).rounds == (if j < |steps| then j + 1 else j)
    ensures Gather(steps).outcome ==
      if j == |steps| then Unfinished
      else if steps[j].AllocFailed? then Fatal(OutputBufferAllocFailed)
      else if steps[j].ReadFailed? then Fatal(OutputReadFailed)
      else if !EndOfOutput(steps[j]) then Fatal(IovAllocFailed)
      else Return(())
  {
    if j < |steps| {
      assert steps[j..][0] == steps[j];
    }
    assert iov + [] == iov;
  }

  /** The running total after one more fragment. */
  lemma TotalLengthAppend(iov: seq<seq<byte>>, buf: seq<byte>)
    ensures TotalLength(iov + [buf]) == TotalLength(iov) + |buf|
  {
    assert (iov + [buf])[..|iov|] == iov;
  }

  /** The round of the gather loop that ends it: no more steps, a failed allocation, read or iov growth, or a zero-byte read. */
  method EndGather(steps: seq<ReadStep>, j: nat, iov: seq<seq<byte>>, events: seq<Event>)
    returns (r: Outcome<()>, events': seq<Event>)
    requires Gathering(steps, j, iov) && events == GatherEvents(steps, j)
    requires j < |steps| ==> !Appends(steps[j])
    ensures r == Gather(steps).outcome && iov == Gather(steps).fragments
    ensures events' == GatherEvents(steps, Gather(steps).rounds)
  {
    GatherStop(steps, j, iov);
    if j == |steps| {
      return Unfinished, events;
    }
    var step := steps[j];
    if step.AllocFailed? {
      return Fatal(OutputBufferAllocFailed), events;
    }
    if step.ReadFailed? {
      return Fatal(OutputReadFailed), events + [Alloc(j)];
    }
    if Bytes(step) != [] {
      return Fatal(IovAllocFailed), events + [Alloc(j), Read(j, Bytes(step))];
    }
    return Return(()), events + [Alloc(j), Read(j, Bytes(step))];
  }

  /**
    The gather loop: allocates a buffer, reads up to PIPE_BUF bytes into it,
    and appends it to `iov` unless the read returned nothing, which ends the
    loop; `total` accumulates the fragment lengths.
   */
  method GatherOutput(steps: seq<ReadStep>)
    returns (r: Outcome<()>, iov: seq<seq<byte>>, total: nat, events: seq<Event>)
    ensures r == Gather(steps).outcome && iov == Gather(steps).fragments
    ensures events == GatherEvents(steps, Gather(steps).rounds)
    ensures total == TotalLength(iov)
  {
    iov, total, events := [], 0, [];
    var j := 0;
    while j < |steps| && Appends(steps[j])
      invariant Gathering(steps, j, iov)
      invariant events == GatherEvents(steps, j) && total == TotalLength(iov)
      decreases |steps| - j
    {
      var buf := Bytes(steps[j]);
      GatherRound(steps, j, iov);
      TotalLengthAppend(iov, buf);
      iov, total, events := iov + [buf], total + |buf|, events + [Alloc(j), Read(j, buf)];
      j := j + 1;
    }
    r, events := EndGather(steps, j, iov, events);
  }

  // ---------------------------------------------------------------------
  // The parent of nnio_spawn (src/lib/nnio.c:89-123, 166-231)

  /** One write event per write call. */
  function WriteEvents(requests: seq<seq<byte>>): (t: seq<Event>)
    ensures |t| == |requests|
    ensures forall j :: 0 <= j < |t| ==> t[j] == Write(requests[j])
  {
    seq(|requests|, j requires 0 <= j < |requests| => Write(requests[j]))
  }

  /** One free event per fragment, in order. */
  function FreeEvents(n: nat): (t: seq<Event>)
    ensures |t| == n
    ensures forall j :: 0 <= j < n ==> t[j] == Free(j)
  {
    seq(n, j requires 0 <= j < n => Free(j as nat))
  }

  /** The result of `nnio_spawn` in the parent and the events it leaves behind. */
  datatype SpawnRun = SpawnRun(outcome: Outcome<int>, trace: seq<Event>)

  /** The events from the fork to the end of the payload loop. */
  function FeedEvents(requests: seq<seq<byte>>): seq<Event>
  {
    [CloseInputRead, CloseOutputWrite] + WriteEvents(requests)
  }

  /** The events from the end of the payload loop to the end of the gather loop. */
  function ReleaseEvents(steps: seq<ReadStep>, rounds: nat): seq<Event>
    requires rounds <= |steps|
  {
    [CloseInputWrite, RestoreSigpipe, SemPost] + GatherEvents(steps, rounds)
  }

  /** The tear-down of the pipes and the semaphore, then the send of the gathered fragments. */
  function SendEvents(fragments: seq<seq<byte>>): seq<Event>
  {
    [CloseOutputRead, SemDestroy, Unmap, CloseShm, SendIov(fragments)]
  }

  /** The send of the gathered fragments, and the frees when it returns. */
  function SendStage(fragments: seq<seq<byte>>, sends: seq<Attempt<nat>>): SpawnRun
  {
    var rc := Socket.Settle(sends, SendIovFailed);
    if !rc.Return? then SpawnRun(Abort(rc), SendEvents(fragments))
    else SpawnRun(Return(0), SendEvents(fragments) + FreeEvents(|fragments|) + [FreeIov, Wait])
  }

  /** The release of the child and the gather loop, then the send. */
  function GatherStage(steps: seq<ReadStep>, sends: seq<Attempt<nat>>): SpawnRun
  {
    var g := Gather(steps);
    var release := ReleaseEvents(steps, g.rounds);
    if !g.outcome.Return? then SpawnRun(Abort(g.outcome), release)
    else
      var sent := SendStage(g.fragments, sends);
      SpawnRun(sent.outcome, release + sent.trace)
  }

  /** The payload loop that ran as `w`, then the release, the gather loop and the send. */
  function FeedStage(w: WriteRun, steps: seq<ReadStep>, sends: seq<Attempt<nat>>): SpawnRun
  {
    var feed := FeedEvents(w.requests);
    if !w.outcome.Return? then SpawnRun(Abort(w.outcome), feed)
    else
      var rest := GatherStage(steps, sends);
      SpawnRun(rest.outcome, feed + rest.trace)
  }

  /**
    Reference meaning of the parent of `nnio_spawn`. `failure` is the first
    set-up step that fails, if any (a failing `shm_unlink` is not checked);
    `writes`, `steps` and `sends` are the outcomes of `write`, of the gather
    steps and of `nn_sendmsg`.
   */
  function Parent(failure: Option<SetupStep>, data: seq<byte>, dataLen: nat,
                  writes: seq<Attempt<nat>>, steps: seq<ReadStep>, sends: seq<Attempt<nat>>): (s: SpawnRun)
    requires dataLen <= |data| && dataLen < UINT_RANGE
    ensures s.outcome.Return? ==> s.outcome.value == 0
    ensures failure.Some? && failure.value != UnlinkShm ==> s == SpawnRun(Fatal(SpawnSetupFailed(failure.value)), [])
  {
    if failure.Some? && failure.value != UnlinkShm then SpawnRun(Fatal(SpawnSetupFailed(failure.value)), [])
    else FeedStage(Payload(data, dataLen, writes), steps, sends)
  }

  /**
    The parent fails at exactly one of its own sites: a set-up step, a
    write, a buffer allocation, a read, the growth of the iov vector or the send; and it returns 0 exactly
    when every stage returned, whatever the send's return value.
   */
  lemma ParentSites(failure: Option<SetupStep>, data: seq<byte>, dataLen: nat,
                    writes: seq<Attempt<nat>>, steps: seq<ReadStep>, sends: seq<Attempt<nat>>, s: SpawnRun)
    requires dataLen <= |data| && dataLen < UINT_RANGE
    requires s == Parent(failure, data, dataLen, writes, steps, sends)
    ensures s.outcome.Fatal? ==>
      || (failure.Some? && failure.value != UnlinkShm && s.outcome.site == SpawnSetupFailed(failure.value))
      || s.outcome.site == PayloadWriteFailed
      || s.outcome.site == OutputBufferAllocFailed
      || s.outcome.site == OutputReadFailed
      || s.outcome.site == IovAllocFailed
      || s.outcome.site == SendIovFailed
    ensures
      (&& (failure.None? || failure.value == UnlinkShm)
       && Payload(data, dataLen, writes).outcome.Return?
       && Gather(steps).outcome.Return?
       && Socket.Settle(sends, SendIovFailed).Return?)
      <==> s.outcome == Return(0)
  {
    if failure.None? || failure.value == UnlinkShm {
      if AsInt(dataLen) > 0 {
        PayloadEnds(data[..dataLen], writes, PayloadRun(data[..dataLen], writes));
      }
      GatherEnds(steps, Gather(steps));
      var w := Payload(data, dataLen, writes);
      if w.outcome.Return? {
        assert w.outcome.value == ();
        assert s.outcome == GatherStage(steps, sends).outcome;
      }
    }
  }

  /** The frees after a send that returned: one per fragment, then the vector, then `wait`. */
  method FreeFragments(n: nat) returns (t: seq<Event>)
    ensures t == FreeEvents(n) + [FreeIov, Wait]
  {
    t := [];
    for i := 0 to n
      invariant t == FreeEvents(i)
    {
      t := t + [Free(i)];
    }
    t := t + [FreeIov, Wait];
  }

  /** The send of the gathered fragments and, if it returns, the frees. */
  method SendAndFree(iov: seq<seq<byte>>, sends: seq<Attempt<nat>>) returns (r: Outcome<int>, trace: seq<Event>)
    ensures SpawnRun(r, trace) == SendStage(iov, sends)
  {
    trace := SendEvents(iov);
    var rc, hdr, calls := Socket.TxIov(iov, sends);
    assert rc == Socket.Settle(sends, SendIovFailed);
    if !rc.Return? {
      return Abort(rc), trace;
    }
    // a negative rc is only logged
    var frees := FreeFragments(|iov|);
    trace := trace + frees;
    r := Return(0);
  }

  /** The release of the child, the gather loop and the send. */
  method ReleaseAndGather(steps: seq<ReadStep>, sends: seq<Attempt<nat>>) returns (r: Outcome<int>, trace: seq<Event>)
    ensures SpawnRun(r, trace) == GatherStage(steps, sends)
  {
    trace := [CloseInputWrite, RestoreSigpipe, SemPost];
    var g, iov, total, events := GatherOutput(steps);
    trace := trace + events;
    if !g.Return? {
      return Abort(g), trace;
    }
    var sent;
    r, sent := SendAndFree(iov, sends);
    trace := trace + sent;
  }

  /**
    `nnio_spawn` in the parent: fails fatally at the first failing set-up
    step, feeds the message to the child, posts the semaphore, gathers the
    output, sends it, frees the fragments and reaps the child. It returns 0
    even when the send fails.
   */
  method SpawnParent(failure: Option<SetupStep>, data: seq<byte>, dataLen: nat,
                     writes: seq<Attempt<nat>>, steps: seq<ReadStep>, sends: seq<Attempt<nat>>)
    returns (r: Outcome<int>, trace: seq<Event>)
    requires dataLen <= |data| && dataLen < UINT_RANGE
    ensures SpawnRun(r, trace) == Parent(failure, data, dataLen, writes, steps, sends)
  {
    if failure.Some? && failure.value != UnlinkShm {
      return Fatal(SpawnSetupFailed(failure.value)), [];
    }
    var w, requests := WritePayload(data, dataLen, writes);
    trace := FeedEvents(requests);
    if !w.Return? {
      return Abort(w), trace;
    }
    var rest;
    r, rest := ReleaseAndGather(steps, sends);
    trace := trace + rest;
  }

  // ---------------------------------------------------------------------
  // Properties of the parent's trace

  /** The number of times an event occurs in a trace. */
  function Count(t: seq<Event>, e: Event): nat
  {
    multiset(t)[e]
  }

  /** Whether the write stage of a parent run completed, so that the child was released. */
  predicate Released(failure: Option<SetupStep>, data: seq<byte>, dataLen: nat, writes: seq<Attempt<nat>>)
    requires dataLen <= |data| && dataLen < UINT_RANGE
  {
    (failure.None? || failure.value == UnlinkShm) && Payload(data, dataLen, writes).outcome.Return?
  }

  /** The number of events before the child is released: the two closes and the write calls. */
  function FeedLength(data: seq<byte>, dataLen: nat, writes: seq<Attempt<nat>>): nat
    requires dataLen <= |data| && dataLen < UINT_RANGE
  {
    |FeedEvents(Payload(data, dataLen, writes).requests)|
  }

  /** A trace with no event of a kind counts zero of it. */
  lemma CountAbsent(t: seq<Event>, e: Event)
    requires e !in t
    ensures Count(t, e) == 0
  {
  }

  /** The send stage only tears down, sends, frees and waits. */
  lemma SendStageKinds(fragments: seq<seq<byte>>, sends: seq<Attempt<nat>>)
    ensures forall e :: e in SendStage(fragments, sends).trace ==> !ReadSide(e) && e != SemPost
  {
  }

  /** The release and gather stage: the release, the gather loop's events, and the send stage when the loop returned. */
  lemma GatherStageShape(steps: seq<ReadStep>, sends: seq<Attempt<nat>>)
    ensures GatherStage(steps, sends).trace ==
      [CloseInputWrite, RestoreSigpipe, SemPost] + GatherEvents(steps, Gather(steps).rounds)
      + (if Gather(steps).outcome.Return? then SendStage(Gather(steps).fragments, sends).trace else [])
  {
  }

  /** A post followed by allocations and reads, then by events that post nothing, posts only at its third event. */
  lemma PostThenNoPost(ge: seq<Event>, rest: seq<Event>, t: seq<Event>)
    requires forall e :: e in ge ==> ReadSide(e)
    requires SemPost !in rest
    requires t == [CloseInputWrite, RestoreSigpipe, SemPost] + ge + rest
    ensures |t| >= 3 && t[..3] == [CloseInputWrite, RestoreSigpipe, SemPost]
    ensures SemPost !in t[3..]
  {
    assert t[3..] == ge + rest;
  }

  /** After the semaphore post the parent only allocates, reads, tears down, sends, frees and waits. */
  lemma AfterPost(steps: seq<ReadStep>, sends: seq<Attempt<nat>>, t: seq<Event>)
    requires t == GatherStage(steps, sends).trace
    ensures |t| >= 3 && t[..3] == [CloseInputWrite, RestoreSigpipe, SemPost]
    ensures SemPost !in t[3..]
  {
    var g := Gather(steps);
    GatherStageShape(steps, sends);
    GatherEventKinds(steps, g.rounds);
    var rest := if g.outcome.Return? then SendStage(g.fragments, sends).trace else [];
    if g.outcome.Return? {
      SendStageKinds(g.fragments, sends);
    }
    PostThenNoPost(GatherEvents(steps, g.rounds), rest, t);
  }

  /** The events before the release of the child hold no semaphore post, allocation or read. */
  lemma FeedKinds(requests: seq<seq<byte>>)
    ensures forall e :: e in FeedEvents(requests) ==> !ReadSide(e) && e != SemPost
  {
    var feed := FeedEvents(requests);
    forall e | e in feed ensures !ReadSide(e) && e != SemPost {
      var q :| 0 <= q < |feed| && feed[q] == e;
      if q >= 2 {
        assert e == WriteEvents(requests)[q - 2];
      }
    }
  }

  /** After a feed free of posts and reads, the release is one post, before any read. */
  lemma PostedOnceAfter(feed: seq<Event>, rest: seq<Event>)
    requires forall e :: e in feed ==> !ReadSide(e) && e != SemPost
    requires |rest| >= 3 && rest[..3] == [CloseInputWrite, RestoreSigpipe, SemPost] && SemPost !in rest[3..]
    ensures Count(feed + rest, SemPost) == 1
    ensures (feed + rest)[|feed|..|feed| + 3] == [CloseInputWrite, RestoreSigpipe, SemPost]
    ensures forall q :: 0 <= q < |feed| + 3 ==> !ReadSide((feed + rest)[q])
  {
    var t := feed + rest;
    assert t == feed + rest[..3] + rest[3..];
    assert multiset(t) == multiset(feed) + multiset(rest[..3]) + multiset(rest[3..]);
    CountAbsent(feed, SemPost);
    CountAbsent(rest[3..], SemPost);
    forall q | 0 <= q < |feed| + 3 ensures !ReadSide(t[q]) {
      if q < |feed| {
        assert t[q] == feed[q] && feed[q] in feed;
      } else {
        assert t[q] == rest[..3][q - |feed|];
      }
    }
  }

  /**
    Whatever the write calls returned, once the payload loop has ended the
    parent closes the input pipe, restores SIGPIPE and posts the semaphore,
    in that order, before the first read; the semaphore is posted exactly
    once, and never if the parent stopped earlier.
   */
  lemma SemaphorePostedOnceBeforeReads(failure: Option<SetupStep>, data: seq<byte>, dataLen: nat,
                                       writes: seq<Attempt<nat>>, steps: seq<ReadStep>, sends: seq<Attempt<nat>>,
                                       t: seq<Event>)
    requires dataLen <= |data| && dataLen < UINT_RANGE
    requires t == Parent(failure, data, dataLen, writes, steps, sends).trace
    ensures Count(t, SemPost) == (if Released(failure, data, dataLen, writes) then 1 else 0)
    ensures Released(failure, data, dataLen, writes) ==>
      && |t| >= FeedLength(data, dataLen, writes) + 3
      && t[FeedLength(data, dataLen, writes)..FeedLength(data, dataLen, writes) + 3]
         == [CloseInputWrite, RestoreSigpipe, SemPost]
      && forall q :: 0 <= q < FeedLength(data, dataLen, writes) + 3 ==> !ReadSide(t[q])
  {
    var feed := FeedEvents(Payload(data, dataLen, writes).requests);
    var rest := GatherStage(steps, sends).trace;
    ParentShape(failure, data, dataLen, writes, steps, sends);
    FeedKinds(Payload(data, dataLen, writes).requests);
    AfterPost(steps, sends, rest);
    PostedInTrace(feed, rest, t, Released(failure, data, dataLen, writes));
  }

  /** The post count and position in a trace that is the feed and the rest when released, and at most the feed otherwise. */
  lemma PostedInTrace(feed: seq<Event>, rest: seq<Event>, t: seq<Event>, released: bool)
    requires forall e :: e in feed ==> !ReadSide(e) && e != SemPost
    requires |rest| >= 3 && rest[..3] == [CloseInputWrite, RestoreSigpipe, SemPost] && SemPost !in rest[3..]
    requires released ==> t == feed + rest
    requires !released ==> t == [] || t == feed
    ensures Count(t, SemPost) == (if released then 1 else 0)
    ensures released ==>
      && |t| >= |feed| + 3
      && t[|feed|..|feed| + 3] == [CloseInputWrite, RestoreSigpipe, SemPost]
      && forall q :: 0 <= q < |feed| + 3 ==> !ReadSide(t[q])
  {
    if released {
      PostedOnceAfter(feed, rest);
    } else {
      CountAbsent(t, SemPost);
    }
  }

  /** The parent's trace: nothing after a failed set-up, the feed alone when the payload loop did not return, and otherwise the feed followed by the rest. */
  lemma ParentShape(failure: Option<SetupStep>, data: seq<byte>, dataLen: nat,
                    writes: seq<Attempt<nat>>, steps: seq<ReadStep>, sends: seq<Attempt<nat>>)
    requires dataLen <= |data| && dataLen < UINT_RANGE
    ensures var t := Parent(failure, data, dataLen, writes, steps, sends).trace;
      var feed := FeedEvents(Payload(data, dataLen, writes).requests);
      && (failure.Some? && failure.value != UnlinkShm ==> t == [])
      && ((failure.None? || failure.value == UnlinkShm) && !Payload(data, dataLen, writes).outcome.Return? ==> t == feed)
      && (Released(failure, data, dataLen, writes) ==> t == feed + GatherStage(steps, sends).trace)
  {
  }

  /** After events with no free of buffer `b`, the release loop and `free(iov)` free `b` exactly once. */
  lemma FreedOnceAt(sent: seq<Event>, n: nat, b: nat)
    requires b < n && Free(b) !in sent
    ensures Count(sent + FreeEvents(n) + [FreeIov, Wait], Free(b)) == 1
  {
    var t := sent + FreeEvents(n) + [FreeIov, Wait];
    assert multiset(t) == multiset(sent) + multiset(FreeEvents(n)) + multiset([FreeIov, Wait]);
    FreeEventsCount(n, b);
  }

  /** After events with no free at all, the release of `n` fragments frees each once and ends with `wait`. */
  lemma FreedOnceAfter(sent: seq<Event>, n: nat, t: seq<Event>)
    requires forall e :: e in sent ==> !e.Free?
    requires t == sent + FreeEvents(n) + [FreeIov, Wait]
    ensures forall b :: 0 <= b < n ==> Count(t, Free(b)) == 1
    ensures Free(n) !in t
    ensures |t| > 0 && t[|t| - 1] == Wait
  {
    forall b | 0 <= b < n ensures Count(t, Free(b)) == 1 {
      FreedOnceAt(sent, n, b);
    }
    assert Free(n) !in FreeEvents(n);
  }

  /** A parent that returns has run every stage: its trace is the feed, the release and gather, the send and the frees. */
  lemma ReturnShape(failure: Option<SetupStep>, data: seq<byte>, dataLen: nat,
                    writes: seq<Attempt<nat>>, steps: seq<ReadStep>, sends: seq<Attempt<nat>>, t: seq<Event>)
    requires dataLen <= |data| && dataLen < UINT_RANGE
    requires Parent(failure, data, dataLen, writes, steps, sends) == SpawnRun(Return(0), t)
    ensures Gather(steps).outcome.Return?
    ensures t == FeedEvents(Payload(data, dataLen, writes).requests) + ReleaseEvents(steps, Gather(steps).rounds)
                 + SendEvents(Gather(steps).fragments) + FreeEvents(|Gather(steps).fragments|) + [FreeIov, Wait]
  {
    ParentSites(failure, data, dataLen, writes, steps, sends, SpawnRun(Return(0), t));
  }

  /** Nothing before the release loop frees a buffer. */
  lemma NoFreesBefore(requests: seq<seq<byte>>, steps: seq<ReadStep>, rounds: nat, fragments: seq<seq<byte>>)
    requires rounds <= |steps|
    ensures forall e :: e in FeedEvents(requests) + ReleaseEvents(steps, rounds) + SendEvents(fragments) ==> !e.Free?
  {
    FeedKinds(requests);
    GatherEventKinds(steps, rounds);
    var feed := FeedEvents(requests);
    forall e | e in feed ensures !e.Free? {
      var q :| 0 <= q < |feed| && feed[q] == e;
      if q >= 2 {
        assert e == WriteEvents(requests)[q - 2];
      }
    }
  }

  /** The gather loop that returned allocated a buffer for its last, zero-byte, read. */
  lemma LastReadAllocated(steps: seq<ReadStep>)
    requires Gather(steps).outcome.Return?
    ensures Alloc(|Gather(steps).fragments|) in ReleaseEvents(steps, Gather(steps).rounds)
  {
    var g := Gather(steps);
    GatherEventKinds(steps, g.rounds);
    GatherFragments(steps, g);
    GatherEnds(steps, g);
  }

  /** The frees at the end of a trace whose earlier events free nothing and allocate buffer `n`. */
  lemma FreesAtEnd(before: seq<Event>, n: nat, t: seq<Event>)
    requires forall e :: e in before ==> !e.Free?
    requires Alloc(n) in before
    requires t == before + FreeEvents(n) + [FreeIov, Wait]
    ensures forall b :: 0 <= b < n ==> Count(t, Free(b)) == 1
    ensures Alloc(n) in t && Free(n) !in t
    ensures |t| > 0 && t[|t| - 1] == Wait
  {
    FreedOnceAfter(before, n, t);
  }

  /**
    When the parent returns, every fragment buffer is freed exactly once
    after the send, `wait` is the last event, and the buffer allocated for
    the terminating zero-byte read is never freed.
   */
  lemma FragmentsFreedOnce(failure: Option<SetupStep>, data: seq<byte>, dataLen: nat,
                           writes: seq<Attempt<nat>>, steps: seq<ReadStep>, sends: seq<Attempt<nat>>,
                           t: seq<Event>)
    requires dataLen <= |data| && dataLen < UINT_RANGE
    requires Parent(failure, data, dataLen, writes, steps, sends) == SpawnRun(Return(0), t)
    ensures forall b :: 0 <= b < |Gather(steps).fragments| ==> Count(t, Free(b)) == 1
    ensures Alloc(|Gather(steps).fragments|) in t && Free(|Gather(steps).fragments|) !in t
    ensures |t| > 0 && t[|t| - 1] == Wait
  {
    ReturnShape(failure, data, dataLen, writes, steps, sends, t);
    var requests := Payload(data, dataLen, writes).requests;
    var g := Gather(steps);
    var release := ReleaseEvents(steps, g.rounds);
    var before := FeedEvents(requests) + release + SendEvents(g.fragments);
    NoFreesBefore(requests, steps, g.rounds, g.fragments);
    LastReadAllocated(steps);
    assert Alloc(|g.fragments|) in before;
    FreesAtEnd(before, |g.fragments|, t);
  }

  /** Each buffer number below `n` occurs exactly once among the free events. */
  lemma {:induction false} FreeEventsCount(n: nat, b: nat)
    requires b < n
    ensures Count(FreeEvents(n), Free(b)) == 1
  {
    if n - 1 == b {
      assert FreeEvents(n) == FreeEvents(n - 1) + [Free(b)];
      assert Free(b) !in FreeEvents(n - 1);
    } else {
      assert FreeEvents(n) == FreeEvents(n - 1) + [Free(n - 1)];
      FreeEventsCount(n - 1, b);
    }
  }

  /**
    The parent returns 0 even when the send of the gathered output is
    refused with a timeout: the send's result is only logged.
   */
  lemma ReturnsZeroDespiteSendFailure(data: seq<byte>, dataLen: nat, writes: seq<Attempt<nat>>,
                                      steps: seq<ReadStep>, sends: seq<Attempt<nat>>)
    requires dataLen <= |data| && dataLen < UINT_RANGE
    requires Payload(data, dataLen, writes).outcome.Return?
    requires Gather(steps).outcome.Return?
    requires sends == [Err(ETIMEDOUT)]
    ensures Socket.Settle(sends, SendIovFailed) == Return(-1)
    ensures Parent(None, data, dataLen, writes, steps, sends).outcome == Return(0)
  {
    assert SettledAt(sends) == 0;
  }
}
