# nanoio, modelled in Dafny

nanoio is a small set of command-line tools built on the nanomsg
scalability-protocols library. This project models the shared library
(`nnio`) and the two service drivers:

- `nanoserver` is a REP service. It receives a message and either echoes it
  back or hands it to a command (`--exec`), whose standard output becomes
  the reply.
- `nanoread` is a PULL reader. It receives one message and writes it to
  standard output.

Every call into nanomsg or the operating system becomes an oracle: a
sequence of `Attempt`s (`Ok(value)` or `Err(errno)`) that the model consumes
in order. A run therefore comes out in one of three ways: it returns, it
stops at one named `nnio_error_assert` site (`Fatal(site)`), or it runs past
the attempts it was given (`Unfinished`). The EINTR retry loops of the
wrappers are modelled by `SettledAt`, the index of the first attempt that
was not interrupted.

Modules:

- `NnioTypes` holds the shared types, the error sites, `PIPE_BUF`, `INT_MAX`
  and the EINTR retry.
- `Socket` models `src/lib/socket.c`: opening with its four option setters,
  closing, `tx`, `rx` and `tx_iov`.
- `Endpoint` models `src/lib/endpoint.c`: adding a local or remote endpoint,
  and deleting one.
- `CommandLine` models `construct_argv` of `src/lib/nnio.c`. It works in
  place on a character array: it cuts the string into space-separated words,
  terminates each word with NUL, and records where each word starts. It is
  proved against a reference word splitter `Words`, which has an inverse
  `Unwords`.
- `Options` models `src/lib/options.c`:
  - the protocol-name table;
  - the `getopt` loop, as a fold over already-tokenised options;
  - the final checks;
  - the options structure, as a class whose `Parse` updates it in place.
- `Spawn` models the parent side of `nnio_spawn`. Its imperative methods are
  proved against trace-producing reference functions. The parent:
  1. writes the payload to the child;
  2. posts the semaphore;
  3. gathers the child's output in `PIPE_BUF` fragments (a failed buffer
     allocation, read or growth of the fragment vector is fatal);
  4. sends the fragments as one message;
  5. frees them.
- `Lifecycle` models what both drivers share. A driver run is a sequence of
  resource `Action`s, checked against a discipline: a socket is opened once,
  an endpoint is deleted before its socket is closed, and a message buffer
  is freed exactly once. The module also holds:
  - the common start: open, require `-L`, bind;
  - the common end: delete the endpoint, close the socket;
  - the receive as the drivers use it.
- `Nanoserver` and `Nanoread` model the two `main` functions. Each has:
  - a reference function, `Server` or `Reader`;
  - an imperative `Run` proved equal to it;
  - lemmas on main's return value, resource discipline and buffer balance.

Where the code and its documentation differ, the model follows the code:

- `nnio_spawn` returns 0 even when sending the command's output fails. It
  logs the failure and carries on, so `nanoserver --exec` goes on serving
  (`Spawn.ReturnsZeroDespiteSendFailure`).
- When the gather loop ends, its last `PIPE_BUF` buffer is never freed: the
  buffer allocated for the zero-byte read at `src/lib/nnio.c:194-200`
  (`Spawn.FragmentsFreedOnce`).
- `nnio_options_parse` returns -1 on an unrecognised option, and both drivers
  ignore that value. They go on with the settings gathered so far, so the url
  may be unset. `nnio_endpoint_add_local` then returns -1 and the driver
  closes its socket (`Nanoserver.ServerEndpointRequired`).
- The long option `--exit-delay` is declared `no_argument` while `-e` takes
  one. The model takes the option's value as given.

## Model

| member | source | states |
|---|---|---|
| NnioTypes.SettledAt | src/lib/socket.c:136-146 | the index where an EINTR-retry loop settles: every earlier attempt was interrupted, and the attempt there (if any) was not |
| NnioTypes.SettledAtSkipsInterrupts | src/lib/socket.c:136-146 | putting n interrupted attempts in front moves the settling point by exactly n |
| NnioTypes.Retry | src/lib/socket.c:37-46 | a retry-until-not-interrupted call is unfinished exactly when every attempt was interrupted; otherwise it returns exactly when the first non-interrupted attempt succeeded and is fatal, at its own site, exactly when that attempt failed |
| Socket.SetTimeout | src/lib/socket.c:49-60 | a negative timeout is not applied and gives -1; otherwise the option is applied and the call returns 0 or stops at its assertion site, as the library call succeeds or fails |
| Socket.SetTxTimeout | src/lib/socket.c:49-60 | the send timeout is set only for a non-negative value; a refused setting is fatal |
| Socket.SetRxTimeout | src/lib/socket.c:62-73 | the receive timeout is set only for a non-negative value; a refused setting is fatal |
| Socket.SetLingerTimeout | src/lib/socket.c:75-86 | the linger timeout is set only for a non-negative value; a refused setting is fatal |
| Socket.SetName | src/lib/socket.c:88-99 | the socket name is set, with its length, only when one is given; a refused setting is fatal |
| Socket.Open | src/lib/socket.c:15-30 | a failed create is fatal before any option; a socket is returned (non-negative) exactly when every requested option was accepted, and then exactly the requested options were applied, in order |
| Socket.Close | src/lib/socket.c:32-47 | close is retried while interrupted; it returns on the first success and any other failure is fatal, after exactly one call past the interruptions |
| Socket.Tx | src/lib/socket.c:101-129 | every call offers the whole message; the first non-interrupted call decides: its byte count, -1 on a timeout or EAGAIN, fatal otherwise |
| Socket.Rx | src/lib/socket.c:131-161 | the first non-interrupted receive decides; on success the message, its length and the cleared errno are handed back, and on any other result nothing is handed back |
| Socket.TxIov | src/lib/socket.c:163-195 | the header carries exactly the fragments and their count with no control data; the result follows the same rule as Tx |
| Socket.InterruptsInvisible | src/lib/socket.c:101-129 | any number of interrupted attempts in front does not change which attempt decides the result |
| Endpoint.AddLocal | src/lib/endpoint.c:15-31 | no address gives -1 with no bind; a successful bind returns its id and clears errno; a failed bind is fatal |
| Endpoint.AddRemote | src/lib/endpoint.c:33-55 | the result is -1 exactly when there is no address or the connection was refused; other failures are fatal |
| Endpoint.Delete | src/lib/endpoint.c:57-71 | shutdown is retried while interrupted; the first success returns and any other failure is fatal |
| CommandLine.StrLen | src/lib/nnio.c:48 | the length up to the first NUL: no NUL before it, a NUL at it if the buffer is longer |
| CommandLine.RunLength | src/lib/nnio.c:72-73 | the length of the leading run of non-space characters |
| CommandLine.Words | src/lib/nnio.c:59-84 | a string of n characters has at most n words |
| CommandLine.WordsAreValid | src/lib/nnio.c:59-84 | every word is non-empty and free of spaces, and free of NUL when the input is |
| CommandLine.AllSpaceHasNoWords | src/lib/nnio.c:62-69 | a string of spaces only yields no arguments |
| CommandLine.WordsSkipLeadingSpace | src/lib/nnio.c:62-64 | leading spaces do not change the words |
| CommandLine.WordsOfTokenThenRest | src/lib/nnio.c:71-83 | a word followed by a space or the end is the first argument, followed by the words of the rest |
| CommandLine.WordsUnwords | src/lib/nnio.c:59-84 | joining valid words with single spaces and splitting again gives the same words back |
| CommandLine.SkipSpaces | src/lib/nnio.c:63-64 | the scan stops at the first character that is NUL or not a space, having passed only spaces |
| CommandLine.SkipToken | src/lib/nnio.c:72-73 | the scan stops at the first NUL or space, having passed only word characters |
| CommandLine.TerminateToken | src/lib/nnio.c:82-83 | the character ending a word becomes NUL in place and the scan resumes after it, unless it was the end |
| CommandLine.NextToken | src/lib/nnio.c:59-84 | one round of the scan keeps the invariant: the buffer is the input with NUL after each word found, and the recorded words are the first words of the input |
| CommandLine.Tokenise | src/lib/nnio.c:56-84 | after the scan the argument vector holds exactly the words of the input, each starting where it was found and NUL-terminated in place |
| CommandLine.ConstructArgv | src/lib/nnio.c:45-87 | the copy holds the argument up to its first NUL; argc is the number of words; argv has argc entries then NULL, each a NUL-terminated word of the argument, in order |
| Options.ProtocolOf | src/lib/options.c:27-49 | a name that selects a protocol is paired with that protocol in the table |
| Options.TableAgrees | src/lib/options.c:27-39 | each name of the protocol table maps to its own protocol |
| Options.OutsideTable | src/lib/options.c:41-44 | a name not in the table has no protocol |
| Options.CheckProtocol | src/lib/options.c:21-49 | a known name returns its protocol and an unknown one is fatal |
| Options.ProtocolOfInjective | src/lib/options.c:27-39 | no two names map to the same protocol |
| Options.ProtocolNamesAreLowerCase | src/lib/options.c:27-39 | every name in the protocol table is written in lower case |
| Options.ProtocolNamesAreCaseSensitive | src/lib/options.c:41-44 | names are compared exactly with strcmp: any spelling that differs from a protocol name only in letter case names no protocol |
| Options.Defaults | src/lib/options.c:72-82 | the initial values: -1 protocol and timeouts, no name, endpoint, command or delay, not quiet; the url and verbosity are left as they were |
| Options.Apply | src/lib/options.c:91-139 | an option changes exactly its own field, to the value it carries |
| Options.FirstStop | src/lib/options.c:84-97 | the position of the first option that ends the loop (-h, -V, an unrecognised one, or a -p whose name is not in the protocol table) |
| Options.FoldAppend | src/lib/options.c:84-140 | folding two runs of options one after the other is folding their concatenation |
| Options.FoldLeaves | src/lib/options.c:91-139 | a field no option targets keeps its value |
| Options.LastOccurrenceWins | src/lib/options.c:107-136 | an option's field is set by its last occurrence |
| Options.EndpointFlagsSticky | src/lib/options.c:122-127 | -L and -R are set exactly when they appear or were already set |
| Options.LocalAddressIsLastPositional | src/lib/options.c:125-136 | after -L the local address is the last positional argument |
| Options.ParseOutcome | src/lib/options.c:51-148 | parsing always ends; it returns 0 or -1 (or asks for usage or version), or fails at the invalid-protocol, endpoint-flag or url check |
| Options.ParseSucceedsIff | src/lib/options.c:142-147 | parsing returns 0 exactly when no option stops it, -L or -R was given and a url is set |
| Options.UnrecognizedReturnsAtOnce | src/lib/options.c:92-94 | an unrecognised option returns -1 whatever comes after it |
| Options.FirstStopAt | src/lib/options.c:84-97 | the loop stops at the first stopping option and not before |
| Options.OptionsStruct.constructor | src/nanoserver/nanoserver.c:90-92 | the drivers' structure starts with every field zeroed |
| Options.OptionsStruct.Store | src/lib/options.c:91-139 | one getopt case updates the structure as Apply says |
| Options.OptionsStruct.Scan | src/lib/options.c:84-140 | the loop stores every option before the first stopping one, and reports that option's outcome |
| Options.OptionsStruct.Parse | src/lib/options.c:51-148 | parse resets the fields, scans and checks; its result and the new structure are those of the reference parse |
| Spawn.AsInt | src/lib/nnio.c:170 | the (int) cast of an unsigned length is positive exactly for 1..INT_MAX |
| Spawn.Payload | src/lib/nnio.c:169-182 | at most one write per attempt, and nothing is written when `(int)data_len` is not positive |
| Spawn.PayloadRun | src/lib/nnio.c:169-182 | the payload loop makes at most one write per attempt |
| Spawn.PayloadFirstRequest | src/lib/nnio.c:171 | the first write offers the whole payload |
| Spawn.PayloadConsecutive | src/lib/nnio.c:177-181 | each following write offers what the previous one left |
| Spawn.PayloadSuffixes | src/lib/nnio.c:180-181 | every write offers a non-empty tail of the payload |
| Spawn.PayloadEnds | src/lib/nnio.c:169-182 | the loop ends when a write takes everything or fails with EPIPE; any other failed write is fatal |
| Spawn.PayloadDelivered | src/lib/nnio.c:169-182 | when the last write took everything left, the bytes taken are exactly the payload, in order |
| Spawn.WritePayload | src/lib/nnio.c:169-182 | the write loop produces the reference outcome and write requests |
| Spawn.Bytes | src/lib/nnio.c:197 | a read yields at most PIPE_BUF bytes |
| Spawn.Gather | src/lib/nnio.c:193-209 | the gather loop makes at most one round per step; a read that returned bytes is fatal when growing the iov vector fails |
| Spawn.GatherFragments | src/lib/nnio.c:193-209 | each fragment is the data of one successful non-empty read, of 1 to PIPE_BUF bytes, in order; the loop stops at the first step that does not append |
| Spawn.GatherEnds | src/lib/nnio.c:194-203 | the loop returns exactly at a zero-byte read; a failed buffer allocation, a failed read, or a failed growth of the iov vector after a non-empty read is fatal at its own site, and no other site is reached |
| Spawn.TotalIsFlattenedLength | src/lib/nnio.c:206-208 | the running total is the length of the concatenated fragments |
| Spawn.FlattenIsBytesRead | src/lib/nnio.c:205-206 | the concatenated fragments are the bytes read, in order |
| Spawn.GatheredBytes | src/lib/nnio.c:190-209 | a completed gather holds exactly the child's output, and its total is that output's length |
| Spawn.GatherEventKinds | src/lib/nnio.c:193-209 | the gather performs only allocations and reads of buffers it numbered, and allocates a buffer at every step that did not fail to allocate |
| Spawn.GatherOutput | src/lib/nnio.c:190-209 | the gather loop produces the reference fragments, outcome and events, and a total equal to the fragments' length |
| Spawn.Parent | src/lib/nnio.c:89-232 | the parent returns only 0; a failed set-up step is fatal before anything else |
| Spawn.ParentSites | src/lib/nnio.c:95-231 | every fatal end is one of the parent's own assertion sites (set-up, write, buffer allocation, read, iov growth, send); the parent returns 0 exactly when set-up, writes, gather and send all returned, whatever the send returned |
| Spawn.FreeFragments | src/lib/nnio.c:225-229 | every fragment is freed, then the vector, then the child is waited for |
| Spawn.SendAndFree | src/lib/nnio.c:219-229 | the send and release stage produces the reference outcome and events |
| Spawn.ReleaseAndGather | src/lib/nnio.c:184-229 | the stage from releasing the child to waiting for it produces the reference outcome and events |
| Spawn.SpawnParent | src/lib/nnio.c:166-231 | the parent produces the reference outcome and events |
| Spawn.SemaphorePostedOnceBeforeReads | src/lib/nnio.c:184-197 | the semaphore is posted exactly once when the payload stage ends normally (never otherwise), after the input pipe is closed and before any output is read |
| Spawn.FragmentsFreedOnce | src/lib/nnio.c:194-227 | on return every fragment is freed exactly once, the buffer of the final zero-byte read is allocated but never freed, and the last event is the wait |
| Spawn.FreeEventsCount | src/lib/nnio.c:225-226 | the release loop frees each fragment exactly once |
| Spawn.ReturnsZeroDespiteSendFailure | src/lib/nnio.c:219-231 | a send that times out gives -1, yet the parent returns 0 |
| Lifecycle.CleanBalancesBuffers | src/nanoserver/nanoserver.c:119-158 | a run that keeps the discipline and ends without a buffer frees exactly one buffer per message received |
| Lifecycle.Teardown | src/nanoserver/nanoserver.c:160-176 | a tear-down that returns gives back the driver's rc; one that fails does so at the shutdown or close site |
| Lifecycle.TeardownOrder | src/nanoserver/nanoserver.c:160-176 | with an endpoint the tear-down deletes it first; without one it is the close alone; it returns the driver's rc exactly when both calls succeed, closing the socket last, and otherwise fails at their sites |
| Lifecycle.TeardownDiscipline | src/nanoserver/nanoserver.c:171-174 | the tear-down keeps the discipline and leaves nothing held when it returns |
| Lifecycle.Cleanup | src/nanoread/nanoread.c:101-107 | the imperative tear-down produces the reference outcome and actions |
| Lifecycle.ParseOptions | src/nanoserver/nanoserver.c:90-94 | parsing into a fresh structure gives the reference settings and the reference early exit |
| Lifecycle.Begin | src/nanoserver/nanoserver.c:101-114 | a start that succeeds required -L and a url, and did exactly two things: open a socket of the requested protocol, then add the endpoint for the url; a start that stops and returns gives -1; any action it took begins with opening the socket |
| Lifecycle.BeginCases | src/nanoserver/nanoserver.c:101-114 | a driver that gets through the start holds an open socket and endpoint, with -L set, a url and the bound id; a start that stops keeps the discipline, deletes no endpoint, and returns only -1 with nothing held; without -L it is fatal right after opening |
| Lifecycle.Attach | src/nanoserver/nanoserver.c:101-114 | the imperative start produces the reference result |
| Lifecycle.Receipt | src/lib/socket.c:132-160 | the receive is decided by its first non-interrupted attempt: a delivered message is handed over exactly when that attempt succeeded; -1 exactly when it failed with a timeout or "try again"; fatal at the receive site exactly when it failed otherwise; unfinished when every attempt was interrupted |
| Lifecycle.ReceiveMessage | src/nanoserver/nanoserver.c:119-125 | the driver's receive gives the reference receipt, and a message no longer than INT_MAX |
| Nanoserver.OnePass | src/nanoserver/nanoserver.c:116-158 | a pass goes back to receiving only with --exec; without it a pass that ends on a result gives 0 or -1 |
| Nanoserver.Serve | src/nanoserver/nanoserver.c:116-146 | the loop makes at most one pass per round |
| Nanoserver.Server | src/nanoserver/nanoserver.c:85-177 | a server stopped by its options does nothing; otherwise its first action opens a REP socket |
| Nanoserver.PassCases | src/nanoserver/nanoserver.c:116-158 | a failed receive gives -1 and frees nothing; an empty message is freed and gives 0; a pass loops back only with --exec after a non-empty message, having freed it; with --exec a pass ends on a result only after a failed receive or an empty message; an echo pass receives, echoes and frees; without --exec a non-empty message is echoed, and the pass gives 0 when the echo is sent and -1 when the send times out, freeing the message in both cases, while a fatal send leaves it unfreed |
| Nanoserver.PassDiscipline | src/nanoserver/nanoserver.c:116-158 | every pass keeps the discipline, and a pass that loops back or returns holds no buffer |
| Nanoserver.ServeDiscipline | src/nanoserver/nanoserver.c:116-158 | the whole loop keeps the discipline and holds no buffer when it ends on a result |
| Nanoserver.EchoOnce | src/nanoserver/nanoserver.c:148-158 | without --exec only one pass runs and at most one message is received |
| Nanoserver.ExecLoopsUntilEmptyOrFailure | src/nanoserver/nanoserver.c:138-146 | with --exec every pass before the last ran the command; the last pass saw a failed receive (result -1) or an empty message (result 0) |
| Nanoserver.ServerDiscipline | src/nanoserver/nanoserver.c:85-177 | the server keeps the discipline on every path, and on return holds nothing and has freed one buffer per message received |
| Nanoserver.ServerEndpointRequired | src/nanoserver/nanoserver.c:107-114 | without -L the server fails fatally after opening; with -L but no url it closes its socket without deleting an endpoint and returns -1 |
| Nanoserver.ServerEndsWithTeardown | src/nanoserver/nanoserver.c:160-176 | a server whose loop returned ends by deleting its endpoint and then closing its socket, and main returns the loop's result |
| Nanoserver.RunPass | src/nanoserver/nanoserver.c:116-158 | one imperative pass produces the reference pass |
| Nanoserver.RunLoop | src/nanoserver/nanoserver.c:116-146 | the imperative loop produces the reference loop's outcome and actions |
| Nanoserver.Run | src/nanoserver/nanoserver.c:85-177 | the server's main produces the reference server's return value and actions |
| Nanoread.Handle | src/nanoread/nanoread.c:75-99 | a receive that returns gives 0 or -1; any actions start with the receive and end with freeing the message |
| Nanoread.HandleCases | src/nanoread/nanoread.c:75-99 | a failed receive gives -1 with nothing freed; an empty message is freed and gives 0; a non-empty message is printed once, then freed, and gives 0 |
| Nanoread.Reader | src/nanoread/nanoread.c:42-108 | a reader stopped by its options does nothing; otherwise its first action opens a PULL socket |
| Nanoread.ReaderOpensPull | src/nanoread/nanoread.c:56-60 | the reader opens a PULL socket and never sets a send timeout |
| Nanoread.ReaderDiscipline | src/nanoread/nanoread.c:42-108 | the reader keeps the discipline on every path, and on return holds nothing and has freed one buffer per message received |
| Nanoread.HandleDiscipline | src/nanoread/nanoread.c:75-99 | the receive and print keep the discipline and hold no buffer after |
| Nanoread.ReceiveAndPrint | src/nanoread/nanoread.c:75-99 | the receive, print and free step produces the reference handling of the receipt (-1 on a failed receive, 0 with the message freed once otherwise) |
| Nanoread.ReaderResult | src/nanoread/nanoread.c:64-107 | once bound, a reader whose main returns gives 0 exactly when a message was received and -1 exactly when the receive failed, and ends by deleting its endpoint and then closing its socket |
| Nanoread.Run | src/nanoread/nanoread.c:42-108 | the reader's main produces the reference reader's return value and actions |

## Left out

- The child side of `nnio_spawn` (`src/lib/nnio.c:125-164`) is not modelled:
  redirecting the pipes, waiting on the semaphore and `execvp`. It runs in
  another process. `construct_argv`, which it calls, is modelled on its own.
- Pipes, shared memory, the semaphore, `signal`, `wait` and the set-up
  system calls appear only as trace events or as the one set-up step that
  fails (`SetupStep`); their effects on the operating system are not modelled.
- Logging (`dbg`, `info`, `err`), the banner, `exit_notify` and verbosity are
  left out because they only print. `-v` is kept as a settings field.
- `nanoserver`'s `daemonlize` and the `usleep(exit_delay)` before clean-up
  are left out. Their only effects are on the process environment and on
  timing.
- `getopt_long` itself is not modelled: options arrive as already tokenised
  `Opt` values. `atoi` is not modelled either: numeric values arrive as
  integers.
- `src/lib/util.c` is not part of this model beyond the verbosity flag.
- Printing in `nanoread` is the `Print` action. Formatting with `%s` (which
  stops at the first NUL) is not modelled.
- CommandLine.ConstructArgv: the `malloc` and `realloc` failure assertions
  are not modelled, because allocation is taken to succeed.
- Spawn.Gather: `nr_iov` and `total_tx_len` are unbounded integers, so their
  unsigned wrap-around is not modelled. It would take more than 2^32
  fragments.
- Spawn.Bytes: a `read` that reports more than `PIPE_BUF` bytes is clamped
  to `PIPE_BUF`; the system call never does that.
- Spawn.Taken: a `write` that reports more than it was offered counts as
  having taken everything; the system call never does that.
- Lifecycle.ReceiveMessage: it requires every message `nn_recv` delivers to
  be at most `INT_MAX` bytes, because `nn_recv` reports the length as an `int`.
- Lifecycle.Begin: the `sock < 0` branch of both drivers is modelled, but
  `Socket.Open` never returns a negative socket, so it cannot be reached.
- Nanoserver.OnePass: the branch where `nnio_spawn` returns non-zero is
  modelled, but `Spawn.Parent` returns only 0, so it cannot be reached.
- Concurrency between the parent and the child is left out. The gather sees
  the child's output only as the sequence of `read` results.
