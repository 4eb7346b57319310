/**
  The option parser of `src/lib/options.c`. `getopt_long` and `atoi` are not
  modelled: the parser is fed the stream of options `getopt_long` would
  return, each already carrying its integer or string argument.
 */
module Options {
  import opened NnioTypes

  /** Scalability-protocol numbers of the nanomsg headers. */
  const NN_PAIR: int := 16
  const NN_PUB: int := 32
  const NN_SUB: int := 33
  const NN_REQ: int := 48
  const NN_REP: int := 49
  const NN_PUSH: int := 80
  const NN_PULL: int := 81
  const NN_SURVEYOR: int := 98
  const NN_RESPONDENT: int := 99
  const NN_BUS: int := 112

  /** The table `protocol_names` scanned by `check_protocol`, in its order. */
  const ProtocolTable: seq<(string, int)> := [
    ("push", NN_PUSH), ("pull", NN_PULL), ("pub", NN_PUB), ("sub", NN_SUB),
    ("req", NN_REQ), ("rep", NN_REP), ("bus", NN_BUS), ("pair", NN_PAIR),
    ("surveyor", NN_SURVEYOR), ("respondent", NN_RESPONDENT)
  ]

  /** Reference meaning of a protocol name: the nanomsg protocol it names, if any. */
  function ProtocolOf(name: string): (r: Option<int>)
    ensures r.Some? ==> (name, r.value) in ProtocolTable
  {
    if name == "push" then Some(NN_PUSH)
    else if name == "pull" then Some(NN_PULL)
    else if name == "pub" then Some(NN_PUB)
    else if name == "sub" then Some(NN_SUB)
    else if name == "req" then Some(NN_REQ)
    else if name == "rep" then Some(NN_REP)
    else if name == "bus" then Some(NN_BUS)
    else if name == "pair" then Some(NN_PAIR)
    else if name == "surveyor" then Some(NN_SURVEYOR)
    else if name == "respondent" then Some(NN_RESPONDENT)
    else None
  }

  /** Every entry of the table maps its name to the protocol the reference gives it. */
  lemma TableAgrees(j: nat)
    requires j < |ProtocolTable|
    ensures ProtocolOf(ProtocolTable[j].0) == Some(ProtocolTable[j].1)
  {
    if j == 0 {} else if j == 1 {} else if j == 2 {} else if j == 3 {} else if j == 4 {}
    else if j == 5 {} else if j == 6 {} else if j == 7 {} else if j == 8 {} else {}
  }

  /** A name outside the table names no protocol. */
  lemma OutsideTable(name: string)
    requires forall j :: 0 <= j < |ProtocolTable| ==> ProtocolTable[j].0 != name
    ensures ProtocolOf(name) == None
  {
    assert ProtocolTable[0].0 == "push" && ProtocolTable[1].0 == "pull";
    assert ProtocolTable[2].0 == "pub" && ProtocolTable[3].0 == "sub";
    assert ProtocolTable[4].0 == "req" && ProtocolTable[5].0 == "rep";
    assert ProtocolTable[6].0 == "bus" && ProtocolTable[7].0 == "pair";
    assert ProtocolTable[8].0 == "surveyor" && ProtocolTable[9].0 == "respondent";
  }

  /**
    `check_protocol`: scans the table for an exact match of `name`; a name
    that is not in the table is fatal.
   */
  method CheckProtocol(name: string) returns (r: Outcome<int>)
    ensures ProtocolOf(name).Some? ==> r == Return(ProtocolOf(name).value)
    ensures ProtocolOf(name).None? ==> r == Fatal(InvalidProtocol)
  {
    for i := 0 to |ProtocolTable|
      invariant forall j :: 0 <= j < i ==> ProtocolTable[j].0 != name
    {
      if ProtocolTable[i].0 == name {
        TableAgrees(i);
        return Return(ProtocolTable[i].1);
      }
    }
    OutsideTable(name);
    return Fatal(InvalidProtocol);
  }

  /** Distinct protocol names select distinct protocols. */
  lemma ProtocolOfInjective(a: string, b: string)
    requires ProtocolOf(a).Some? && ProtocolOf(a) == ProtocolOf(b)
    ensures a == b
  {
  }

  /** The ASCII lower-case form of a character. */
  function FoldChar(c: char): char
  {
    if 'A' <= c <= 'Z' then (c as int + 32) as char else c
  }

  /** The ASCII lower-case form of a string, character by character. */
  function FoldCase(s: string): (f: string)
    ensures |f| == |s|
  {
    seq(|s|, i requires 0 <= i < |s| => FoldChar(s[i]))
  }

  /** Every protocol name is written in lower case, so folding its case leaves it as it is. */
  lemma ProtocolNamesAreLowerCase(name: string)
    requires ProtocolOf(name).Some?
    ensures FoldCase(name) == name
  {
    assert forall i :: 0 <= i < |name| ==> !('A' <= name[i] <= 'Z');
    assert forall i :: 0 <= i < |name| ==> FoldCase(name)[i] == name[i];
  }

  /**
    The comparison is case-sensitive: a spelling that differs from a
    protocol name only in letter case names no protocol.
   */
  lemma ProtocolNamesAreCaseSensitive(name: string, other: string)
    requires ProtocolOf(name).Some? && other != name && FoldCase(other) == FoldCase(name)
    ensures ProtocolOf(other) == None
  {
    if ProtocolOf(other).Some? {
      ProtocolNamesAreLowerCase(name);
      ProtocolNamesAreLowerCase(other);
      assert false;
    }
  }

  /** One option as returned by `getopt_long`, with its converted argument. */
  datatype Opt =
    | Help                      // -h, --help
    | Version                   // -V, --version
    | Verbose                   // -v, --verbose
    | Quite                     // -q, --quite
    | Protocol(name: string)    // -p, --protocol
    | TxTimeout(ms: int)        // -t, --tx-timeout
    | RxTimeout(ms: int)        // -r, --rx-timeout
    | LingerTimeout(ms: int)    // -l, --linger-timeout
    | SocketName(name: string)  // -n, --socket-name
    | RemoteEndpoint            // -R, --remote-endpoint
    | LocalEndpoint             // -L, --local-endpoint
    | ExitDelay(us: int)        // -e
    | Exec(command: string)     // -E, --exec
    | Positional(arg: string)   // a non-option argument (code 1 under the leading '-')
    | Unrecognized              // '?' or any other code

  /**
    The fields of `nnio_options_t` the parser writes, plus the verbosity flag
    of `src/lib/util.c`. `localEndpoint`/`remoteEndpoint` record whether the
    field is non-NULL; when it is, it designates `url`.
   */
  datatype Settings = Settings(
    protocol: int,
    txTimeout: int,
    rxTimeout: int,
    lingerTimeout: int,
    socketName: Option<string>,
    localEndpoint: bool,
    remoteEndpoint: bool,
    exitDelay: int,
    exec: Option<string>,
    quite: bool,
    url: Option<string>,
    verbose: bool)

  /** The address an endpoint field designates: the url field when it is non-NULL. */
  function Address(set_: bool, s: Settings): Option<Option<string>>
  {
    if set_ then Some(s.url) else None
  }

  /** The initial values written before scanning; `url` and the verbosity are left as they were. */
  function Defaults(s: Settings): (d: Settings)
    ensures d.protocol == -1 && d.txTimeout == -1 && d.rxTimeout == -1 && d.lingerTimeout == -1
    ensures d.socketName == None && !d.localEndpoint && !d.remoteEndpoint && d.exec == None
    ensures d.exitDelay == 0 && !d.quite
    ensures d.url == s.url && d.verbose == s.verbose
  {
    s.(protocol := -1, txTimeout := -1, rxTimeout := -1, lingerTimeout := -1,
       socketName := None, localEndpoint := false, remoteEndpoint := false,
       exitDelay := 0, exec := None, quite := false)
  }

  /** Whether an option ends the scan: help, version, an unrecognised option or an invalid protocol. */
  predicate Stops(o: Opt)
  {
    o.Help? || o.Version? || o.Unrecognized? || (o.Protocol? && ProtocolOf(o.name).None?)
  }

  /** The fields an option can write, one per option. */
  datatype Field =
    | ProtocolField | TxField | RxField | LingerField | NameField | LocalField | RemoteField
    | ExitDelayField | ExecField | QuiteField | UrlField | VerboseField

  /** The field an option writes, if any. */
  function Target(o: Opt): Option<Field>
  {
    match o
    case Verbose => Some(VerboseField)
    case Quite => Some(QuiteField)
    case Protocol(_) => Some(ProtocolField)
    case TxTimeout(_) => Some(TxField)
    case RxTimeout(_) => Some(RxField)
    case LingerTimeout(_) => Some(LingerField)
    case SocketName(_) => Some(NameField)
    case RemoteEndpoint => Some(RemoteField)
    case LocalEndpoint => Some(LocalField)
    case ExitDelay(_) => Some(ExitDelayField)
    case Exec(_) => Some(ExecField)
    case Positional(_) => Some(UrlField)
    case _ => None
  }

  /** Two settings agree on one field. */
  predicate Agree(s: Settings, t: Settings, f: Field)
  {
    match f
    case ProtocolField => s.protocol == t.protocol
    case TxField => s.txTimeout == t.txTimeout
    case RxField => s.rxTimeout == t.rxTimeout
    case LingerField => s.lingerTimeout == t.lingerTimeout
    case NameField => s.socketName == t.socketName
    case LocalField => s.localEndpoint == t.localEndpoint
    case RemoteField => s.remoteEndpoint == t.remoteEndpoint
    case ExitDelayField => s.exitDelay == t.exitDelay
    case ExecField => s.exec == t.exec
    case QuiteField => s.quite == t.quite
    case UrlField => s.url == t.url
    case VerboseField => s.verbose == t.verbose
  }

  /** The effect of one non-stopping option: it overwrites its own field with its argument. */
  function Apply(s: Settings, o: Opt): (t: Settings)
    requires !Stops(o)
    ensures forall f :: Target(o) != Some(f) ==> Agree(t, s, f)
    ensures o.Protocol? ==> t.protocol == ProtocolOf(o.name).value
    ensures o.TxTimeout? ==> t.txTimeout == o.ms
    ensures o.RxTimeout? ==> t.rxTimeout == o.ms
    ensures o.LingerTimeout? ==> t.lingerTimeout == o.ms
    ensures o.SocketName? ==> t.socketName == Some(o.name)
    ensures o.ExitDelay? ==> t.exitDelay == o.us
    ensures o.Exec? ==> t.exec == Some(o.command)
    ensures o.Positional? ==> t.url == Some(o.arg)
    ensures o.LocalEndpoint? ==> t.localEndpoint
    ensures o.RemoteEndpoint? ==> t.remoteEndpoint
    ensures o.Quite? ==> t.quite
    ensures o.Verbose? ==> t.verbose
  {
    match o
    case Verbose => s.(verbose := true)
    case Quite => s.(quite := true)
    case Protocol(name) => s.(protocol := ProtocolOf(name).value)
    case TxTimeout(ms) => s.(txTimeout := ms)
    case RxTimeout(ms) => s.(rxTimeout := ms)
    case LingerTimeout(ms) => s.(lingerTimeout := ms)
    case SocketName(name) => s.(socketName := Some(name))
    case RemoteEndpoint => s.(remoteEndpoint := true)
    case LocalEndpoint => s.(localEndpoint := true)
    case ExitDelay(us) => s.(exitDelay := us)
    case Exec(command) => s.(exec := Some(command))
    case Positional(arg) => s.(url := Some(arg))
  }

  /** The settings after applying a stream of non-stopping options from left to right. */
  function Fold(opts: seq<Opt>, s: Settings): Settings
    requires forall j :: 0 <= j < |opts| ==> !Stops(opts[j])
  {
    if opts == [] then s
    else Apply(Fold(opts[..|opts| - 1], s), opts[|opts| - 1])
  }

  /** Index of the first option that ends the scan, or `|opts|`. */
  function FirstStop(opts: seq<Opt>): (k: nat)
    ensures k <= |opts|
    ensures forall j :: 0 <= j < k ==> !Stops(opts[j])
    ensures k < |opts| ==> Stops(opts[k])
  {
    if opts == [] then 0
    else if Stops(opts[0]) then 0
    else 1 + FirstStop(opts[1..])
  }

  /** How a stopping option ends `nnio_options_parse`. */
  datatype ParseEnd = Rc(value: int) | ShowUsage | ShowVersion

  /** The result of a stopping option. */
  function StopOutcome(o: Opt): Outcome<ParseEnd>
    requires Stops(o)
  {
    match o
    case Help => Return(ShowUsage)
    case Version => Return(ShowVersion)
    case Protocol(_) => Fatal(InvalidProtocol)
    case _ => Return(Rc(-1))
  }

  /** The checks after a complete scan. */
  function Finish(s: Settings): Outcome<ParseEnd>
  {
    if !s.remoteEndpoint && !s.localEndpoint then Fatal(EndpointFlagRequired)
    else if s.url.None? then Fatal(UrlRequired)
    else Return(Rc(0))
  }

  /** Reference result of `nnio_options_parse` on a stream, from the settings it starts with. */
  function ParseOutcome(opts: seq<Opt>, s: Settings): (r: Outcome<ParseEnd>)
    ensures !r.Unfinished?
    ensures r.Return? && r.value.Rc? ==> r.value.value == 0 || r.value.value == -1
    ensures r.Fatal? ==> r.site == InvalidProtocol || r.site == EndpointFlagRequired || r.site == UrlRequired
  {
    var k := FirstStop(opts);
    if k < |opts| then StopOutcome(opts[k]) else Finish(Fold(opts, Defaults(s)))
  }

  /** Reference settings after `nnio_options_parse`: the options before the first stop, folded over the defaults. */
  function ParseSettings(opts: seq<Opt>, s: Settings): Settings
  {
    Fold(opts[..FirstStop(opts)], Defaults(s))
  }

  /** Folding a concatenation folds the second part over the result of the first. */
  lemma {:induction false} FoldAppend(a: seq<Opt>, b: seq<Opt>, s: Settings)
    requires forall j :: 0 <= j < |a| ==> !Stops(a[j])
    requires forall j :: 0 <= j < |b| ==> !Stops(b[j])
    ensures forall j :: 0 <= j < |a + b| ==> !Stops((a + b)[j])
    ensures Fold(a + b, s) == Fold(b, Fold(a, s))
    decreases |b|
  {
    assert forall j :: 0 <= j < |a + b| ==> !Stops((a + b)[j]) by {
      forall j | 0 <= j < |a + b| ensures !Stops((a + b)[j]) {
        if j < |a| { assert (a + b)[j] == a[j]; } else { assert (a + b)[j] == b[j - |a|]; }
      }
    }
    if b == [] {
      assert a + b == a;
    } else {
      var b' := b[..|b| - 1];
      assert (a + b)[..|a + b| - 1] == a + b';
      assert (a + b)[|a + b| - 1] == b[|b| - 1];
      FoldAppend(a, b', s);
    }
  }

  /** Options that do not target a field leave it as it was. */
  lemma {:induction false} FoldLeaves(opts: seq<Opt>, s: Settings, f: Field)
    requires forall j :: 0 <= j < |opts| ==> !Stops(opts[j]) && Target(opts[j]) != Some(f)
    ensures Agree(Fold(opts, s), s, f)
    decreases |opts|
  {
    if opts != [] {
      FoldLeaves(opts[..|opts| - 1], s, f);
      var t := Fold(opts[..|opts| - 1], s);
      assert Agree(Apply(t, opts[|opts| - 1]), t, f);
    }
  }

  /**
    The last occurrence wins: after `pre + [o] + rest`, where no option of
    `rest` writes the field of `o`, that field holds what `o` wrote.
   */
  lemma LastOccurrenceWins(pre: seq<Opt>, o: Opt, rest: seq<Opt>, s: Settings, f: Field)
    requires forall j :: 0 <= j < |pre| ==> !Stops(pre[j])
    requires !Stops(o) && Target(o) == Some(f)
    requires forall j :: 0 <= j < |rest| ==> !Stops(rest[j]) && Target(rest[j]) != Some(f)
    ensures forall j :: 0 <= j < |pre + [o] + rest| ==> !Stops((pre + [o] + rest)[j])
    ensures Agree(Fold(pre + [o] + rest, s), Apply(Fold(pre, s), o), f)
  {
    FoldAppend(pre, [o], s);
    assert [o][..0] == [];
    assert Fold([o], Fold(pre, s)) == Apply(Fold(pre, s), o);
    FoldAppend(pre + [o], rest, s);
    FoldLeaves(rest, Fold(pre + [o], s), f);
  }

  /** An endpoint flag, once given, stays set: it is set exactly when the flag occurs or was already set. */
  lemma {:induction false} EndpointFlagsSticky(opts: seq<Opt>, s: Settings)
    requires forall j :: 0 <= j < |opts| ==> !Stops(opts[j])
    ensures Fold(opts, s).localEndpoint <==> s.localEndpoint || LocalEndpoint in opts
    ensures Fold(opts, s).remoteEndpoint <==> s.remoteEndpoint || RemoteEndpoint in opts
    decreases |opts|
  {
    if opts != [] {
      var init := opts[..|opts| - 1];
      EndpointFlagsSticky(init, s);
      assert opts == init + [opts[|opts| - 1]];
      assert LocalEndpoint in opts <==> LocalEndpoint in init || opts[|opts| - 1] == LocalEndpoint;
      assert RemoteEndpoint in opts <==> RemoteEndpoint in init || opts[|opts| - 1] == RemoteEndpoint;
    }
  }

  /**
    `-L` aliases the url field: with `-L` anywhere in a complete scan and
    `u` the last positional argument, the local address is `u`, whether the
    positional argument comes before or after the flag.
   */
  lemma LocalAddressIsLastPositional(pre: seq<Opt>, u: string, rest: seq<Opt>, s: Settings)
    requires FirstStop(pre + [Positional(u)] + rest) == |pre + [Positional(u)] + rest|
    requires LocalEndpoint in pre + [Positional(u)] + rest
    requires forall j :: 0 <= j < |rest| ==> !rest[j].Positional?
    ensures Address(ParseSettings(pre + [Positional(u)] + rest, s).localEndpoint,
                    ParseSettings(pre + [Positional(u)] + rest, s)) == Some(Some(u))
  {
    var all := pre + [Positional(u)] + rest;
    assert all[..|all|] == all;
    forall j | 0 <= j < |pre| ensures !Stops(pre[j]) { assert pre[j] == all[j]; }
    forall j | 0 <= j < |rest| ensures !Stops(rest[j]) && Target(rest[j]) != Some(UrlField) {
      assert rest[j] == all[|pre| + 1 + j];
    }
    LastOccurrenceWins(pre, Positional(u), rest, Defaults(s), UrlField);
    EndpointFlagsSticky(all, Defaults(s));
  }

  /** `nnio_options_parse` returns 0 exactly when the scan completes with an endpoint flag and a url. */
  lemma ParseSucceedsIff(opts: seq<Opt>, s: Settings)
    ensures ParseOutcome(opts, s) == Return(Rc(0)) <==>
      && FirstStop(opts) == |opts|
      && (ParseSettings(opts, s).localEndpoint || ParseSettings(opts, s).remoteEndpoint)
      && ParseSettings(opts, s).url.Some?
  {
    if FirstStop(opts) == |opts| {
      assert opts[..FirstStop(opts)] == opts;
    }
  }

  /** An unrecognised option returns -1 at once, whatever follows it. */
  lemma UnrecognizedReturnsAtOnce(pre: seq<Opt>, rest: seq<Opt>, s: Settings)
    requires forall j :: 0 <= j < |pre| ==> !Stops(pre[j])
    ensures ParseOutcome(pre + [Unrecognized] + rest, s) == Return(Rc(-1))
  {
    var all := pre + [Unrecognized] + rest;
    FirstStopAt(pre, Unrecognized, rest);
  }

  /** The first stop of `pre + [o] + rest` is `o` when `pre` holds no stopping option. */
  lemma {:induction false} FirstStopAt(pre: seq<Opt>, o: Opt, rest: seq<Opt>)
    requires forall j :: 0 <= j < |pre| ==> !Stops(pre[j])
    requires Stops(o)
    ensures FirstStop(pre + [o] + rest) == |pre|
    ensures (pre + [o] + rest)[|pre|] == o
  {
    var all := pre + [o] + rest;
    assert all[|pre|] == o;
    assert forall j :: 0 <= j < |pre| ==> all[j] == pre[j];
  }

  /**
    The `nnio_options_t` structure the caller passes to the parser, with the
    verbosity flag of `src/lib/util.c` beside it.
   */
  class OptionsStruct {
    var protocol: int
    var txTimeout: int
    var rxTimeout: int
    var lingerTimeout: int
    var socketName: Option<string>
    var localEndpoint: bool
    var remoteEndpoint: bool
    var exitDelay: int
    var exec: Option<string>
    var quite: bool
    var url: Option<string>
    var verbose: bool

    /** The fields as one value. */
    function Snapshot(): Settings
      reads this
    {
      Settings(protocol, txTimeout, rxTimeout, lingerTimeout, socketName, localEndpoint,
               remoteEndpoint, exitDelay, exec, quite, url, verbose)
    }

    /** The drivers' `nnio_options_t options = { .show_usage = ... }`: every other field zeroed. */
    constructor ()
      ensures Snapshot() == Settings(0, 0, 0, 0, None, false, false, 0, None, false, None, false)
    {
      protocol, txTimeout, rxTimeout, lingerTimeout := 0, 0, 0, 0;
      socketName, localEndpoint, remoteEndpoint := None, false, false;
      exitDelay, exec, quite, url, verbose := 0, None, false, None, false;
    }

    /** The cases of the option switch that only store their argument in their field. */
    method Store(o: Opt)
      requires !Stops(o) && !o.Protocol?
      modifies this
      ensures Snapshot() == Apply(old(Snapshot()), o)
    {
      match o {
        case Verbose => verbose := true;
        case Quite => quite := true;
        case TxTimeout(ms) => txTimeout := ms;
        case RxTimeout(ms) => rxTimeout := ms;
        case LingerTimeout(ms) => lingerTimeout := ms;
        case SocketName(name) => socketName := Some(name);
        case RemoteEndpoint => remoteEndpoint := true;
        case LocalEndpoint => localEndpoint := true;
        case ExitDelay(us) => exitDelay := us;
        case Exec(command) => exec := Some(command);
        case Positional(arg) => url := Some(arg);
      }
    }

    /**
      The `getopt_long` loop of `nnio_options_parse`: applies the options in
      order; at the first one that ends the scan, reports how it ends it.
     */
    method Scan(opts: seq<Opt>) returns (stopped: Option<Outcome<ParseEnd>>)
      modifies this
      ensures Snapshot() == Fold(opts[..FirstStop(opts)], old(Snapshot()))
      ensures FirstStop(opts) < |opts| ==> stopped == Some(StopOutcome(opts[FirstStop(opts)]))
      ensures FirstStop(opts) == |opts| ==> stopped == None
    {
      ghost var s0 := Snapshot();
      assert opts[..0] == [];
      var i := 0;
      while i < |opts|
        invariant i <= |opts|
        invariant forall j :: 0 <= j < i ==> !Stops(opts[j])
        invariant Snapshot() == Fold(opts[..i], s0)
      {
        var o := opts[i];
        ghost var before := Snapshot();
        assert opts[..i + 1][..i] == opts[..i] && opts[..i + 1][i] == o;
        match o {
          case Help =>
            StopHere(opts, i);
            return Some(Return(ShowUsage));
          case Version =>
            StopHere(opts, i);
            return Some(Return(ShowVersion));
          case Unrecognized =>
            StopHere(opts, i);
            return Some(Return(Rc(-1)));
          case Protocol(name) =>
            var p := CheckProtocol(name);
            if p.Fatal? {
              StopHere(opts, i);
              return Some(Fatal(p.site));
            }
            protocol := p.value;
          case _ =>
            Store(o);
        }
        assert Snapshot() == Apply(before, o);
        i := i + 1;
      }
      CompleteScan(opts);
      stopped := None;
    }

    /**
      `nnio_options_parse`: writes the defaults, then applies the options
      in order until one stops the scan, then checks that an endpoint flag
      and a url were given.
     */
    method Parse(opts: seq<Opt>) returns (r: Outcome<ParseEnd>)
      modifies this
      ensures r == ParseOutcome(opts, old(Snapshot()))
      ensures Snapshot() == ParseSettings(opts, old(Snapshot()))
    {
      protocol, txTimeout, rxTimeout, lingerTimeout := -1, -1, -1, -1;
      socketName, localEndpoint, remoteEndpoint := None, false, false;
      exitDelay, exec, quite := 0, None, false;
      assert Snapshot() == Defaults(old(Snapshot()));
      var stopped := Scan(opts);
      if stopped.Some? {
        return stopped.value;
      }
      assert opts[..FirstStop(opts)] == opts;
      if !remoteEndpoint && !localEndpoint {
        return Fatal(EndpointFlagRequired);
      }
      if url.None? {
        return Fatal(UrlRequired);
      }
      return Return(Rc(0));
    }
  }

  /** A stream without a stopping option is scanned to its end and then checked. */
  lemma CompleteScan(opts: seq<Opt>)
    requires forall j :: 0 <= j < |opts| ==> !Stops(opts[j])
    ensures FirstStop(opts) == |opts| && opts[..|opts|] == opts
  {
    assert opts[..|opts|] == opts;
  }

  /** The scan stops at `i` when nothing before it stopped and `opts[i]` does. */
  lemma StopHere(opts: seq<Opt>, i: nat)
    requires i < |opts| && Stops(opts[i])
    requires forall j :: 0 <= j < i ==> !Stops(opts[j])
    ensures FirstStop(opts) == i
  {
  }
}
