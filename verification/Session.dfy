/**
  The command handlers of one daemon connection as transitions of its device handle: which device is
  open, which handles were allocated and disposed, which reply codes were sent.
 */
module Session {
  import opened Names
  import opened Words
  import opened Wrappers

  const SUCCESS: int := 210
  const READY: int := 220
  const INFO: int := 230
  const NO_DEVS: int := 241
  const NO_DATA: int := 243
  const DATA_FOLLOWS: int := 301
  const NO_DEVICE: int := 400
  const CONNECT: int := 401
  const HANDSHAKE: int := 402
  const IO: int := 403
  const EXISTS: int := 410
  const TIMEOUT: int := 440
  const INVALID_COMMAND: int := 501
  const IRDA: int := 510
  const INTERNAL: int := 520
  const DEVICE: int := 540

  /** A command line with what the device and the parameter parser answer.  `rv` is the return value of
      the device call; `parsed` says whether sscanf accepted the parameters. */
  datatype Request =
    | Nothing
    | Close(hasParams: bool)
    | Enum(hasParams: bool, socket: bool, found: int, listed: nat)
    | Help(hasParams: bool)
    | Query(hasParams: bool, rv: int)
    | Stored(hasParams: bool, rv: int)
    | Open(hasParams: bool, parsed: bool, memory: bool, rv: int)
    | Token(hasParams: bool, parsed: bool, rv: int)
    | Xfer(hasParams: bool, rv: int, empty: bool)
    | Unknown

  datatype DeviceEvent = Alloc(id: nat) | Dispose(id: nat)

  /** The device handle of the connection, the number of handles allocated so far, and the history. */
  datatype State = State(dev: Option<nat>, handles: nat, log: seq<DeviceEvent>, replies: seq<int>)

  function Reply(st: State, code: int): State {
    st.(replies := st.replies + [code])
  }

  function Replies(st: State, codes: seq<int>): State {
    st.(replies := st.replies + codes)
  }

  /** smartid_dev_dispose followed by clearing the handle. */
  function Drop(st: State): State
    requires st.dev.Some?
  {
    st.(dev := None, log := st.log + [Dispose(st.dev.value)])
  }

  /** How a failed device call is reported: the codes with a case of their own, else 520. */
  function ErrorCode(rv: int, known: set<int>): int {
    if rv in known then rv else INTERNAL
  }

  /** One handler.  CHECK_NO_PARAMS, CHECK_PARAMS and CHECK_DEVICE come first, in the order of the source. */
  function Handle(st: State, r: Request): State {
    match r
    case Nothing => Reply(st, READY)
    case Unknown => st
    case Close(hasParams) =>
      if hasParams then Reply(st, INVALID_COMMAND)
      else if st.dev.None? then Reply(st, NO_DEVICE)
      else Reply(Drop(st), SUCCESS)
    case Enum(hasParams, socket, found, listed) =>
      if hasParams then Reply(st, INVALID_COMMAND)
      else if !socket || found < 0 then Reply(st, IRDA)
      else if found == 0 then Reply(st, NO_DEVS)
      else Replies(st, seq(listed, _ => INFO))
    case Help(hasParams) =>
      if hasParams then Reply(st, INVALID_COMMAND) else Replies(st, seq(11, _ => INFO))
    case Query(hasParams, rv) =>
      if hasParams then Reply(st, INVALID_COMMAND)
      else if st.dev.None? then Reply(st, NO_DEVICE)
      else if rv != 0 then Drop(Reply(st, ErrorCode(rv, {TIMEOUT, IO})))
      else Reply(st, INFO)
    case Stored(hasParams, rv) =>
      if hasParams then Reply(st, INVALID_COMMAND)
      else if st.dev.None? then Reply(st, NO_DEVICE)
      else if rv != 0 then Drop(Reply(st, INTERNAL))
      else Reply(st, INFO)
    case Open(hasParams, parsed, memory, rv) =>
      if !hasParams then Reply(st, INVALID_COMMAND)
      else if st.dev.Some? then Reply(st, EXISTS)
      else if !parsed then Reply(st, INVALID_COMMAND)
      else if !memory then Reply(st, INTERNAL)
      else
        var id := st.handles;
        var next := st.(handles := id + 1, log := st.log + [Alloc(id)]);
        if rv != 0 then
          Reply(next, ErrorCode(rv, {CONNECT, TIMEOUT, HANDSHAKE, IO})).(log := next.log + [Dispose(id)])
        else Reply(next.(dev := Some(id)), SUCCESS)
    case Token(hasParams, parsed, rv) =>
      if !hasParams then Reply(st, INVALID_COMMAND)
      else if st.dev.None? then Reply(st, NO_DEVICE)
      else if !parsed then Reply(st, INVALID_COMMAND)
      else if rv != 0 then Replies(st, [INTERNAL, SUCCESS])
      else Reply(st, SUCCESS)
    case Xfer(hasParams, rv, empty) =>
      if hasParams then Reply(st, INVALID_COMMAND)
      else if st.dev.None? then Reply(st, NO_DEVICE)
      else if rv == NO_DATA || rv == DEVICE then Reply(st, rv)
      else if rv != 0 then Drop(Reply(st, ErrorCode(rv, {TIMEOUT, IO})))
      else if empty then st else Reply(st, DATA_FOLLOWS)
  }

  /** smartid_conn_dispose, as far as the device handle goes. */
  function Disposed(st: State): State {
    if st.dev.Some? then Drop(st) else st
  }

  function Run(st: State, rs: seq<Request>): State
    decreases |rs|
  {
    if rs == [] then st else Run(Handle(st, rs[0]), rs[1..])
  }

  const FRESH: State := State(None, 0, [], [])

  // ---------------------------------------------------------------- the handlers

  /** The connection object.  `handles` and `log` record what smartid_dev_alloc and smartid_dev_dispose do. */
  class Connection {
    var dev: Option<nat>
    var handles: nat
    var log: seq<DeviceEvent>
    var replies: seq<int>

    function Value(): State
      reads this
    {
      State(dev, handles, log, replies)
    }

    /** No device, or exactly one live one. */
    ghost predicate Valid()
      reads this
    {
      OneDevice(Value())
    }

    constructor ()
      ensures Valid() && Value() == FRESH
    {
      dev, replies := None, [];
      handles, log := 0, [];
    }

    method Send(code: int)
      modifies this`replies
      ensures replies == old(replies) + [code]
    {
      replies := replies + [code];
    }

    /** smartid_dev_alloc */
    method AllocDevice() returns (id: nat)
      modifies this`handles, this`log
      ensures id == old(handles) && handles == id + 1 && log == old(log) + [Alloc(id)]
    {
      id := handles;
      handles := handles + 1;
      log := log + [Alloc(id)];
    }

    /** smartid_dev_dispose */
    method DisposeDevice(id: nat)
      modifies this`log
      ensures log == old(log) + [Dispose(id)]
    {
      log := log + [Dispose(id)];
    }

    method DropDevice()
      requires dev.Some?
      modifies this`dev, this`log
      ensures dev == None && log == old(log) + [Dispose(old(dev).value)]
    {
      DisposeDevice(dev.value);
      dev := None;
    }

    method CmdClose(params: bool)
      modifies this
      ensures Value() == Handle(old(Value()), Close(params))
    {
      if params { Send(INVALID_COMMAND); return; }
      if dev.None? { Send(NO_DEVICE); return; }
      DropDevice();
      Send(SUCCESS);
    }

    method CmdEnum(params: bool, socket: bool, found: int, listed: nat)
      modifies this
      ensures Value() == Handle(old(Value()), Enum(params, socket, found, listed))
    {
      if params { Send(INVALID_COMMAND); return; }
      if !socket { Send(IRDA); return; }
      if found < 0 { Send(IRDA); return; }
      if found == 0 { Send(NO_DEVS); return; }
      SendInfo(listed);
    }

    /** A loop of n information replies. */
    method SendInfo(n: nat)
      modifies this`replies
      ensures replies == old(replies) + seq(n, _ => INFO)
    {
      var i := 0;
      while i < n
        invariant i <= n && replies == old(replies) + seq(i, _ => INFO)
      {
        Send(INFO);
        i := i + 1;
      }
    }

    method CmdHelp(params: bool)
      modifies this
      ensures Value() == Handle(old(Value()), Help(params))
    {
      if params { Send(INVALID_COMMAND); return; }
      SendInfo(11);
    }

    /** MODEL, SERIAL and SIZE: a failed device call closes the device. */
    method CmdQuery(params: bool, rv: int)
      modifies this
      ensures Value() == Handle(old(Value()), Query(params, rv))
    {
      if params { Send(INVALID_COMMAND); return; }
      if dev.None? { Send(NO_DEVICE); return; }
      if rv != 0 {
        if rv == TIMEOUT || rv == IO { Send(rv); } else { Send(INTERNAL); }
        DropDevice();
        return;
      }
      Send(INFO);
    }

    /** TCORR and TICKS */
    method CmdStored(params: bool, rv: int)
      modifies this
      ensures Value() == Handle(old(Value()), Stored(params, rv))
    {
      if params { Send(INVALID_COMMAND); return; }
      if dev.None? { Send(NO_DEVICE); return; }
      if rv != 0 {
        Send(INTERNAL);
        DropDevice();
        return;
      }
      Send(INFO);
    }

    method CmdOpen(params: bool, parsed: bool, memory: bool, rv: int)
      modifies this
      ensures Value() == Handle(old(Value()), Open(params, parsed, memory, rv))
    {
      if !params { Send(INVALID_COMMAND); return; }
      if dev.Some? { Send(EXISTS); return; }
      if !parsed { Send(INVALID_COMMAND); return; }
      if !memory { Send(INTERNAL); return; }
      var id := AllocDevice();
      if rv != 0 {
        if rv == CONNECT || rv == TIMEOUT || rv == HANDSHAKE || rv == IO { Send(rv); } else { Send(INTERNAL); }
        DisposeDevice(id);
        return;
      }
      dev := Some(id);
      Send(SUCCESS);
    }

    method CmdToken(params: bool, parsed: bool, rv: int)
      modifies this
      ensures Value() == Handle(old(Value()), Token(params, parsed, rv))
    {
      if !params { Send(INVALID_COMMAND); return; }
      if dev.None? { Send(NO_DEVICE); return; }
      if !parsed { Send(INVALID_COMMAND); return; }
      if rv != 0 { Send(INTERNAL); }
      Send(SUCCESS);
    }

    method CmdXfer(params: bool, rv: int, empty: bool)
      modifies this
      ensures Value() == Handle(old(Value()), Xfer(params, rv, empty))
    {
      if params { Send(INVALID_COMMAND); return; }
      if dev.None? { Send(NO_DEVICE); return; }
      if rv != 0 {
        if rv == NO_DATA || rv == DEVICE { Send(rv); return; }
        if rv == TIMEOUT || rv == IO { Send(rv); } else { Send(INTERNAL); }
        DropDevice();
        return;
      }
      if !empty { Send(DATA_FOLLOWS); }
    }

    /** The device part of smartid_conn_dispose. */
    method DisposeConnection()
      requires Valid()
      modifies this
      ensures Valid() && Value() == Disposed(old(Value()))
      ensures dev == None && log == Cycles(handles)
    {
      if dev.Some? {
        assert Cycles(dev.value) + [Alloc(dev.value)] + [Dispose(dev.value)] == Cycles(dev.value + 1);
      }
      if dev.Some? { DropDevice(); }
    }

    /** One command line: the connection keeps at most one device, and the codes it sends tell whether it
        has one. */
    method Process(r: Request)
      requires Valid()
      modifies this
      ensures Valid() && Value() == Handle(old(Value()), r)
      ensures replies == old(replies) + Codes(old(Value()), r)
      ensures dev.Some? <==> NowOpen(KindOf(r), old(dev).Some?, Codes(old(Value()), r))
    {
      HandleKeepsOneDevice(Value(), r);
      RepliesTellDevice(Value(), r);
      hide OneDevice, Codes, NowOpen;
      match r {
        case Nothing => Send(READY);
        case Unknown =>
        case Close(p) => CmdClose(p);
        case Enum(p, socket, found, listed) => CmdEnum(p, socket, found, listed);
        case Help(p) => CmdHelp(p);
        case Query(p, rv) => CmdQuery(p, rv);
        case Stored(p, rv) => CmdStored(p, rv);
        case Open(p, parsed, memory, rv) => CmdOpen(p, parsed, memory, rv);
        case Token(p, parsed, rv) => CmdToken(p, parsed, rv);
        case Xfer(p, rv, empty) => CmdXfer(p, rv, empty);
      }
    }
  }

  // ---------------------------------------------------------------- laws of whole sessions

  /** n handles, each allocated and then disposed before the next one is allocated. */
  function Cycles(n: nat): seq<DeviceEvent> {
    if n == 0 then [] else Cycles(n - 1) + [Alloc(n - 1), Dispose(n - 1)]
  }

  /** No device and every handle so far disposed, or exactly one live device: the newest handle. */
  predicate OneDevice(st: State) {
    match st.dev
    case None => st.log == Cycles(st.handles)
    case Some(id) => st.handles == id + 1 && st.log == Cycles(id) + [Alloc(id)]
  }

  lemma HandleKeepsOneDevice(st: State, r: Request)
    requires OneDevice(st)
    ensures OneDevice(Handle(st, r))
  {
    var after := Handle(st, r);
    if st.dev.Some? {
      var id := st.dev.value;
      assert Cycles(id) + [Alloc(id)] + [Dispose(id)] == Cycles(id + 1);
    } else {
      var id := st.handles;
      assert Cycles(id) + [Alloc(id)] + [Dispose(id)] == Cycles(id + 1);
    }
  }

  lemma {:induction false} RunKeepsOneDevice(st: State, rs: seq<Request>)
    requires OneDevice(st)
    ensures OneDevice(Run(st, rs))
    decreases |rs|
  {
    if rs != [] {
      HandleKeepsOneDevice(st, rs[0]);
      RunKeepsOneDevice(Handle(st, rs[0]), rs[1..]);
    }
  }

  /** Every handle allocated in a session is disposed exactly once by the time the connection is gone,
      and no two are ever live together. */
  lemma SessionDisposesAll(rs: seq<Request>)
    ensures var st := Disposed(Run(FRESH, rs));
      st.dev == None && st.log == Cycles(st.handles)
  {
    assert OneDevice(FRESH);
    RunKeepsOneDevice(FRESH, rs);
    var st := Run(FRESH, rs);
    if st.dev.Some? {
      var id := st.dev.value;
      assert Cycles(id) + [Alloc(id)] + [Dispose(id)] == Cycles(id + 1);
    }
  }

  // ---------------------------------------------------------------- what the replies mean

  /** What a client knows of a command it sends. */
  datatype Kind = CloseKind | OpenKind | QueryKind | XferKind | OtherKind

  function KindOf(r: Request): Kind {
    match r
    case Close(_) => CloseKind
    case Open(_, _, _, _) => OpenKind
    case Query(_, _) => QueryKind
    case Stored(_, _) => QueryKind
    case Xfer(_, _, _) => XferKind
    case _ => OtherKind
  }

  /** The reply codes of one command. */
  function Codes(st: State, r: Request): seq<int> {
    var all := Handle(st, r).replies;
    if |st.replies| <= |all| then all[|st.replies|..] else []
  }

  /** Whether a device is open after a command, from what the client knew and the codes it got: OPEN opens
      it and CLOSE closes it on 210; a query that is not answered with 230, and a transfer that is answered
      with an I/O, timeout or internal error, has lost it, unless the command line was refused. */
  predicate NowOpen(kind: Kind, open: bool, codes: seq<int>) {
    match kind
    case CloseKind => open && codes != [SUCCESS]
    case OpenKind => open || codes == [SUCCESS]
    case QueryKind => open && (codes == [INFO] || codes == [INVALID_COMMAND])
    case XferKind => open && codes != [TIMEOUT] && codes != [IO] && codes != [INTERNAL]
    case OtherKind => open
  }

  /** The one-step law: the replies determine whether a device is open. */
  lemma RepliesTellDevice(st: State, r: Request)
    ensures Handle(st, r).replies == st.replies + Codes(st, r)
    ensures Handle(st, r).dev.Some? <==> NowOpen(KindOf(r), st.dev.Some?, Codes(st, r))
  {
  }

  /** What passes over the connection: the commands and their replies. */
  function Transcript(st: State, rs: seq<Request>): seq<(Kind, seq<int>)>
    decreases |rs|
  {
    if rs == [] then [] else [(KindOf(rs[0]), Codes(st, rs[0]))] + Transcript(Handle(st, rs[0]), rs[1..])
  }

  /** A client that keeps account of the transcript. */
  predicate Tracked(open: bool, transcript: seq<(Kind, seq<int>)>)
    decreases |transcript|
  {
    if transcript == [] then open
    else Tracked(NowOpen(transcript[0].0, open, transcript[0].1), transcript[1..])
  }

  function Flatten(transcript: seq<(Kind, seq<int>)>): seq<int> {
    if transcript == [] then [] else transcript[0].1 + Flatten(transcript[1..])
  }

  /** Over every command sequence and device outcome a client that sees only its commands and the replies
      knows whether the daemon holds a device for it, and the replies are the transcript's, in order. */
  lemma {:induction false} ClientKnows(st: State, rs: seq<Request>)
    ensures Run(st, rs).dev.Some? <==> Tracked(st.dev.Some?, Transcript(st, rs))
    ensures Run(st, rs).replies == st.replies + Flatten(Transcript(st, rs))
    decreases |rs|
  {
    hide Handle, Codes, NowOpen, KindOf;
    if rs != [] {
      var next := Handle(st, rs[0]);
      RepliesTellDevice(st, rs[0]);
      ClientKnows(next, rs[1..]);
      var rest := Transcript(next, rs[1..]);
      var step := (KindOf(rs[0]), Codes(st, rs[0]));
      assert ([step] + rest)[1..] == rest;
      ConcatAssoc(st.replies, Codes(st, rs[0]), Flatten(rest));
    }
  }

  /** The commands that do not get exactly one reply: an unknown name gets none; ENUM gets one line for each
      device and HELP eleven; a token that the device refuses gets an error and then success as well; a
      transfer that succeeds without data gets none. */
  predicate NotAnsweredOnce(st: State, r: Request) {
    match r
    case Unknown => true
    case Enum(hasParams, socket, found, listed) => !hasParams && socket && found > 0 && listed != 1
    case Help(hasParams) => !hasParams
    case Token(hasParams, parsed, rv) => hasParams && st.dev.Some? && parsed && rv != 0
    case Xfer(hasParams, rv, empty) => !hasParams && st.dev.Some? && rv == 0 && empty
    case _ => false
  }

  lemma OneReplyExactly(st: State, r: Request)
    ensures |Codes(st, r)| == 1 <==> !NotAnsweredOnce(st, r)
  {
  }

  /** Whether every reply line belongs to one command line: a session of n commands outside the exceptions
      has n replies. */
  lemma {:induction false} RepliesCount(st: State, rs: seq<Request>)
    requires forall k :: 0 <= k < |rs| ==> !NotAnsweredOnce(Run(st, rs[..k]), rs[k])
    ensures |Run(st, rs).replies| == |st.replies| + |rs|
    decreases |rs|
  {
    hide NotAnsweredOnce, Handle, Codes;
    if rs != [] {
      var front, n := rs[..|rs| - 1], |rs| - 1;
      forall k | 0 <= k < n ensures !NotAnsweredOnce(Run(st, front[..k]), front[k]) {
        assert front[..k] == rs[..k] && front[k] == rs[k];
      }
      RepliesCount(st, front);
      assert rs == front + [rs[n]];
      RunLast(st, front, rs[n]);
      var before := Run(st, front);
      OneReplyExactly(before, rs[n]);
      RepliesTellDevice(before, rs[n]);
    }
  }

  lemma {:induction false} RunLast(st: State, rs: seq<Request>, r: Request)
    ensures Run(st, rs + [r]) == Handle(Run(st, rs), r)
    decreases |rs|
  {
    hide Handle;
    if rs == [] {
      assert [r][1..] == [] && [] + [r] == [r];
      assert Run(Handle(st, r), []) == Handle(st, r);
    } else {
      assert (rs + [r])[1..] == rs[1..] + [r];
      RunLast(Handle(st, rs[0]), rs[1..], r);
    }
  }

  // ---------------------------------------------------------------- command names

  const COMMANDS: seq<string> :=
    ["close", "enum", "help", "model", "open", "serial", "size", "tcorr", "ticks", "token", "xfer"]

  /** The first command from position `from` on that begins with the (lower-cased) name. */
  function Dispatch(name: string, from: nat): (k: Option<nat>)
    ensures k.Some? ==> from <= k.value < |COMMANDS| && name <= COMMANDS[k.value]
    ensures k.Some? ==> forall i :: from <= i < k.value ==> !(name <= COMMANDS[i])
    ensures k.None? ==> forall i :: from <= i < |COMMANDS| ==> !(name <= COMMANDS[i])
    decreases |COMMANDS| - from
  {
    if from >= |COMMANDS| then None else if name <= COMMANDS[from] then Some(from) else Dispatch(name, from + 1)
  }

  /** The first two letters of a command as a number; the table is sorted by it. */
  function Initials(k: nat): int
    requires k < |COMMANDS|
  {
    if |COMMANDS[k]| < 2 then 0 else COMMANDS[k][0] as int * 256 + COMMANDS[k][1] as int
  }

  lemma InitialsIncrease(k: nat)
    requires k + 1 < |COMMANDS|
    ensures |COMMANDS[k]| >= 2 && |COMMANDS[k + 1]| >= 2 && Initials(k) < Initials(k + 1)
  {
    match k { case 0 => case 1 => case 2 => case 3 => case 4 => case 5 => case 6 => case 7 => case 8 => case _ => }
  }

  lemma {:induction false} InitialsOrdered(i: nat, k: nat)
    requires i < k < |COMMANDS|
    ensures |COMMANDS[i]| >= 2 && |COMMANDS[k]| >= 2 && Initials(i) < Initials(k)
  {
    hide Initials;
    InitialsIncrease(k - 1);
    if i < k - 1 { InitialsOrdered(i, k - 1); }
  }

  /** Every command is reached by its full name. */
  lemma FullNames(k: nat)
    requires k < |COMMANDS|
    ensures Dispatch(COMMANDS[k], 0) == Some(k)
  {
    forall i | 0 <= i < k ensures !(COMMANDS[k] <= COMMANDS[i]) {
      InitialsOrdered(i, k);
      NotPrefix(k, i);
    }
    FirstMatch(COMMANDS[k], k);
  }

  lemma NotPrefix(k: nat, i: nat)
    requires k < |COMMANDS| && i < |COMMANDS| && Initials(i) < Initials(k)
    requires |COMMANDS[i]| >= 2 && |COMMANDS[k]| >= 2
    ensures !(COMMANDS[k] <= COMMANDS[i])
  {
  }

  lemma FirstMatch(name: string, k: nat)
    requires k < |COMMANDS| && name <= COMMANDS[k]
    requires forall i :: 0 <= i < k ==> !(name <= COMMANDS[i])
    ensures Dispatch(name, 0) == Some(k)
  {
  }

  /** What the device, the bus and the parameter parser answer to a command. */
  datatype Answers = Answers(hasParams: bool, parsed: bool, memory: bool, socket: bool, found: int, listed: nat,
                             rv: int, empty: bool)

  /** The command line with that (lower-cased) name. */
  function RequestOf(name: string, a: Answers): Request {
    if name == "" then Nothing
    else match Dispatch(name, 0)
      case None => Unknown
      case Some(k) =>
        if k == 0 then Close(a.hasParams)
        else if k == 1 then Enum(a.hasParams, a.socket, a.found, a.listed)
        else if k == 2 then Help(a.hasParams)
        else if k == 4 then Open(a.hasParams, a.parsed, a.memory, a.rv)
        else if k == 3 || k == 5 || k == 6 then Query(a.hasParams, a.rv)
        else if k == 7 || k == 8 then Stored(a.hasParams, a.rv)
        else if k == 9 then Token(a.hasParams, a.parsed, a.rv)
        else Xfer(a.hasParams, a.rv, a.empty)
  }

  /** A command line is ignored, without a reply, exactly when no command begins with its name. */
  lemma UnknownExactly(name: string, a: Answers, st: State)
    ensures RequestOf(name, a).Unknown? <==> name != "" && forall i :: 0 <= i < |COMMANDS| ==> !(name <= COMMANDS[i])
    ensures RequestOf(name, a).Unknown? ==> Handle(st, RequestOf(name, a)) == st
  {
  }

  // ---------------------------------------------------------------- what each command does

  /** The state after a command that sends these codes and leaves the device alone. */
  predicate OnlyReplies(st: State, after: State, codes: seq<int>) {
    after == st.(replies := st.replies + codes)
  }

  /** The state after a command that sends these codes and loses the device that was open. */
  predicate DropsDevice(st: State, after: State, codes: seq<int>)
    requires st.dev.Some?
  {
    after == State(None, st.handles, st.log + [Dispose(st.dev.value)], st.replies + codes)
  }

  /** The name and nothing after the positions before it. */
  lemma NameAt(name: string, k: nat)
    requires k < |COMMANDS| && name == COMMANDS[k]
    ensures Dispatch(name, 0) == Some(k) && name != ""
  {
    FullNames(k);
    if k + 1 < |COMMANDS| { InitialsIncrease(k); } else { InitialsIncrease(k - 1); }
  }

  lemma CloseDoes(st: State, a: Answers)
    ensures var after := Handle(st, RequestOf("close", a));
      if a.hasParams then OnlyReplies(st, after, [501])
      else if st.dev.None? then OnlyReplies(st, after, [400])
      else DropsDevice(st, after, [210])
  {
    NameAt("close", 0);
  }

  lemma OpenDoes(st: State, a: Answers)
    ensures var after := Handle(st, RequestOf("open", a));
      if !a.hasParams then OnlyReplies(st, after, [501])
      else if st.dev.Some? then OnlyReplies(st, after, [410])
      else if !a.parsed then OnlyReplies(st, after, [501])
      else if !a.memory then OnlyReplies(st, after, [520])
      else if a.rv == 0 then
        after == State(Some(st.handles), st.handles + 1, st.log + [Alloc(st.handles)], st.replies + [210])
      else
        after == State(None, st.handles + 1, st.log + [Alloc(st.handles), Dispose(st.handles)],
                       st.replies + [if a.rv in {401, 402, 403, 440} then a.rv else 520])
  {
    NameAt("open", 4);
    assert st.log + [Alloc(st.handles)] + [Dispose(st.handles)] == st.log + [Alloc(st.handles), Dispose(st.handles)];
  }

  lemma EnumDoes(st: State, a: Answers)
    ensures OnlyReplies(st, Handle(st, RequestOf("enum", a)),
      if a.hasParams then [501]
      else if !a.socket || a.found < 0 then [510]
      else if a.found == 0 then [241]
      else seq(a.listed, _ => 230))
  {
    NameAt("enum", 1);
  }

  lemma HelpDoes(st: State, a: Answers)
    ensures OnlyReplies(st, Handle(st, RequestOf("help", a)),
      if a.hasParams then [501] else [230, 230, 230, 230, 230, 230, 230, 230, 230, 230, 230])
  {
    NameAt("help", 2);
    assert seq(11, _ => INFO) == [230, 230, 230, 230, 230, 230, 230, 230, 230, 230, 230];
  }

  /** MODEL, SERIAL and SIZE answer 230, or report the error and lose the device. */
  lemma QueryDoes(st: State, a: Answers, name: string)
    requires name in ["model", "serial", "size"]
    ensures var after := Handle(st, RequestOf(name, a));
      if a.hasParams then OnlyReplies(st, after, [501])
      else if st.dev.None? then OnlyReplies(st, after, [400])
      else if a.rv == 0 then OnlyReplies(st, after, [230])
      else DropsDevice(st, after, [if a.rv in {403, 440} then a.rv else 520])
  {
    NameAt(name, if name == "model" then 3 else if name == "serial" then 5 else 6);
  }

  /** TCORR and TICKS read what the device object holds; any error is 520 and loses the device. */
  lemma StoredDoes(st: State, a: Answers, name: string)
    requires name in ["tcorr", "ticks"]
    ensures var after := Handle(st, RequestOf(name, a));
      if a.hasParams then OnlyReplies(st, after, [501])
      else if st.dev.None? then OnlyReplies(st, after, [400])
      else if a.rv == 0 then OnlyReplies(st, after, [230])
      else DropsDevice(st, after, [520])
  {
    NameAt(name, if name == "tcorr" then 7 else 8);
  }

  lemma TokenDoes(st: State, a: Answers)
    ensures OnlyReplies(st, Handle(st, RequestOf("token", a)),
      if !a.hasParams then [501]
      else if st.dev.None? then [400]
      else if !a.parsed then [501]
      else if a.rv == 0 then [210]
      else [520, 210])
  {
    NameAt("token", 9);
  }

  /** XFER: 301 exactly when data came; no data and a device error keep the device, other errors lose it. */
  lemma XferDoes(st: State, a: Answers)
    ensures var after := Handle(st, RequestOf("xfer", a));
      if a.hasParams then OnlyReplies(st, after, [501])
      else if st.dev.None? then OnlyReplies(st, after, [400])
      else if a.rv == 0 then OnlyReplies(st, after, if a.empty then [] else [301])
      else if a.rv in {243, 540} then OnlyReplies(st, after, [a.rv])
      else DropsDevice(st, after, [if a.rv in {403, 440} then a.rv else 520])
  {
    NameAt("xfer", 10);
  }

  /** An empty line is answered with 220. */
  lemma EmptyDoes(st: State, a: Answers)
    ensures OnlyReplies(st, Handle(st, RequestOf("", a)), [220])
  {
  }

  /** Abbreviations do what the first command they begin does. */
  lemma PrefixDoes(name: string, k: nat, a: Answers)
    requires name != "" && k < |COMMANDS| && name <= COMMANDS[k]
    requires forall i :: 0 <= i < k ==> !(name <= COMMANDS[i])
    ensures RequestOf(name, a) == RequestOf(COMMANDS[k], a)
  {
    FirstMatch(name, k);
    NameAt(COMMANDS[k], k);
  }

  /** The dispatch loop. */
  method FindCommand(name: string) returns (k: Option<nat>)
    ensures k == Dispatch(name, 0)
  {
    var i := 0;
    while i < |COMMANDS|
      invariant i <= |COMMANDS| && Dispatch(name, i) == Dispatch(name, 0)
    {
      if name <= COMMANDS[i] { return Some(i); }
      i := i + 1;
    }
    return None;
  }

  // ---------------------------------------------------------------- command lines

  predicate Blank(c: char) {
    c == ' ' || c == '\t'
  }

  /** strspn(line, " \t") characters are skipped. */
  function SkipBlanks(line: string): string {
    if line != "" && Blank(line[0]) then SkipBlanks(line[1..]) else line
  }

  /** strcspn(line, " \t") */
  function WordLength(line: string): (n: nat)
    ensures n <= |line|
  {
    if line == "" || Blank(line[0]) then 0 else 1 + WordLength(line[1..])
  }

  /** The command name of a line, in lower case. */
  function NameOf(line: string): string {
    var text := SkipBlanks(line);
    Lower(text[..WordLength(text)])
  }

  /** Anything after the name, if only a blank, counts as parameters. */
  predicate HasParams(line: string) {
    var text := SkipBlanks(line);
    WordLength(text) < |text|
  }

  predicate AllBlank(s: string) {
    forall i :: 0 <= i < |s| ==> Blank(s[i])
  }

  predicate NoBlank(s: string) {
    forall i :: 0 <= i < |s| ==> !Blank(s[i])
  }

  /** Blanks are spaces and tabs. */
  lemma BlankExactly(c: char)
    ensures Blank(c) <==> c in " \t"
  {
    assert " \t"[0] == ' ' && " \t"[1] == '\t';
  }

  lemma {:induction false} BlanksSkipped(blanks: string, text: string)
    requires AllBlank(blanks) && (text != "" ==> !Blank(text[0]))
    ensures SkipBlanks(blanks + text) == text
    decreases |blanks|
  {
    if blanks == "" {
      assert blanks + text == text;
    } else {
      BlanksSkipped(blanks[1..], text);
      assert (blanks + text)[1..] == blanks[1..] + text;
    }
  }

  lemma {:induction false} WordEnds(name: string, tail: string)
    requires NoBlank(name) && (tail != "" ==> Blank(tail[0]))
    ensures WordLength(name + tail) == |name|
    decreases |name|
  {
    if name == "" {
      assert name + tail == tail;
    } else {
      WordEnds(name[1..], tail);
      assert (name + tail)[1..] == name[1..] + tail;
    }
  }

  lemma LowerCommands(k: nat)
    requires k < |COMMANDS|
    ensures Lower(COMMANDS[k]) == COMMANDS[k]
  {
    forall i | 0 <= i < |COMMANDS[k]| ensures LowerChar(COMMANDS[k][i]) == COMMANDS[k][i] {
      LowerLetters(k, i);
    }
    hide COMMANDS;
    assert Lower(COMMANDS[k]) == COMMANDS[k];
  }

  lemma LowerLetters(k: nat, i: nat)
    requires k < |COMMANDS| && i < |COMMANDS[k]|
    ensures 'a' <= COMMANDS[k][i] <= 'z'
  {
    match k {
      case 0 => case 1 => case 2 => case 3 => case 4 => case 5 => case 6 => case 7 => case 8 => case 9 => case _ =>
    }
  }

  /** Blanks, a command in any mixture of cases, and nothing or a blank and more after it: the line is that
      command, with parameters exactly when something follows the name. */
  lemma LineReads(blanks: string, name: string, tail: string, k: nat)
    requires AllBlank(blanks) && NoBlank(name) && (tail != "" ==> name != "" && Blank(tail[0]))
    ensures NameOf(blanks + (name + tail)) == Lower(name)
    ensures HasParams(blanks + (name + tail)) <==> tail != ""
    ensures k < |COMMANDS| && CaseEqual(name, COMMANDS[k]) ==> NameOf(blanks + (name + tail)) == COMMANDS[k]
  {
    hide Lower, COMMANDS, CaseEqual;
    BlanksSkipped(blanks, name + tail);
    WordEnds(name, tail);
    assert (name + tail)[..|name|] == name;
    if k < |COMMANDS| {
      LowerCommands(k);
      SameNameExactly(name, COMMANDS[k]);
    }
  }

  /** Separates the command name, in lower case, from the parameters. */
  method SplitLine(line: string) returns (name: string, hasParams: bool)
    ensures name == NameOf(line) && (hasParams <==> HasParams(line))
  {
    var p := 0;
    assert line[0..] == line;
    while p < |line| && Blank(line[p])
      invariant p <= |line| && SkipBlanks(line[p..]) == SkipBlanks(line)
    {
      assert line[p..][1..] == line[p + 1..];
      p := p + 1;
    }
    ghost var text := line[p..];
    var q := p;
    name := "";
    while q < |line| && !Blank(line[q])
      invariant p <= q <= |line|
      invariant WordLength(text) == q - p + WordLength(line[q..])
      invariant name == Lower(text[..q - p])
    {
      assert line[q..][1..] == line[q + 1..];
      assert text[..q + 1 - p] == text[..q - p] + [line[q]];
      name := name + [LowerChar(line[q])];
      q := q + 1;
    }
    hasParams := q < |line|;
  }

  /** smartid_cmd_process: splits the line, finds the command and runs its handler. */
  method ProcessLine(c: Connection, line: string, a: Answers)
    requires c.Valid()
    modifies c
    ensures c.Valid()
    ensures c.Value() == Handle(old(c.Value()), RequestOf(NameOf(line), a.(hasParams := HasParams(line))))
  {
    hide NameOf, HasParams;
    var name, hasParams := SplitLine(line);
    if name == "" {
      c.Process(Nothing);
      return;
    }
    var k := FindCommand(name);
    c.Process(if k.None? then Unknown else RequestOf(name, a.(hasParams := hasParams)));
  }
}
