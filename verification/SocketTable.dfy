/**
 The descriptor table of `userspace/gnat-rts/gnat_user/aegir_gsocket.c` over the socket bridge.
 Each operation carries the answers the bridge gives it; the table keeps a log of the handles the
 bridge opened and of those it was told to close.
 */
module SocketTable {

  const FIRST_FD: nat := 3
  const MAX_FD: nat := 256
  const COUNTER_MODULUS: nat := 0x1_0000_0000

  datatype Kind = NoKind | Sock | SigRead | SigWrite

  datatype Slot = Slot(
    used: bool, kind: Kind, proto: nat, nonblock: bool, listening: bool, connected: bool,
    handle: nat, localIp: nat, localPort: nat, peerIp: nat, peerPort: nat,
    partner: int, signals: nat)

  /** A slot of static storage, and one that `ak_alloc` has just cleared and claimed. */
  const ZERO := Slot(false, NoKind, 0, false, false, false, 0, 0, 0, 0, 0, 0, 0)
  const CLAIMED := ZERO.(used := true, partner := -1)

  datatype BridgeCall = Opened(handle: nat) | Closed(handle: nat)

  datatype Table = Table(fds: seq<Slot>, log: seq<BridgeCall>)

  datatype Errno =
    | ENETDOWN | EAFNOSUPPORT | EOPNOTSUPP | ENOBUFS | EMFILE | EBADF | EINVAL
    | EIO | EWOULDBLOCK | EPIPE

  datatype Answer = Value(n: int) | Pair(r: int, w: int) | Failed(errno: Errno) | Waiting

  datatype Outcome = Outcome(table: Table, answer: Answer)

  /** What the bridge says to a request for a socket, and to one poll of a listener. */
  datatype SocketReply = Granted(handle: nat) | Refused
  datatype AcceptReply = NewConnection(handle: nat, ip: nat, port: nat) | NotReady | Broken

  datatype Op =
    | Socket(net: bool, domain: int, style: int, protocol: int, reply: SocketReply)
    | Accept(fd: int, replies: seq<AcceptReply>)
    | Close(fd: int)
    | Listen(fd: int, granted: bool)
    | SetNonblock(fd: int, on: bool)
    | CreatePair
    | ReadSignal(fd: int)
    | WriteSignal(fd: int)
    | CloseSignal(fd: int)

  // ---------------------------------------------------------------------------
  // The operations as functions of the table
  // ---------------------------------------------------------------------------

  /** `ak_get` succeeds. */
  predicate Live(fds: seq<Slot>, fd: int)
    requires |fds| == MAX_FD
  {
    FIRST_FD <= fd < MAX_FD && fds[fd].used
  }

  predicate LiveOf(fds: seq<Slot>, fd: int, kind: Kind)
    requires |fds| == MAX_FD
  {
    Live(fds, fd) && fds[fd].kind == kind
  }

  /** The descriptor `ak_alloc` claims; MAX_FD when the table is full. */
  function FirstFree(fds: seq<Slot>, from: nat): (r: nat)
    requires |fds| == MAX_FD && from <= MAX_FD
    ensures from <= r <= MAX_FD
    ensures forall i :: from <= i < r ==> fds[i].used
    ensures r < MAX_FD ==> !fds[r].used
    decreases MAX_FD - from
  {
    if from == MAX_FD || !fds[from].used then from else FirstFree(fds, from + 1)
  }

  /** A handle the bridge has opened finds a slot, or is given back. */
  function Place(t: Table, slot: Slot): (o: Outcome)
    requires |t.fds| == MAX_FD
    ensures |o.table.fds| == MAX_FD
  {
    var log := t.log + [Opened(slot.handle)];
    var fd := FirstFree(t.fds, FIRST_FD);
    if fd == MAX_FD then Outcome(Table(t.fds, log + [Closed(slot.handle)]), Failed(EMFILE))
    else Outcome(Table(t.fds[fd := slot], log), Value(fd))
  }

  datatype Protocol = Proto(number: nat) | NoProto

  function ProtocolOf(style: int, protocol: int): Protocol
  {
    if style == 1 then Proto(6)
    else if style == 2 then Proto(if protocol == 1 then 1 else 17)
    else NoProto
  }

  function SocketStep(t: Table, net: bool, domain: int, style: int, protocol: int, reply: SocketReply): (o: Outcome)
    requires |t.fds| == MAX_FD
    ensures |o.table.fds| == MAX_FD
  {
    if !net then Outcome(t, Failed(ENETDOWN))
    else if domain != 2 then Outcome(t, Failed(EAFNOSUPPORT))
    else match ProtocolOf(style, protocol)
      case NoProto => Outcome(t, Failed(EOPNOTSUPP))
      case Proto(number) =>
        match reply
        case Refused => Outcome(t, Failed(ENOBUFS))
        case Granted(h) => Place(t, CLAIMED.(kind := Sock, proto := number, handle := h))
  }

  function CloseStep(t: Table, fd: int): (o: Outcome)
    requires |t.fds| == MAX_FD
    ensures |o.table.fds| == MAX_FD
  {
    if !LiveOf(t.fds, fd, Sock) then Outcome(t, Failed(EBADF))
    else Outcome(Table(t.fds[fd := t.fds[fd].(used := false)], t.log + [Closed(t.fds[fd].handle)]), Value(0))
  }

  datatype Wait = Got(handle: nat, ip: nat, port: nat) | Gave(errno: Errno) | StillWaiting

  /** The polls of `accept`: a blocking listener goes on past every "not ready". */
  function Await(replies: seq<AcceptReply>, nonblock: bool): Wait
  {
    if replies == [] then StillWaiting
    else match replies[0]
      case NewConnection(h, ip, port) => Got(h, ip, port)
      case Broken => Gave(EIO)
      case NotReady => if nonblock then Gave(EWOULDBLOCK) else Await(replies[1..], nonblock)
  }

  function AcceptedSlot(listener: Slot, h: nat, ip: nat, port: nat): Slot
  {
    CLAIMED.(kind := Sock, proto := 6, handle := h, connected := true, peerIp := ip,
             peerPort := port % 0x1_0000, localIp := listener.localIp, localPort := listener.localPort)
  }

  function AcceptStep(t: Table, fd: int, replies: seq<AcceptReply>): (o: Outcome)
    requires |t.fds| == MAX_FD
    ensures |o.table.fds| == MAX_FD
  {
    if !LiveOf(t.fds, fd, Sock) || !t.fds[fd].listening then Outcome(t, Failed(EINVAL))
    else match Await(replies, t.fds[fd].nonblock)
      case StillWaiting => Outcome(t, Waiting)
      case Gave(errno) => Outcome(t, Failed(errno))
      case Got(h, ip, port) => Place(t, AcceptedSlot(t.fds[fd], h, ip, port))
  }

  function ListenStep(t: Table, fd: int, granted: bool): (o: Outcome)
    requires |t.fds| == MAX_FD
    ensures |o.table.fds| == MAX_FD
  {
    if !LiveOf(t.fds, fd, Sock) || t.fds[fd].proto != 6 then Outcome(t, Failed(EOPNOTSUPP))
    else if !granted then Outcome(t, Failed(EIO))
    else Outcome(t.(fds := t.fds[fd := t.fds[fd].(listening := true)]), Value(0))
  }

  function SetNonblockStep(t: Table, fd: int, on: bool): (o: Outcome)
    requires |t.fds| == MAX_FD
    ensures |o.table.fds| == MAX_FD
  {
    if !LiveOf(t.fds, fd, Sock) then Outcome(t, Failed(EBADF))
    else Outcome(t.(fds := t.fds[fd := t.fds[fd].(nonblock := on)]), Value(0))
  }

  /** With room for one end only, the claimed slot is released again. */
  function CreatePairStep(t: Table): (o: Outcome)
    requires |t.fds| == MAX_FD
    ensures |o.table.fds| == MAX_FD
  {
    var r := FirstFree(t.fds, FIRST_FD);
    if r == MAX_FD then Outcome(t, Failed(EMFILE))
    else
      var one := t.fds[r := CLAIMED];
      var w := FirstFree(one, FIRST_FD);
      if w == MAX_FD then Outcome(t.(fds := one[r := CLAIMED.(used := false)]), Failed(EMFILE))
      else
        Outcome(t.(fds := one[r := CLAIMED.(kind := SigRead, partner := w)]
                             [w := CLAIMED.(kind := SigWrite, partner := r)]), Pair(r, w))
  }

  function ReadSignalStep(t: Table, fd: int): (o: Outcome)
    requires |t.fds| == MAX_FD
    ensures |o.table.fds| == MAX_FD
  {
    if !LiveOf(t.fds, fd, SigRead) then Outcome(t, Failed(EBADF))
    else if t.fds[fd].signals == 0 then Outcome(t, Failed(EWOULDBLOCK))
    else Outcome(t.(fds := t.fds[fd := t.fds[fd].(signals := t.fds[fd].signals - 1)]), Value(1))
  }

  function Bump(s: Slot): Slot
  {
    s.(signals := (s.signals + 1) % COUNTER_MODULUS)
  }

  /** Whatever slot now has the partner's number is the one that is bumped. */
  function WriteSignalStep(t: Table, fd: int): (o: Outcome)
    requires |t.fds| == MAX_FD
    ensures |o.table.fds| == MAX_FD
  {
    if !LiveOf(t.fds, fd, SigWrite) then Outcome(t, Failed(EBADF))
    else
      var r := t.fds[fd].partner;
      if !Live(t.fds, r) then Outcome(t, Failed(EPIPE))
      else Outcome(t.(fds := t.fds[r := Bump(t.fds[r])]), Value(1))
  }

  /** Any live descriptor is released, whatever its kind; the call has no answer. */
  function CloseSignalStep(t: Table, fd: int): (o: Outcome)
    requires |t.fds| == MAX_FD
    ensures |o.table.fds| == MAX_FD
  {
    if !Live(t.fds, fd) then Outcome(t, Value(0))
    else Outcome(t.(fds := t.fds[fd := t.fds[fd].(used := false)]), Value(0))
  }

  function Step(t: Table, op: Op): (o: Outcome)
    requires |t.fds| == MAX_FD
    ensures |o.table.fds| == MAX_FD
  {
    match op
    case Socket(net, domain, style, protocol, reply) => SocketStep(t, net, domain, style, protocol, reply)
    case Accept(fd, replies) => AcceptStep(t, fd, replies)
    case Close(fd) => CloseStep(t, fd)
    case Listen(fd, granted) => ListenStep(t, fd, granted)
    case SetNonblock(fd, on) => SetNonblockStep(t, fd, on)
    case CreatePair => CreatePairStep(t)
    case ReadSignal(fd) => ReadSignalStep(t, fd)
    case WriteSignal(fd) => WriteSignalStep(t, fd)
    case CloseSignal(fd) => CloseSignalStep(t, fd)
  }

  const EMPTY := Table(seq(MAX_FD, i => ZERO), [])

  function Run(t: Table, ops: seq<Op>): (r: Table)
    requires |t.fds| == MAX_FD
    ensures |r.fds| == MAX_FD
    decreases |ops|
  {
    if ops == [] then t else Step(Run(t, ops[..|ops| - 1]), ops[|ops| - 1]).table
  }

  // ---------------------------------------------------------------------------
  // Handles: no leak, no double close, no sharing
  // ---------------------------------------------------------------------------

  /** The handles that are open at the bridge after a log. */
  function OpenAfter(log: seq<BridgeCall>): set<nat>
    decreases |log|
  {
    if log == [] then {} else After(OpenAfter(log[..|log| - 1]), log[|log| - 1])
  }

  function After(open: set<nat>, call: BridgeCall): set<nat>
  {
    if call.Opened? then open + {call.handle} else open - {call.handle}
  }

  /** The bridge never hands out a handle that is still open. */
  predicate Honest(log: seq<BridgeCall>)
    decreases |log|
  {
    log != [] ==>
      && Honest(log[..|log| - 1])
      && (log[|log| - 1].Opened? ==> log[|log| - 1].handle !in OpenAfter(log[..|log| - 1]))
  }

  /** No handle is closed that is not open. */
  predicate ClosesOnlyOpen(log: seq<BridgeCall>)
    decreases |log|
  {
    log != [] ==>
      && ClosesOnlyOpen(log[..|log| - 1])
      && (log[|log| - 1].Closed? ==> log[|log| - 1].handle in OpenAfter(log[..|log| - 1]))
  }

  predicate Holds(fds: seq<Slot>, fd: int, h: nat)
    requires |fds| == MAX_FD
  {
    LiveOf(fds, fd, Sock) && fds[fd].handle == h
  }

  /** Every socket slot holds an open handle of its own, and no close was out of place. */
  ghost predicate Safe(t: Table)
  {
    && |t.fds| == MAX_FD
    && (forall fd, h :: Holds(t.fds, fd, h) ==> h in OpenAfter(t.log))
    && (forall fd, fd', h :: Holds(t.fds, fd, h) && Holds(t.fds, fd', h) ==> fd == fd')
    && ClosesOnlyOpen(t.log)
  }

  /** Every open handle is in some socket slot. */
  ghost predicate NoLeak(t: Table)
    requires |t.fds| == MAX_FD
  {
    forall h :: h in OpenAfter(t.log) ==> exists fd :: Holds(t.fds, fd, h)
  }

  /** A signalling close that hits a socket. */
  predicate Misuse(t: Table, op: Op)
    requires |t.fds| == MAX_FD
  {
    op.CloseSignal? && LiveOf(t.fds, op.fd, Sock)
  }

  /** What an operation does to the socket slots and the bridge. */
  datatype Effect =
    | Quiet
    | Bounced(h: nat)
    | Gained(fd: int, h: nat)
    | Released(fd: int, h: nat)
    | Leaked(fd: int, h: nat)

  ghost predicate Keeps(a: seq<Slot>, b: seq<Slot>, except: int)
    requires |a| == |b| == MAX_FD
  {
    forall fd, h :: fd != except ==> (Holds(a, fd, h) <==> Holds(b, fd, h))
  }

  ghost predicate Does(t: Table, u: Table, e: Effect)
    requires |t.fds| == |u.fds| == MAX_FD
  {
    match e
    case Quiet => Keeps(t.fds, u.fds, -1) && u.log == t.log
    case Bounced(h) => Keeps(t.fds, u.fds, -1) && u.log == t.log + [Opened(h)] + [Closed(h)]
    case Gained(fd, h) =>
      && FIRST_FD <= fd < MAX_FD && Keeps(t.fds, u.fds, fd) && !Live(t.fds, fd) && Holds(u.fds, fd, h)
      && u.log == t.log + [Opened(h)]
    case Released(fd, h) =>
      && FIRST_FD <= fd < MAX_FD && Keeps(t.fds, u.fds, fd) && Holds(t.fds, fd, h) && !Live(u.fds, fd)
      && u.log == t.log + [Closed(h)]
    case Leaked(fd, h) =>
      && FIRST_FD <= fd < MAX_FD && Keeps(t.fds, u.fds, fd) && Holds(t.fds, fd, h) && !Live(u.fds, fd)
      && u.log == t.log
  }

  lemma PlaceEffect(t: Table, slot: Slot) returns (e: Effect)
    requires |t.fds| == MAX_FD && slot.used && slot.kind == Sock
    ensures Does(t, Place(t, slot).table, e) && !e.Leaked?
  {
    hide FirstFree;
    var fd := FirstFree(t.fds, FIRST_FD);
    e := if fd == MAX_FD then Bounced(slot.handle) else Gained(fd, slot.handle);
  }

  /** Every operation has one of these effects, and it leaks exactly on misuse. */
  lemma StepEffect(t: Table, op: Op) returns (e: Effect)
    requires |t.fds| == MAX_FD
    ensures Does(t, Step(t, op).table, e) && (e.Leaked? <==> Misuse(t, op))
  {
    hide FirstFree, Place;
    e := Quiet;
    match op {
      case Socket(_, _, style, protocol, reply) =>
        if Step(t, op).table != t {
          e := PlaceEffect(t, CLAIMED.(kind := Sock, proto := ProtocolOf(style, protocol).number, handle := reply.handle));
        }
      case Accept(fd, replies) =>
        if Step(t, op).table != t {
          var got := Await(replies, t.fds[fd].nonblock);
          e := PlaceEffect(t, AcceptedSlot(t.fds[fd], got.handle, got.ip, got.port));
        }
      case Close(fd) => if LiveOf(t.fds, fd, Sock) { e := Released(fd, t.fds[fd].handle); }
      case CloseSignal(fd) => if LiveOf(t.fds, fd, Sock) { e := Leaked(fd, t.fds[fd].handle); }
      case _ =>
    }
  }

  lemma LogGrows(log: seq<BridgeCall>, call: BridgeCall)
    ensures OpenAfter(log + [call]) == After(OpenAfter(log), call)
    ensures Honest(log + [call]) <==> Honest(log) && (call.Opened? ==> call.handle !in OpenAfter(log))
    ensures ClosesOnlyOpen(log + [call]) <==> ClosesOnlyOpen(log) && (call.Closed? ==> call.handle in OpenAfter(log))
  {
    assert (log + [call])[..|log|] == log;
  }

  /** Safety is kept whatever the caller does; freedom from leaks is kept, and can never be
      regained, exactly without a leaking effect. */
  lemma EffectKeeps(t: Table, u: Table, e: Effect)
    requires |u.fds| == MAX_FD && Safe(t) && Does(t, u, e) && Honest(u.log)
    ensures Safe(u) && Honest(t.log)
    ensures NoLeak(u) <==> NoLeak(t) && !e.Leaked?
  {
    hide OpenAfter, Honest, ClosesOnlyOpen;
    match e {
      case Quiet =>
      case Bounced(h) =>
        LogGrows(t.log, Opened(h));
        LogGrows(t.log + [Opened(h)], Closed(h));
      case Gained(fd, h) => LogGrows(t.log, Opened(h));
      case Released(fd, h) =>
        LogGrows(t.log, Closed(h));
        assert forall h', fd' :: Holds(u.fds, fd', h') <==> h' != h && Holds(t.fds, fd', h');
        assert NoLeak(u) ==> NoLeak(t) by {
          forall h' | NoLeak(u) && h' in OpenAfter(t.log)
            ensures exists fd' :: Holds(t.fds, fd', h')
          {
            if h' == h {
              assert Holds(t.fds, fd, h');
            } else {
              assert h' in OpenAfter(u.log);
              var fd' :| Holds(u.fds, fd', h');
              assert Holds(t.fds, fd', h');
            }
          }
        }
      case Leaked(fd, h) =>
    }
  }

  /** No operation of the run is a signalling close that hits a socket. */
  ghost predicate Clean(t: Table, ops: seq<Op>)
    requires |t.fds| == MAX_FD
  {
    forall k :: 0 <= k < |ops| ==> CleanAt(t, ops, k)
  }

  ghost predicate CleanAt(t: Table, ops: seq<Op>, k: nat)
    requires |t.fds| == MAX_FD && k < |ops|
  {
    !Misuse(Run(t, ops[..k]), ops[k])
  }

  lemma CleanBefore(t: Table, ops: seq<Op>, n: nat, k: nat)
    requires |t.fds| == MAX_FD && k < n <= |ops|
    ensures CleanAt(t, ops[..n], k) <==> CleanAt(t, ops, k)
  {
    hide Run, Misuse;
    assert ops[..n][..k] == ops[..k] && ops[..n][k] == ops[k];
  }

  lemma CleanLast(t: Table, ops: seq<Op>, n: nat)
    requires |t.fds| == MAX_FD && n < |ops|
    ensures CleanAt(t, ops, n) <==> !Misuse(Run(t, ops[..n]), ops[n])
  {
    hide Run, Misuse;
  }

  lemma CleanSplit(t: Table, ops: seq<Op>, n: nat)
    requires |t.fds| == MAX_FD && |ops| == n + 1
    ensures Clean(t, ops) <==> Clean(t, ops[..n]) && !Misuse(Run(t, ops[..n]), ops[n])
  {
    hide Run, Misuse, CleanAt;
    var front, last := ops[..n], ops[n];
    assert CleanAt(t, ops, n) <==> !Misuse(Run(t, front), last) by {
      CleanLast(t, ops, n);
    }
    forall k: nat | k < n
      ensures CleanAt(t, front, k) <==> CleanAt(t, ops, k)
    {
      CleanBefore(t, ops, n, k);
    }
  }

  /** Over every run, with an honest bridge: every socket slot holds an open handle of its own and
      nothing is closed twice; and all open handles are in slots, the table full or not, exactly
      when they were at first and no signalling close hit a socket since. */
  lemma {:induction false} HandlesOverRun(t: Table, ops: seq<Op>)
    requires Safe(t) && Honest(Run(t, ops).log)
    ensures Safe(Run(t, ops))
    ensures NoLeak(Run(t, ops)) <==> NoLeak(t) && Clean(t, ops)
    decreases |ops|
  {
    hide Step, Honest, Misuse, NoLeak, Does;
    if ops != [] {
      hide Safe, Clean;
      var n := |ops| - 1;
      var u := Run(t, ops[..n]);
      var e := StepEffect(u, ops[n]);
      HonestBefore(u, Step(u, ops[n]).table, e);
      HandlesOverRun(t, ops[..n]);
      EffectKeeps(u, Step(u, ops[n]).table, e);
      CleanSplit(t, ops, n);
    }
  }

  lemma EmptyIsSafe()
    ensures Safe(EMPTY) && NoLeak(EMPTY)
  {
  }

  /** From the empty table of a starting program, the handles in the slots are the open ones, one to
      one, exactly as long as no signalling close hits a socket. */
  lemma HandlesFromStart(ops: seq<Op>)
    requires Honest(Run(EMPTY, ops).log)
    ensures Safe(Run(EMPTY, ops)) && (NoLeak(Run(EMPTY, ops)) <==> Clean(EMPTY, ops))
  {
    hide Safe, NoLeak, Clean, Honest, Run;
    EmptyIsSafe();
    HandlesOverRun(EMPTY, ops);
  }

  lemma HonestBefore(t: Table, u: Table, e: Effect)
    requires |t.fds| == |u.fds| == MAX_FD && Does(t, u, e) && Honest(u.log)
    ensures Honest(t.log)
  {
    hide OpenAfter, Honest, ClosesOnlyOpen;
    match e {
      case Bounced(h) =>
        LogGrows(t.log, Opened(h));
        LogGrows(t.log + [Opened(h)], Closed(h));
      case Gained(fd, h) => LogGrows(t.log, Opened(h));
      case Released(fd, h) => LogGrows(t.log, Closed(h));
      case _ =>
    }
  }

  // ---------------------------------------------------------------------------
  // What a new descriptor is
  // ---------------------------------------------------------------------------

  /** `socket` yields a descriptor exactly for the families and styles it knows, with the network
      up, a willing bridge and room; it is the lowest free one, and no other slot changes. */
  lemma SocketGives(t: Table, net: bool, domain: int, style: int, protocol: int, reply: SocketReply)
    requires |t.fds| == MAX_FD
    ensures var o, fd := SocketStep(t, net, domain, style, protocol, reply), FirstFree(t.fds, FIRST_FD);
            && (o.answer.Value? <==> net && domain == 2 && style in {1, 2} && reply.Granted? && fd < MAX_FD)
            && (o.answer.Value? ==>
                  && o.answer.n == fd && Holds(o.table.fds, fd, reply.handle)
                  && (o.table.fds[fd].proto == 6 <==> style == 1)
                  && (o.table.fds[fd].proto == 1 <==> style == 2 && protocol == 1)
                  && !o.table.fds[fd].listening && !o.table.fds[fd].connected && !o.table.fds[fd].nonblock
                  && forall i :: 0 <= i < MAX_FD && i != fd ==> o.table.fds[i] == t.fds[i])
            && (!o.answer.Value? ==> o.table.fds == t.fds)
            && (o.answer == Failed(ENETDOWN) <==> !net)
            && (o.answer == Failed(EAFNOSUPPORT) <==> net && domain != 2)
            && (o.answer == Failed(EOPNOTSUPP) <==> net && domain == 2 && style !in {1, 2})
            && (o.answer == Failed(ENOBUFS) <==> net && domain == 2 && style in {1, 2} && reply.Refused?)
            && (o.answer == Failed(EMFILE) <==> net && domain == 2 && style in {1, 2} && reply.Granted? && fd == MAX_FD)
  {
    hide FirstFree;
  }

  /** `listen` answers 0 exactly on a live stream socket that the bridge lets listen; then that slot
      listens, and nothing else about it or any other slot changes. */
  lemma ListenGives(t: Table, fd: int, granted: bool)
    requires |t.fds| == MAX_FD
    ensures var o := ListenStep(t, fd, granted);
            && (o.answer == Value(0) <==> LiveOf(t.fds, fd, Sock) && t.fds[fd].proto == 6 && granted)
            && (o.answer != Value(0) ==> o.answer.Failed? && o.table == t)
            && (o.answer == Value(0) ==>
                  && o.table.fds[fd].listening && o.table.fds[fd].(listening := t.fds[fd].listening) == t.fds[fd]
                  && OthersKept(t, o.table, fd))
  {
  }

  /** FIONBIO answers 0 exactly on a live socket; then that slot blocks or not as asked, and nothing
      else changes. */
  lemma SetNonblockGives(t: Table, fd: int, on: bool)
    requires |t.fds| == MAX_FD
    ensures var o := SetNonblockStep(t, fd, on);
            && (o.answer == Value(0) <==> LiveOf(t.fds, fd, Sock))
            && (o.answer != Value(0) ==> o.answer == Failed(EBADF) && o.table == t)
            && (o.answer == Value(0) ==>
                  && o.table.fds[fd].nonblock == on && o.table.fds[fd].(nonblock := t.fds[fd].nonblock) == t.fds[fd]
                  && OthersKept(t, o.table, fd))
  {
  }

  /** `close` answers 0 exactly on a live socket; then its handle is closed at the bridge, its descriptor
      is free, and no other slot changes. */
  lemma CloseGives(t: Table, fd: int)
    requires |t.fds| == MAX_FD
    ensures var o := CloseStep(t, fd);
            && (o.answer == Value(0) <==> LiveOf(t.fds, fd, Sock))
            && (o.answer != Value(0) ==> o.answer == Failed(EBADF) && o.table == t)
            && (o.answer == Value(0) ==>
                  && !Live(o.table.fds, fd) && o.table.log == t.log + [Closed(t.fds[fd].handle)]
                  && OthersKept(t.(log := o.table.log), o.table, fd))
  {
  }

  /** A pair is made exactly when two descriptors are free: the lowest two, the read end first, linked to
      each other, with nothing signalled. Without room for both no descriptor is taken. */
  lemma PairGives(t: Table)
    requires |t.fds| == MAX_FD
    ensures var o := CreatePairStep(t);
            && (o.answer.Pair? <==> exists r, w :: r < w && Free(t.fds, r) && Free(t.fds, w))
            && (o.answer.Pair? ==>
                  var r, w := o.answer.r, o.answer.w;
                  && r < w && Free(t.fds, r) && Free(t.fds, w) && (forall i :: i < w && Free(t.fds, i) ==> i == r)
                  && LiveOf(o.table.fds, r, SigRead) && o.table.fds[r].partner == w && o.table.fds[r].signals == 0
                  && LiveOf(o.table.fds, w, SigWrite) && o.table.fds[w].partner == r
                  && (forall i :: 0 <= i < MAX_FD && i != r && i != w ==> o.table.fds[i] == t.fds[i]))
            && (!o.answer.Pair? ==>
                  && o.answer == Failed(EMFILE)
                  && forall i :: 0 <= i < MAX_FD ==> o.table.fds[i].used == t.fds[i].used && (t.fds[i].used ==> o.table.fds[i] == t.fds[i]))
            && o.table.log == t.log
  {
    hide FirstFree;
    var r := FirstFree(t.fds, FIRST_FD);
    assert forall i :: Free(t.fds, i) ==> i >= r;
    if r < MAX_FD {
      var one := t.fds[r := CLAIMED];
      var w := FirstFree(one, FIRST_FD);
      forall i | Free(t.fds, i) && i < w
        ensures i == r
      {
        assert one[i].used;
      }
      if w < MAX_FD {
        assert Free(t.fds, r) && Free(t.fds, w) && r < w;
      }
    }
  }

  predicate Free(fds: seq<Slot>, fd: int)
    requires |fds| == MAX_FD
  {
    FIRST_FD <= fd < MAX_FD && !fds[fd].used
  }

  /** Signals: a read takes one exactly when there is one, a write adds one to the slot that has the
      partner's number, whatever that is now, and a close frees the slot. */
  lemma SignalGives(t: Table, fd: int)
    requires |t.fds| == MAX_FD
    ensures var o := ReadSignalStep(t, fd);
            && (o.answer == Value(1) <==> LiveOf(t.fds, fd, SigRead) && t.fds[fd].signals > 0)
            && (o.answer == Failed(EWOULDBLOCK) <==> LiveOf(t.fds, fd, SigRead) && t.fds[fd].signals == 0)
            && (o.answer != Value(1) ==> o.answer.Failed? && o.table == t)
            && (o.answer == Value(1) ==> o.table.fds[fd] == t.fds[fd].(signals := t.fds[fd].signals - 1) && OthersKept(t, o.table, fd))
    ensures var o := WriteSignalStep(t, fd);
            && (o.answer == Value(1) <==> LiveOf(t.fds, fd, SigWrite) && Live(t.fds, t.fds[fd].partner))
            && (o.answer == Failed(EPIPE) <==> LiveOf(t.fds, fd, SigWrite) && !Live(t.fds, t.fds[fd].partner))
            && (o.answer != Value(1) ==> o.answer.Failed? && o.table == t)
            && (o.answer == Value(1) ==>
                  var r := t.fds[fd].partner;
                  && o.table.fds[r] == t.fds[r].(signals := (t.fds[r].signals + 1) % 0x1_0000_0000)
                  && OthersKept(t, o.table, r))
    ensures var o := CloseSignalStep(t, fd);
            !Live(o.table.fds, fd) && OthersKept(t, o.table, fd) && (!Live(t.fds, fd) ==> o.table == t)
  {
  }

  ghost predicate OthersKept(t: Table, u: Table, fd: int)
    requires |t.fds| == |u.fds| == MAX_FD
  {
    u.log == t.log && forall i :: 0 <= i < MAX_FD && i != fd ==> u.fds[i] == t.fds[i]
  }

  /** The poll that decides an `accept`: all before it said "not ready" to a blocking listener. */
  lemma {:induction false} AwaitDecides(replies: seq<AcceptReply>, nonblock: bool) returns (k: nat)
    ensures k <= |replies| && (forall j :: 0 <= j < k ==> replies[j] == NotReady && !nonblock)
    ensures k == |replies| ==> Await(replies, nonblock) == StillWaiting
    ensures k < |replies| ==> (replies[k] == NotReady ==> nonblock)
    ensures k < |replies| ==> Await(replies, nonblock) == match replies[k]
                                                          case NewConnection(h, ip, port) => Got(h, ip, port)
                                                          case NotReady => Gave(EWOULDBLOCK)
                                                          case Broken => Gave(EIO)
    decreases |replies|
  {
    if replies == [] || replies[0] != NotReady || nonblock {
      k := 0;
    } else {
      var k' := AwaitDecides(replies[1..], nonblock);
      k := k' + 1;
    }
  }

  /** An accepted descriptor is the lowest free one, connected to the peer that the deciding poll
      named, with the listener's local address; no other slot changes. */
  lemma AcceptGives(t: Table, fd: int, replies: seq<AcceptReply>) returns (k: nat)
    requires |t.fds| == MAX_FD
    ensures k <= |replies| && (LiveOf(t.fds, fd, Sock) ==> forall j :: 0 <= j < k ==> replies[j] == NotReady && !t.fds[fd].nonblock)
    ensures var o, n := AcceptStep(t, fd, replies), FirstFree(t.fds, FIRST_FD);
            && (o.answer.Value? <==> LiveOf(t.fds, fd, Sock) && t.fds[fd].listening && k < |replies| && replies[k].NewConnection? && n < MAX_FD)
            && (o.answer.Value? ==>
                  && o.answer.n == n != fd && Holds(o.table.fds, n, replies[k].handle)
                  && o.table.fds[n].connected && o.table.fds[n].proto == 6
                  && o.table.fds[n].peerIp == replies[k].ip && o.table.fds[n].peerPort == replies[k].port % 0x1_0000
                  && o.table.fds[n].localIp == t.fds[fd].localIp && o.table.fds[n].localPort == t.fds[fd].localPort
                  && forall i :: 0 <= i < MAX_FD && i != n ==> o.table.fds[i] == t.fds[i])
            && (!o.answer.Value? ==> o.table.fds == t.fds)
            && (o.answer == Failed(EINVAL) <==> !LiveOf(t.fds, fd, Sock) || !t.fds[fd].listening)
            && (LiveOf(t.fds, fd, Sock) && t.fds[fd].listening ==>
                  && (o.answer == Waiting <==> k == |replies|)
                  && (o.answer == Failed(EIO) <==> k < |replies| && replies[k] == Broken)
                  && (o.answer == Failed(EWOULDBLOCK) <==> k < |replies| && replies[k] == NotReady)
                  && (o.answer == Failed(EMFILE) <==> k < |replies| && replies[k].NewConnection? && n == MAX_FD))
  {
    hide FirstFree, Await;
    k := 0;
    if LiveOf(t.fds, fd, Sock) {
      k := AwaitDecides(replies, t.fds[fd].nonblock);
    }
  }

  // ---------------------------------------------------------------------------
  // What a descriptor is, from the history of calls and answers
  // ---------------------------------------------------------------------------

  datatype Event = Event(op: Op, answer: Answer)

  /** The calls of a run with their answers. */
  function History(t: Table, ops: seq<Op>): (r: seq<Event>)
    requires |t.fds| == MAX_FD
    ensures |r| == |ops|
    decreases |ops|
  {
    if ops == [] then []
    else
      var n := |ops| - 1;
      History(t, ops[..n]) + [Event(ops[n], Step(Run(t, ops[..n]), ops[n]).answer)]
  }

  /** The call made this descriptor a socket. */
  predicate Opens(e: Event, fd: int)
  {
    (e.op.Socket? || e.op.Accept?) && e.answer == Value(fd)
  }

  /** The call released this descriptor, or made it an end of a signalling pair. */
  predicate Ends(e: Event, fd: int)
  {
    || (e.op == Close(fd) && e.answer == Value(0))
    || e.op == CloseSignal(fd)
    || (e.op.CreatePair? && e.answer.Pair? && fd in {e.answer.r, e.answer.w})
  }

  /** How a descriptor came to be the socket it is. */
  datatype Origin = NotSocket | BySocket(style: int) | ByAccept

  function OriginOf(past: seq<Event>, fd: int): Origin
    decreases |past|
  {
    if past == [] then NotSocket
    else
      var e := past[|past| - 1];
      if Opens(e, fd) then (if e.op.Socket? then BySocket(e.op.style) else ByAccept)
      else if Ends(e, fd) then NotSocket
      else OriginOf(past[..|past| - 1], fd)
  }

  /** A `listen` on this descriptor succeeded since it was opened. */
  predicate ListenedSince(past: seq<Event>, fd: int)
    decreases |past|
  {
    past != [] &&
    var e := past[|past| - 1];
    (e.op.Listen? && e.op.fd == fd && e.answer == Value(0))
    || (!Opens(e, fd) && !Ends(e, fd) && ListenedSince(past[..|past| - 1], fd))
  }

  /** What the last successful FIONBIO on this descriptor since it was opened asked for. */
  predicate NonblockSince(past: seq<Event>, fd: int)
    decreases |past|
  {
    past != [] &&
    var e := past[|past| - 1];
    if e.op.SetNonblock? && e.op.fd == fd && e.answer == Value(0) then e.op.on
    else !Opens(e, fd) && !Ends(e, fd) && NonblockSince(past[..|past| - 1], fd)
  }

  /** A slot is what the history says: a live socket exactly when a call opened it and none ended it
      since; a stream when it was accepted or asked for as one, connected when it was accepted; it
      listens and blocks as it was told since. */
  ghost predicate AsTold(fds: seq<Slot>, past: seq<Event>, fd: int)
    requires |fds| == MAX_FD
  {
    var origin := OriginOf(past, fd);
    && (LiveOf(fds, fd, Sock) <==> origin != NotSocket)
    && (origin != NotSocket ==>
          && FIRST_FD <= fd < MAX_FD
          && (fds[fd].proto == 6 <==> origin == ByAccept || origin == BySocket(1))
          && (fds[fd].connected <==> origin == ByAccept)
          && (fds[fd].listening <==> ListenedSince(past, fd))
          && (fds[fd].nonblock <==> NonblockSince(past, fd)))
  }

  lemma HistoryGrows(past: seq<Event>, e: Event, fd: int)
    ensures OriginOf(past + [e], fd)
         == if Opens(e, fd) then (if e.op.Socket? then BySocket(e.op.style) else ByAccept)
            else if Ends(e, fd) then NotSocket else OriginOf(past, fd)
    ensures ListenedSince(past + [e], fd)
       <==> (e.op.Listen? && e.op.fd == fd && e.answer == Value(0)) || (!Opens(e, fd) && !Ends(e, fd) && ListenedSince(past, fd))
    ensures NonblockSince(past + [e], fd)
       <==> if e.op.SetNonblock? && e.op.fd == fd && e.answer == Value(0) then e.op.on
            else !Opens(e, fd) && !Ends(e, fd) && NonblockSince(past, fd)
  {
    assert (past + [e])[..|past|] == past;
  }

  /** A slot that gets filled was free. */
  lemma PlacedSlot(t: Table, slot: Slot, fd: int)
    requires |t.fds| == MAX_FD
    ensures var o := Place(t, slot);
            && (o.answer == Value(fd) ==> FIRST_FD <= fd < MAX_FD && o.table.fds[fd] == slot)
            && (o.answer != Value(fd) && 0 <= fd < MAX_FD ==> o.table.fds[fd] == t.fds[fd])
  {
    hide FirstFree;
  }

  lemma PairedSlot(t: Table, fd: int)
    requires |t.fds| == MAX_FD && FIRST_FD <= fd < MAX_FD
    ensures var o := CreatePairStep(t);
            if o.answer.Pair? && fd in {o.answer.r, o.answer.w} then !LiveOf(o.table.fds, fd, Sock)
            else o.table.fds[fd] == t.fds[fd] || (!t.fds[fd].used && !o.table.fds[fd].used)
  {
    hide FirstFree;
  }

  /** One operation keeps the slots in step with the history. */
  lemma StepAsTold(t: Table, op: Op, past: seq<Event>, fd: int)
    requires |t.fds| == MAX_FD && AsTold(t.fds, past, fd)
    ensures AsTold(Step(t, op).table.fds, past + [Event(op, Step(t, op).answer)], fd)
  {
    hide FirstFree, Place, CreatePairStep, Await, OriginOf, ListenedSince, NonblockSince;
    HistoryGrows(past, Event(op, Step(t, op).answer), fd);
    match op {
      case Socket(_, _, style, protocol, reply) =>
        if reply.Granted? && ProtocolOf(style, protocol).Proto? {
          PlacedSlot(t, CLAIMED.(kind := Sock, proto := ProtocolOf(style, protocol).number, handle := reply.handle), fd);
        }
      case Accept(l, replies) =>
        if LiveOf(t.fds, l, Sock) {
          var got := Await(replies, t.fds[l].nonblock);
          if got.Got? {
            PlacedSlot(t, AcceptedSlot(t.fds[l], got.handle, got.ip, got.port), fd);
          }
        }
      case CreatePair =>
        if FIRST_FD <= fd < MAX_FD {
          PairedSlot(t, fd);
        }
      case _ =>
    }
  }

  /** Over every run from the empty table, every descriptor is what the calls and their answers made
      it: it listens if and only if a `listen` on it succeeded since it was opened, and it does not
      block exactly as the last FIONBIO since then said. */
  lemma {:induction false} TableFollowsHistory(ops: seq<Op>, fd: int)
    ensures AsTold(Run(EMPTY, ops).fds, History(EMPTY, ops), fd)
    decreases |ops|
  {
    hide Step, AsTold;
    if ops == [] {
      EmptyAsTold(fd);
    } else {
      var n := |ops| - 1;
      TableFollowsHistory(ops[..n], fd);
      StepAsTold(Run(EMPTY, ops[..n]), ops[n], History(EMPTY, ops[..n]), fd);
    }
  }

  /** So after any run, `accept` yields a descriptor exactly on a socket that was told to listen since
      it was opened, when the deciding poll brings a connection and a descriptor is free. */
  lemma AcceptOverRun(ops: seq<Op>, fd: int, replies: seq<AcceptReply>) returns (k: nat)
    ensures k <= |replies|
    ensures var t, past := Run(EMPTY, ops), History(EMPTY, ops);
            && (OriginOf(past, fd) != NotSocket ==>
                  (forall j :: 0 <= j < k ==> replies[j] == NotReady && !NonblockSince(past, fd)))
            && (Step(t, Accept(fd, replies)).answer.Value? <==>
                  && OriginOf(past, fd) != NotSocket && ListenedSince(past, fd)
                  && k < |replies| && replies[k].NewConnection?
                  && exists i :: 3 <= i < 256 && !Live(t.fds, i))
  {
    hide Run, History, OriginOf, ListenedSince, NonblockSince, FirstFree;
    TableFollowsHistory(ops, fd);
    k := AcceptGives(Run(EMPTY, ops), fd, replies);
    var fds := Run(EMPTY, ops).fds;
    if FirstFree(fds, FIRST_FD) < MAX_FD {
      assert !Live(fds, FirstFree(fds, FIRST_FD));
    }
  }

  lemma EmptyAsTold(fd: int)
    ensures AsTold(EMPTY.fds, [], fd)
  {
  }

  // ---------------------------------------------------------------------------
  // Signalling pairs
  // ---------------------------------------------------------------------------

  /** Both ends are open, and no other write end has the read end's number. */
  ghost predicate Isolated(fds: seq<Slot>, r: int, w: int)
    requires |fds| == MAX_FD
  {
    && LiveOf(fds, r, SigRead) && LiveOf(fds, w, SigWrite) && fds[w].partner == r
    && forall i :: LiveOf(fds, i, SigWrite) && fds[i].partner == r ==> i == w
  }

  /** A counter that sees only this pair's operations. */
  function Counter(c: nat, ops: seq<Op>, r: int, w: int): nat
    decreases |ops|
  {
    if ops == [] then c
    else
      var before := Counter(c, ops[..|ops| - 1], r, w);
      match ops[|ops| - 1]
      case WriteSignal(fd) => if fd == w then (before + 1) % COUNTER_MODULUS else before
      case ReadSignal(fd) => if fd == r && before > 0 then before - 1 else before
      case _ => before
  }

  /** One operation on an isolated pair: only its own reads, writes and closes touch it. */
  lemma PairStep(t: Table, op: Op, r: int, w: int)
    requires |t.fds| == MAX_FD && Isolated(t.fds, r, w)
    requires op != CloseSignal(r) && op != CloseSignal(w)
    ensures Isolated(Step(t, op).table.fds, r, w)
    ensures Step(t, op).table.fds[r].signals
         == match op
            case WriteSignal(fd) => if fd == w then (t.fds[r].signals + 1) % COUNTER_MODULUS else t.fds[r].signals
            case ReadSignal(fd) => if fd == r && t.fds[r].signals > 0 then t.fds[r].signals - 1 else t.fds[r].signals
            case _ => t.fds[r].signals
    ensures op == WriteSignal(w) ==> Step(t, op).answer == Value(1)
    ensures op == ReadSignal(r) ==> (Step(t, op).answer == Value(1) <==> t.fds[r].signals > 0)
  {
    hide FirstFree, Await, Place, CreatePairStep;
    match op {
      case Socket(_, _, style, protocol, reply) =>
        if Step(t, op).table != t {
          PairBesidePlace(t, CLAIMED.(kind := Sock, proto := ProtocolOf(style, protocol).number, handle := reply.handle), r, w);
        }
      case Accept(fd, replies) =>
        if Step(t, op).table != t {
          var got := Await(replies, t.fds[fd].nonblock);
          PairBesidePlace(t, AcceptedSlot(t.fds[fd], got.handle, got.ip, got.port), r, w);
        }
      case CreatePair => PairBesidePair(t, r, w);
      case _ =>
    }
  }

  lemma PairBesidePlace(t: Table, slot: Slot, r: int, w: int)
    requires |t.fds| == MAX_FD && Isolated(t.fds, r, w) && slot.kind == Sock
    ensures Isolated(Place(t, slot).table.fds, r, w) && Place(t, slot).table.fds[r] == t.fds[r]
  {
    hide FirstFree;
  }

  lemma PairBesidePair(t: Table, r: int, w: int)
    requires |t.fds| == MAX_FD && Isolated(t.fds, r, w)
    ensures Isolated(CreatePairStep(t).table.fds, r, w) && CreatePairStep(t).table.fds[r] == t.fds[r]
  {
    hide FirstFree;
  }

  /** While neither end is closed, an isolated pair is a counter of its own writes less its own
      reads, whatever the other descriptors do. */
  lemma {:induction false} PairOverRun(t: Table, ops: seq<Op>, r: int, w: int)
    requires |t.fds| == MAX_FD && Isolated(t.fds, r, w)
    requires forall k :: 0 <= k < |ops| ==> ops[k] != CloseSignal(r) && ops[k] != CloseSignal(w)
    ensures Isolated(Run(t, ops).fds, r, w)
    ensures Run(t, ops).fds[r].signals == Counter(t.fds[r].signals, ops, r, w)
    decreases |ops|
  {
    hide Step;
    if ops != [] {
      var n := |ops| - 1;
      PairOverRun(t, ops[..n], r, w);
      PairStep(Run(t, ops[..n]), ops[n], r, w);
    }
  }

  /** A new pair is isolated exactly when no write end left over from an earlier pair still has
      the number its read end gets. */
  lemma FreshPairIsolatedIff(t: Table)
    requires |t.fds| == MAX_FD && CreatePairStep(t).answer.Pair?
    ensures var o := CreatePairStep(t);
            && o.table.fds[o.answer.r].signals == 0 && o.answer.r == FirstFree(t.fds, FIRST_FD)
            && (Isolated(o.table.fds, o.answer.r, o.answer.w)
                <==> forall i :: LiveOf(t.fds, i, SigWrite) ==> t.fds[i].partner != FirstFree(t.fds, FIRST_FD))
  {
    hide FirstFree;
    var o := CreatePairStep(t);
    var r, w := o.answer.r, o.answer.w;
    assert forall i :: i != r && i != w ==> (LiveOf(t.fds, i, SigWrite) <==> LiveOf(o.table.fds, i, SigWrite));
    assert !LiveOf(t.fds, r, SigWrite) && !LiveOf(t.fds, w, SigWrite);
  }

  /** The leftover case happens: a write end whose partner was closed signals the stranger that
      got the partner's number. */
  lemma StaleWriter()
    ensures var t := Run(EMPTY, [CreatePair, CloseSignal(3), CreatePair, WriteSignal(4)]);
            LiveOf(t.fds, 3, SigRead) && t.fds[3].partner == 5 && t.fds[3].signals == 1
  {
    hide Run, CreatePairStep;
    var ops := [CreatePair, CloseSignal(3), CreatePair, WriteSignal(4)];
    RunStep(EMPTY, [], CreatePair);
    RunStep(EMPTY, ops[..1], CloseSignal(3));
    RunStep(EMPTY, ops[..2], CreatePair);
    RunStep(EMPTY, ops[..3], WriteSignal(4));
    RunNothing(EMPTY);
    CreatesPair(EMPTY, 3, 4);
    var first := CreatePairStep(EMPTY).table;
    var second := CloseSignalStep(first, 3).table;
    CreatesPair(second, 3, 5);
    assert [] + ops[..1] == ops[..1] && ops[..1] == [CreatePair];
    assert ops[..1] + [CloseSignal(3)] == ops[..2] && ops[..2] + [CreatePair] == ops[..3];
    assert ops[..3] + [WriteSignal(4)] == ops;
  }

  /** The two lowest free descriptors become a pair. */
  lemma CreatesPair(t: Table, r: nat, w: nat)
    requires |t.fds| == MAX_FD && FIRST_FD <= r < w < MAX_FD && !t.fds[r].used && !t.fds[w].used
    requires forall i :: FIRST_FD <= i < w && i != r ==> t.fds[i].used
    ensures CreatePairStep(t).table.fds
         == t.fds[r := CLAIMED.(kind := SigRead, partner := w)][w := CLAIMED.(kind := SigWrite, partner := r)]
  {
    hide FirstFree;
    FreeAt(t.fds, r);
    FreeAt(t.fds[r := CLAIMED], w);
  }

  lemma FreeAt(fds: seq<Slot>, k: nat)
    requires |fds| == MAX_FD && FIRST_FD <= k < MAX_FD && !fds[k].used
    requires forall i :: FIRST_FD <= i < k ==> fds[i].used
    ensures FirstFree(fds, FIRST_FD) == k
  {
    hide FirstFree;
    assert FirstFree(fds, FIRST_FD) >= k;
  }

  lemma RunNothing(t: Table)
    requires |t.fds| == MAX_FD
    ensures Run(t, []) == t
  {
  }

  lemma RunStep(t: Table, ops: seq<Op>, op: Op)
    requires |t.fds| == MAX_FD
    ensures Run(t, ops + [op]) == Step(Run(t, ops), op).table
  {
    assert (ops + [op])[..|ops|] == ops;
  }

  // ---------------------------------------------------------------------------
  // The table in place
  // ---------------------------------------------------------------------------

  class Sockets {
    const fds: array<Slot>
    ghost var log: seq<BridgeCall>

    ghost predicate Valid()
    {
      fds.Length == MAX_FD
    }

    ghost function View(): (t: Table)
      requires Valid()
      reads this, fds
      ensures |t.fds| == MAX_FD
    {
      Table(fds[..], log)
    }

    constructor ()
      ensures Valid() && View() == EMPTY && fresh(fds)
    {
      fds := new Slot[MAX_FD](i => ZERO);
      log := [];
    }

    method Get(fd: int) returns (live: bool)
      requires Valid()
      ensures live == Live(fds[..], fd)
    {
      live := FIRST_FD <= fd < MAX_FD && fds[fd].used;
    }

    /** `ak_alloc`; MAX_FD stands for -1 with EMFILE. */
    method Alloc() returns (fd: nat)
      requires Valid()
      modifies fds
      ensures fd == FirstFree(old(fds[..]), FIRST_FD)
      ensures fds[..] == if fd < MAX_FD then old(fds[..])[fd := CLAIMED] else old(fds[..])
    {
      fd := FIRST_FD;
      while fd < MAX_FD
        invariant FIRST_FD <= fd <= MAX_FD
        invariant fds[..] == old(fds[..])
        invariant FirstFree(fds[..], FIRST_FD) == FirstFree(fds[..], fd)
      {
        if !fds[fd].used {
          fds[fd] := CLAIMED;
          return;
        }
        fd := fd + 1;
      }
    }

    method OpenSocket(net: bool, domain: int, style: int, protocol: int, reply: SocketReply) returns (a: Answer)
      requires Valid()
      modifies this, fds
      ensures Outcome(View(), a) == Step(old(View()), Socket(net, domain, style, protocol, reply))
    {
      hide FirstFree;
      if !net {
        return Failed(ENETDOWN);
      }
      if domain != 2 {
        return Failed(EAFNOSUPPORT);
      }
      var number := 6;
      if style == 2 {
        number := if protocol == 1 then 1 else 17;
      } else if style != 1 {
        return Failed(EOPNOTSUPP);
      }
      if reply.Refused? {
        return Failed(ENOBUFS);
      }
      log := log + [Opened(reply.handle)];
      var fd := Alloc();
      if fd == MAX_FD {
        log := log + [Closed(reply.handle)];
        return Failed(EMFILE);
      }
      fds[fd] := fds[fd].(kind := Sock, proto := number, handle := reply.handle);
      return Value(fd);
    }

    method CloseSocket(fd: int) returns (a: Answer)
      requires Valid()
      modifies this, fds
      ensures Outcome(View(), a) == Step(old(View()), Close(fd))
    {
      var live := Get(fd);
      if !live || fds[fd].kind != Sock {
        return Failed(EBADF);
      }
      log := log + [Closed(fds[fd].handle)];
      fds[fd] := fds[fd].(used := false);
      return Value(0);
    }

    /** The replies are those of the successive polls; a blocking call that has used them up is
        still waiting. */
    method AcceptConnection(fd: int, replies: seq<AcceptReply>) returns (a: Answer)
      requires Valid()
      modifies this, fds
      ensures Outcome(View(), a) == Step(old(View()), Accept(fd, replies))
    {
      hide FirstFree;
      var live := Get(fd);
      if !live || fds[fd].kind != Sock || !fds[fd].listening {
        return Failed(EINVAL);
      }
      var i := 0;
      while true
        invariant 0 <= i <= |replies|
        invariant View() == old(View())
        invariant Await(replies, fds[fd].nonblock) == Await(replies[i..], fds[fd].nonblock)
        decreases |replies| - i
      {
        if i == |replies| {
          return Waiting;
        }
        if replies[i].NewConnection? {
          break;
        }
        if replies[i].Broken? {
          return Failed(EIO);
        }
        if fds[fd].nonblock {
          return Failed(EWOULDBLOCK);
        }
        i := i + 1;
      }
      var reply := replies[i];
      log := log + [Opened(reply.handle)];
      var nfd := Alloc();
      if nfd == MAX_FD {
        log := log + [Closed(reply.handle)];
        return Failed(EMFILE);
      }
      fds[nfd] := fds[nfd].(kind := Sock, proto := 6, handle := reply.handle, connected := true,
                            peerIp := reply.ip, peerPort := reply.port % 0x1_0000);
      fds[nfd] := fds[nfd].(localIp := fds[fd].localIp, localPort := fds[fd].localPort);
      return Value(nfd);
    }

    method ListenOn(fd: int, granted: bool) returns (a: Answer)
      requires Valid()
      modifies this, fds
      ensures Outcome(View(), a) == Step(old(View()), Listen(fd, granted))
    {
      var live := Get(fd);
      if !live || fds[fd].kind != Sock || fds[fd].proto != 6 {
        return Failed(EOPNOTSUPP);
      }
      if !granted {
        return Failed(EIO);
      }
      fds[fd] := fds[fd].(listening := true);
      return Value(0);
    }

    /** The FIONBIO request of `__gnat_socket_ioctl` */
    method IoctlNonblock(fd: int, on: bool) returns (a: Answer)
      requires Valid()
      modifies this, fds
      ensures Outcome(View(), a) == Step(old(View()), SetNonblock(fd, on))
    {
      var live := Get(fd);
      if !live || fds[fd].kind != Sock {
        return Failed(EBADF);
      }
      fds[fd] := fds[fd].(nonblock := on);
      return Value(0);
    }

    method CreateSignallingFds() returns (a: Answer)
      requires Valid()
      modifies this, fds
      ensures Outcome(View(), a) == Step(old(View()), CreatePair)
    {
      hide FirstFree;
      var r := Alloc();
      if r == MAX_FD {
        return Failed(EMFILE);
      }
      var w := Alloc();
      if w == MAX_FD {
        fds[r] := fds[r].(used := false);
        return Failed(EMFILE);
      }
      fds[r] := fds[r].(kind := SigRead);
      fds[w] := fds[w].(kind := SigWrite);
      fds[r] := fds[r].(partner := w);
      fds[w] := fds[w].(partner := r);
      return Pair(r, w);
    }

    method ReadSignallingFd(fd: int) returns (a: Answer)
      requires Valid()
      modifies this, fds
      ensures Outcome(View(), a) == Step(old(View()), ReadSignal(fd))
    {
      var live := Get(fd);
      if !live || fds[fd].kind != SigRead {
        return Failed(EBADF);
      }
      if fds[fd].signals == 0 {
        return Failed(EWOULDBLOCK);
      }
      fds[fd] := fds[fd].(signals := fds[fd].signals - 1);
      return Value(1);
    }

    method WriteSignallingFd(fd: int) returns (a: Answer)
      requires Valid()
      modifies this, fds
      ensures Outcome(View(), a) == Step(old(View()), WriteSignal(fd))
    {
      var live := Get(fd);
      if !live || fds[fd].kind != SigWrite {
        return Failed(EBADF);
      }
      var r := fds[fd].partner;
      live := Get(r);
      if !live {
        return Failed(EPIPE);
      }
      fds[r] := fds[r].(signals := (fds[r].signals + 1) % COUNTER_MODULUS);
      return Value(1);
    }

    method CloseSignallingFd(fd: int)
      requires Valid()
      modifies this, fds
      ensures View() == Step(old(View()), CloseSignal(fd)).table
    {
      var live := Get(fd);
      if live {
        fds[fd] := fds[fd].(used := false);
      }
    }
  }
}
