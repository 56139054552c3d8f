/** What the events of a DHCP client do to it (section 4.4 and figure 5 of RFC 2131): its state and its timers. */
module DHCPProtocol {
  import opened Wrappers

  datatype ClientState = IDLE | INIT | INIT_REBOOT | REBOOTING | SELECTING | REQUESTING | BOUND | RENEWING | REBINDING

  datatype TimerType = WAIT_OFFER | WAIT_ACK | T1 | T2 | LEASE_TIMEOUT | START_DHCP

  /** When a scheduled self-message arrives; of those for the same time, the one scheduled first arrives first. */
  datatype Slot = Slot(at: real, order: nat)
  {
    predicate Before(b: Slot)
    {
      at < b.at || (at == b.at && order < b.order)
    }
  }

  datatype Lease = Lease(ip: nat, renewalTime: real, rebindTime: real, leaseTime: real)

  datatype MessageType =
    DHCPDISCOVER | DHCPOFFER | DHCPREQUEST | DHCPDECLINE | DHCPACK | DHCPNAK | DHCPRELEASE | DHCPINFORM | Unknown

  /** A message: `yiaddr` is the address given to the client, 0 if unspecified. */
  datatype Message = Message(isReply: bool, xid: int, messageType: MessageType, yiaddr: nat,
                             renewalTime: real, rebindingTime: real, leaseTime: real)

  /** What the client sent: discovery messages, and requests for an address. */
  datatype Sent = Discover(xid: int) | Request(xid: int, ip: nat)

  datatype Error =
    | T2InWrongState | InvalidState | UnknownClientState | UnknownMessageType | NullLease | ScheduledInPast
    | AlreadyScheduled | NoFreeInterface | InterfaceDeletionNotImplemented | NoOutputGate | AlreadyBound

  datatype Client = Client(isOperational: bool, clientState: ClientState,
                           timerT1: Option<Slot>, timerT2: Option<Slot>, timerTo: Option<Slot>, toKind: TimerType,
                           leaseTimer: Option<Slot>, startTimer: Option<Slot>,
                           lease: Option<Lease>, xid: int, now: real, scheduled: nat,
                           gateSet: bool, bound: bool,   // the socket: its output gate, and port 68
                           sent: seq<Sent>)

  datatype Result = Ok(client: Client) | Fail(error: Error)

  const RESPONSE_TIMEOUT: real := 60.0

  /** Transaction ids and times come from outside. */
  datatype Event =
    | Expire(timer: TimerType, newXid: int)
    | Receive(at: real, m: Message, newXid: int)
    | Associated(at: real, ours: bool, newXid: int)
    | InterfaceDeleted(at: real)
    | NodeStart(at: real, startTime: real, interfaceFree: bool)
    | NodeStop(at: real)

  // ---------- the pieces ----------

  function TimerOf(c: Client, t: TimerType): Option<Slot>
  {
    match t
    case WAIT_OFFER => if c.toKind == WAIT_OFFER then c.timerTo else None
    case WAIT_ACK => if c.toKind == WAIT_ACK then c.timerTo else None
    case T1 => c.timerT1
    case T2 => c.timerT2
    case LEASE_TIMEOUT => c.leaseTimer
    case START_DHCP => c.startTimer
  }

  function WithoutTimer(c: Client, t: TimerType): Client
  {
    match t
    case WAIT_OFFER => c.(timerTo := None)
    case WAIT_ACK => c.(timerTo := None)
    case T1 => c.(timerT1 := None)
    case T2 => c.(timerT2 := None)
    case LEASE_TIMEOUT => c.(leaseTimer := None)
    case START_DHCP => c.(startTimer := None)
  }

  function WithTimeout(c: Client, kind: TimerType): Client
  {
    c.(timerTo := Some(Slot(c.now + RESPONSE_TIMEOUT, c.scheduled)), toKind := kind, scheduled := c.scheduled + 1)
  }

  function WithoutLeaseTimers(c: Client): Client
  {
    c.(timerT1 := None, timerT2 := None, timerTo := None, leaseTimer := None)
  }

  /** Discovery starts over. Sending needs the output gate. */
  function Initialised(c: Client, newXid: int): Result
  {
    if !c.gateSet then Fail(NoOutputGate)
    else
      Ok(WithTimeout(WithoutLeaseTimers(c), WAIT_OFFER)
         .(clientState := SELECTING, xid := newXid, sent := c.sent + [Discover(newXid)]))
  }

  function Requested(c: Client, newXid: int): Result
  {
    if c.clientState in {INIT_REBOOT, REQUESTING, RENEWING, REBINDING} then
      if c.lease.None? then Fail(NullLease)
      else if !c.gateSet then Fail(NoOutputGate)
      else Ok(c.(xid := newXid, sent := c.sent + [Request(newXid, c.lease.value.ip)]))
    else Fail(InvalidState)
  }

  /** The lease after an ACK: one that confirms no address leaves the times as they were. */
  function Recorded(l: Lease, m: Message): Lease
  {
    if m.yiaddr == 0 then l
    else l.(renewalTime := m.renewalTime, rebindTime := m.rebindingTime, leaseTime := m.leaseTime)
  }

  /** Bound: T1, T2 and the lease timer run from now on. */
  function Bound(c: Client, l: Lease): Client
  {
    c.(lease := Some(l), timerTo := None,
       timerT1 := Some(Slot(c.now + l.renewalTime, c.scheduled)),
       timerT2 := Some(Slot(c.now + l.rebindTime, c.scheduled + 1)),
       leaseTimer := Some(Slot(c.now + l.leaseTime, c.scheduled + 2)),
       scheduled := c.scheduled + 3, clientState := BOUND)
  }

  predicate NotInPast(l: Lease)
  {
    l.renewalTime >= 0.0 && l.rebindTime >= 0.0 && l.leaseTime >= 0.0
  }

  function Acknowledged(c: Client, m: Message): Result
  {
    if c.lease.None? then Fail(NullLease)
    else
      var l := Recorded(c.lease.value, m);
      if NotInPast(l) then Ok(Bound(c, l)) else Fail(ScheduledInPast)
  }

  /** Offers: the first is accepted. One without an address is not recorded, but the request is sent all the same. */
  function Offered(c: Client, m: Message, newXid: int): Result
  {
    var c1 := WithTimeout(c, WAIT_ACK).(clientState := REQUESTING);
    var c2 := if m.yiaddr == 0 then c1 else c1.(lease := Some(Lease(m.yiaddr, 0.0, 0.0, 0.0)));
    Requested(c2, newXid)
  }

  /** Types that the client has a name for. */
  predicate HasName(t: MessageType)
  {
    t != DHCPREQUEST && t != Unknown
  }

  function AfterMessage(c: Client, m: Message, newXid: int): Result
  {
    if !m.isReply || m.xid != c.xid then Ok(c)
    else
      match c.clientState
      case IDLE => Fail(UnknownClientState)
      case INIT_REBOOT => Fail(UnknownClientState)
      case INIT => if HasName(m.messageType) then Ok(c) else Fail(UnknownMessageType)
      case SELECTING => if m.messageType == DHCPOFFER then Offered(c, m, newXid) else Ok(c)
      case BOUND => Ok(c)
      case _ =>
        if m.messageType == DHCPACK then Acknowledged(c, m)
        else if m.messageType == DHCPNAK then Initialised(c, newXid)
        else if HasName(m.messageType) then Ok(c) else Fail(UnknownMessageType)
  }

  function AfterTimer(c: Client, t: TimerType, newXid: int): Result
  {
    match t
    case START_DHCP =>
      if c.bound then Fail(AlreadyBound)
      else
        var c1 := c.(gateSet := true, bound := true);
        if c1.lease.Some? then
          var r := Requested(c1.(clientState := INIT_REBOOT), newXid);
          if r.Fail? then r else Ok(WithTimeout(r.client, WAIT_ACK).(clientState := REBOOTING))
        else Initialised(c1, newXid)
    case WAIT_OFFER => Initialised(c, newXid)
    case WAIT_ACK => Initialised(c, newXid)
    case T1 => Requested(WithTimeout(c.(clientState := RENEWING), WAIT_ACK), newXid)
    case T2 =>
      if c.clientState != RENEWING then Fail(T2InWrongState)
      else
        var r := Requested(WithoutLeaseTimers(c.(clientState := REBINDING)), newXid);
        if r.Fail? then r else Ok(WithTimeout(r.client, WAIT_ACK))
    case LEASE_TIMEOUT => Initialised(c, newXid)
  }

  function Started(c: Client, startTime: real, interfaceFree: bool): Result
  {
    if !interfaceFree then Fail(NoFreeInterface)
    else if c.startTimer.Some? then Fail(AlreadyScheduled)
    else
      var start := if startTime > c.now then startTime else c.now;
      Ok(c.(startTimer := Some(Slot(start, c.scheduled)), scheduled := c.scheduled + 1, isOperational := true))
  }

  /** The same shutdown or crash makes UDP drop all sockets; the output gate stays set. */
  function Stopped(c: Client): Client
  {
    WithoutLeaseTimers(c).(startTimer := None, isOperational := false, bound := false)
  }

  /** A new client on a node that is down. */
  function Fresh(now: real): Client
  {
    Client(false, IDLE, None, None, None, WAIT_OFFER, None, None, None, 0, now, 0, false, false, [])
  }

  /** One event, at its time. A timer that expires is no longer scheduled. */
  function Next(c: Client, e: Event): Result
  {
    match e
    case Expire(t, newXid) =>
      if TimerOf(c, t).None? || !c.isOperational then Ok(c)
      else AfterTimer(WithoutTimer(c, t).(now := TimerOf(c, t).value.at), t, newXid)
    case Receive(at, m, newXid) =>
      if !c.isOperational then Ok(c.(now := at)) else AfterMessage(c.(now := at), m, newXid)
    case Associated(at, ours, newXid) =>
      if ours && c.isOperational then Initialised(c.(now := at), newXid) else Ok(c.(now := at))
    case InterfaceDeleted(at) =>
      if c.isOperational then Fail(InterfaceDeletionNotImplemented) else Ok(c.(now := at))
    case NodeStart(at, startTime, interfaceFree) => Started(c.(now := at), startTime, interfaceFree)
    case NodeStop(at) => Ok(Stopped(c.(now := at)))
  }

  // ---------- when events happen ----------

  predicate NotBefore(t: Option<Slot>, s: Slot)
  {
    t.Some? ==> !t.value.Before(s)
  }

  /** Nothing is scheduled before `s`. */
  predicate FirstOfAll(c: Client, s: Slot)
  {
    NotBefore(c.timerT1, s) && NotBefore(c.timerT2, s) && NotBefore(c.timerTo, s) &&
    NotBefore(c.leaseTimer, s) && NotBefore(c.startTimer, s)
  }

  predicate NotPassed(t: Option<Slot>, at: real)
  {
    t.Some? ==> at <= t.value.at
  }

  /** No timer should have expired before time `at`. */
  predicate InTime(c: Client, at: real)
  {
    c.now <= at && NotPassed(c.timerT1, at) && NotPassed(c.timerT2, at) && NotPassed(c.timerTo, at) &&
    NotPassed(c.leaseTimer, at) && NotPassed(c.startTimer, at)
  }

  /** What the environment may do: timers expire in the order of their slots, and nothing overtakes them. DHCP messages
      are sent to port 68, so they arrive only while the socket is bound to it. */
  predicate Possible(c: Client, e: Event)
  {
    match e
    case Expire(t, _) => TimerOf(c, t).Some? && FirstOfAll(c, TimerOf(c, t).value)
    case Receive(at, _, _) => InTime(c, at) && c.bound
    case Associated(at, _, _) => InTime(c, at)
    case InterfaceDeleted(at) => InTime(c, at)
    case NodeStart(at, _, _) => InTime(c, at)
    case NodeStop(at) => InTime(c, at)
  }

  // ---------- the invariant ----------

  /** T2 never comes first: T1 is due no later, or the lease ends before T2. */
  predicate Proper(l: Lease)
  {
    l.renewalTime <= l.rebindTime || l.leaseTime < l.rebindTime
  }

  /** Which timers run in which state, once DHCP was started. */
  predicate TimersFitState(c: Client)
  {
    && c.clientState in {SELECTING, REQUESTING, REBOOTING, BOUND, RENEWING, REBINDING}
    && (c.timerT1.Some? <==> c.clientState == BOUND)
    && (c.timerT2.Some? <==> c.clientState in {BOUND, RENEWING})
    && (c.leaseTimer.Some? <==> c.clientState in {BOUND, RENEWING})
    && (c.timerTo.Some? <==> c.clientState != BOUND)
    && (c.timerTo.Some? ==> c.toKind == if c.clientState == SELECTING then WAIT_OFFER else WAIT_ACK)
    && c.startTimer.None?
  }

  /** Started, between START_DHCP and the end of the operational period. */
  predicate Running(c: Client)
  {
    && c.isOperational && TimersFitState(c)
    && (c.clientState != SELECTING ==> c.lease.Some?)
    && (c.clientState == BOUND ==> !T2ComesFirst(c))
    && InTime(c, c.now) && c.gateSet && c.bound
  }

  predicate T2ComesFirst(c: Client)
    requires c.timerT1.Some? && c.timerT2.Some? && c.leaseTimer.Some?
  {
    !c.timerT1.value.Before(c.timerT2.value) && !c.leaseTimer.value.Before(c.timerT2.value)
  }

  /** Waiting for START_DHCP; when the interface was associated in the meantime, discovery has begun already. */
  predicate Starting(c: Client)
  {
    && c.isOperational && c.startTimer.Some?
    && c.timerT1.None? && c.timerT2.None? && c.leaseTimer.None?
    && (c.timerTo.Some? ==> c.toKind == WAIT_OFFER && c.gateSet)
    && InTime(c, c.now) && !c.bound
  }

  predicate Down(c: Client)
  {
    && !c.isOperational
    && c.timerT1.None? && c.timerT2.None? && c.timerTo.None? && c.leaseTimer.None? && c.startTimer.None?
    && !c.bound
  }

  predicate Sound(c: Client)
  {
    Running(c) || Starting(c) || Down(c)
  }

  /** The client acts on an ACK when it is a reply to its last request and the state waits for one. */
  predicate Awaited(c: Client, m: Message)
  {
    m.isReply && m.xid == c.xid && c.clientState in {REQUESTING, REBOOTING, RENEWING, REBINDING}
  }

  /** What is assumed of the environment: nodes that are up are not started, and ACKs that the client acts on carry
      proper times. */
  predicate Fair(c: Client, e: Event)
  {
    && (e.NodeStart? ==> Down(c))
    && (e.Receive? && e.m.messageType == DHCPACK && Awaited(c, e.m) && c.lease.Some? ==>
          Proper(Recorded(c.lease.value, e.m)))
  }

  /** The errors that a running client can raise, and exactly when. */
  predicate Fails(c: Client, e: Event, error: Error)
  {
    match e
    case InterfaceDeleted(_) => error == InterfaceDeletionNotImplemented
    case NodeStart(_, _, interfaceFree) => !interfaceFree && error == NoFreeInterface
    case Receive(_, m, _) =>
      m.isReply && m.xid == c.xid &&
      if c.clientState == SELECTING then
        m.messageType == DHCPOFFER && m.yiaddr == 0 && c.lease.None? && error == NullLease
      else if c.clientState == BOUND then false
      else if m.messageType == DHCPACK then
        c.lease.Some? && !NotInPast(Recorded(c.lease.value, m)) && error == ScheduledInPast
      else !HasName(m.messageType) && error == UnknownMessageType
    case _ => false
  }

  // ---------- steps ----------

  /** The T2 timer of a bound client comes before the others exactly when the times are not proper. */
  lemma BoundRuns(c: Client, l: Lease)
    requires NotInPast(l)
    ensures T2ComesFirst(Bound(c, l)) <==> !Proper(l)
    ensures c.isOperational && c.startTimer.None? && c.gateSet && c.bound && Proper(l) ==> Running(Bound(c, l))
  {
  }

  lemma ExpiryKeepsRunning(c: Client, e: Event)
    requires e.Expire? && Running(c) && Possible(c, e)
    ensures Next(c, e).Ok? && Running(Next(c, e).client)
  {
  }

  lemma MessageKeepsRunning(c: Client, e: Event)
    requires e.Receive? && Running(c) && Possible(c, e) && Fair(c, e)
    ensures Next(c, e).Ok? ==> Running(Next(c, e).client)
    ensures forall error :: Next(c, e) == Fail(error) <==> Fails(c, e, error)
  {
    if Awaited(c, e.m) && e.m.messageType == DHCPACK && c.lease.Some? && NotInPast(Recorded(c.lease.value, e.m)) {
      BoundRuns(c.(now := e.at), Recorded(c.lease.value, e.m));
    }
  }

  lemma OtherEventsKeepRunning(c: Client, e: Event)
    requires Running(c) && Possible(c, e) && !e.Expire? && !e.Receive? && !e.NodeStart?
    ensures Next(c, e).Ok? ==> if e.NodeStop? then Down(Next(c, e).client) else Running(Next(c, e).client)
    ensures forall error :: Next(c, e) == Fail(error) <==> Fails(c, e, error)
  {
  }

  /** While DHCP runs, every event keeps the timers fitting the state, and these are the only errors. */
  lemma RunningStep(c: Client, e: Event)
    requires Running(c) && Possible(c, e) && Fair(c, e)
    ensures Next(c, e).Ok? ==> if e.NodeStop? then Down(Next(c, e).client) else Running(Next(c, e).client)
    ensures forall error :: Next(c, e) == Fail(error) <==> Fails(c, e, error)
  {
    match e
    case Expire(_, _) => ExpiryKeepsRunning(c, e);
    case Receive(_, _, _) => MessageKeepsRunning(c, e);
    case _ => OtherEventsKeepRunning(c, e);
  }

  lemma StartingStep(c: Client, e: Event)
    requires Starting(c) && Possible(c, e) && Fair(c, e)
    ensures Next(c, e).Ok? ==> Sound(Next(c, e).client)
    ensures e.Expire? && e.timer == START_DHCP ==> Next(c, e).Ok? && Running(Next(c, e).client)
    ensures Next(c, e) == Fail(InterfaceDeletionNotImplemented) <==> e.InterfaceDeleted?
    ensures Next(c, e) == Fail(NoOutputGate) <==> e.Associated? && e.ours && !c.gateSet
    ensures Next(c, e).Fail? ==> Next(c, e).error == InterfaceDeletionNotImplemented || Next(c, e).error == NoOutputGate
  {
  }

  lemma DownStep(c: Client, e: Event)
    requires Down(c) && Possible(c, e)
    ensures Next(c, e).Ok? ==> if e.NodeStart? then Starting(Next(c, e).client) else Down(Next(c, e).client)
    ensures Next(c, e).Fail? ==> e.NodeStart? && !e.interfaceFree && Next(c, e).error == NoFreeInterface
  {
  }

  /** A client that runs is never stuck: some timer is the next to expire, and the client keeps running when it does. */
  lemma NeverStuck(c: Client, newXid: int)
    requires Running(c)
    ensures exists t :: GoesOn(c, t, newXid)
  {
    var t := NextTimer(c);
    assert TimerOf(c, t).Some? && FirstOfAll(c, TimerOf(c, t).value);
    assert GoesOn(c, t, newXid);
  }

  predicate GoesOn(c: Client, t: TimerType, newXid: int)
  {
    var e := Expire(t, newXid);
    Possible(c, e) && Next(c, e).Ok? && Running(Next(c, e).client)
  }

  /** The timer that expires next. */
  function NextTimer(c: Client): TimerType
  {
    var a := if c.timerTo.Some? then c.toKind else T1;
    var b := Sooner(c, a, T1);
    var d := Sooner(c, b, T2);
    var f := Sooner(c, d, LEASE_TIMEOUT);
    Sooner(c, f, START_DHCP)
  }

  function Sooner(c: Client, a: TimerType, b: TimerType): TimerType
  {
    if TimerOf(c, b).None? then a
    else if TimerOf(c, a).None? || TimerOf(c, b).value.Before(TimerOf(c, a).value) then b
    else a
  }

  // ---------- runs ----------

  /** A run, up to the first error. */
  function Run(c: Client, es: seq<Event>): Result
  {
    if es == [] then Ok(c)
    else
      var r := Run(c, es[..|es| - 1]);
      if r.Fail? then r else Next(r.client, es[|es| - 1])
  }

  predicate FairRun(c: Client, es: seq<Event>)
  {
    es == [] ||
    var front := es[..|es| - 1];
    var r := Run(c, front);
    FairRun(c, front) && (r.Ok? ==> Possible(r.client, es[|es| - 1]) && Fair(r.client, es[|es| - 1]))
  }

  predicate Reportable(error: Error)
  {
    error in {NullLease, UnknownMessageType, ScheduledInPast, NoFreeInterface, InterfaceDeletionNotImplemented,
              NoOutputGate}
  }

  /** Over any run the armed timers are a function of the state, and the errors about wrong states do not occur. */
  lemma {:induction false} RunsAreSound(c: Client, es: seq<Event>)
    requires Sound(c) && FairRun(c, es)
    ensures Run(c, es).Ok? ==> Sound(Run(c, es).client)
    ensures Run(c, es).Fail? ==> Reportable(Run(c, es).error)
    decreases |es|
  {
    if es != [] {
      var front, e := es[..|es| - 1], es[|es| - 1];
      RunsAreSound(c, front);
      var r := Run(c, front);
      if r.Ok? {
        OneEvent(r.client, e);
      }
    }
  }

  lemma OneEvent(c: Client, e: Event)
    requires Sound(c) && Possible(c, e) && Fair(c, e)
    ensures Next(c, e).Ok? ==> Sound(Next(c, e).client)
    ensures Next(c, e).Fail? ==> Reportable(Next(c, e).error)
  {
    if Running(c) {
      RunningStep(c, e);
      if Next(c, e).Fail? {
        assert Fails(c, e, Next(c, e).error);
      }
    } else if Starting(c) {
      StartingStep(c, e);
    } else {
      DownStep(c, e);
    }
  }

  lemma SoundEvent(c: Client, e: Event)
    ensures Sound(c) && Possible(c, e) && Fair(c, e) ==>
      match Next(c, e)
      case Ok(c') => Sound(c')
      case Fail(error) => Reportable(error)
  {
    if Sound(c) && Possible(c, e) && Fair(c, e) {
      OneEvent(c, e);
    }
  }

  // ---------- where the assumptions are needed ----------

  /** With improper times in an ACK, T2 raises its error as the very next event; with proper times it cannot. */
  lemma T2ErrorIff(c: Client, l: Lease, newXid: int)
    requires c.isOperational && c.startTimer.None? && NotInPast(l)
    ensures var b := Bound(c, l);
      (exists t :: Possible(b, Expire(t, newXid)) && Next(b, Expire(t, newXid)) == Fail(T2InWrongState)) <==> !Proper(l)
  {
    var b := Bound(c, l);
    BoundRuns(c, l);
    if !Proper(l) {
      assert Possible(b, Expire(T2, newXid)) && Next(b, Expire(T2, newXid)) == Fail(T2InWrongState);
    }
  }

  /** An offer without an address is said to leave the client in SELECTING; it moves on to REQUESTING, with the lease it
      had, and has nothing to request if there was none. */
  lemma OfferWithoutAddress(c: Client, m: Message, newXid: int)
    requires Running(c) && c.clientState == SELECTING
    requires m.isReply && m.xid == c.xid && m.messageType == DHCPOFFER && m.yiaddr == 0
    ensures var r := AfterMessage(c, m, newXid);
      if c.lease.None? then r == Fail(NullLease)
      else r.Ok? && r.client.clientState == REQUESTING && r.client.lease == c.lease
  {
  }

  /** A run in which every event is possible, fair or not. */
  predicate PossibleRun(c: Client, es: seq<Event>)
  {
    es == [] ||
    var front := es[..|es| - 1];
    var r := Run(c, front);
    PossibleRun(c, front) && (r.Ok? ==> Possible(r.client, es[|es| - 1]))
  }

  lemma {:induction false} RunAppend(c: Client, es: seq<Event>, e: Event)
    requires PossibleRun(c, es) && Run(c, es).Ok? && Possible(Run(c, es).client, e)
    ensures PossibleRun(c, es + [e]) && Run(c, es + [e]) == Next(Run(c, es).client, e)
  {
    var all := es + [e];
    assert all[..|all| - 1] == es && all[|all| - 1] == e;
  }

  /** For example a client that is offered an address and gets an ACK with T1 = 10, T2 = 5 and a lease of 20. */
  lemma ImproperLease()
    ensures var es := ImproperRun(); PossibleRun(Fresh(0.0), es) && Run(Fresh(0.0), es) == Fail(T2InWrongState)
  {
    var c, es := Fresh(0.0), ImproperRun();
    ImproperStart();
    var requesting := Run(c, es[..3]).client;
    RunAppend(c, es[..3], es[3]);
    assert es[..3] + [es[3]] == es[..4] && es[..4] + [es[4]] == es;
    assert Run(c, es[..4]) == Ok(Bound(requesting.(now := 2.0), Lease(1, 10.0, 5.0, 20.0)));
    RunAppend(c, es[..4], es[4]);
  }

  /** Up to the request. */
  lemma ImproperStart()
    ensures var c, es := Fresh(0.0), ImproperRun()[..3];
      PossibleRun(c, es) && Run(c, es).Ok? && Requesting(Run(c, es).client)
  {
    var c, es := Fresh(0.0), ImproperRun();
    assert [] + [es[0]] == es[..1] && es[..1] + [es[1]] == es[..2] && es[..2] + [es[2]] == es[..3];
    RunAppend(c, [], es[0]);
    RunAppend(c, es[..1], es[1]);
    RunAppend(c, es[..2], es[2]);
  }

  /** A client that waits for the ACK to its request number 8 from time 1 on. */
  predicate Requesting(c: Client)
  {
    && c.isOperational && c.bound && c.clientState == REQUESTING && c.xid == 8 && c.now == 1.0
    && c.lease == Some(Lease(1, 0.0, 0.0, 0.0)) && c.startTimer.None? && InTime(c, 2.0)
  }

  function ImproperRun(): seq<Event>
  {
    [NodeStart(0.0, 0.0, true), Expire(START_DHCP, 7),
     Receive(1.0, Message(true, 7, DHCPOFFER, 1, 0.0, 0.0, 0.0), 8),
     Receive(2.0, Message(true, 8, DHCPACK, 1, 10.0, 5.0, 20.0), 9),
     Expire(T2, 9)]
  }

  /** An association of the interface before the first START_DHCP is an error: the socket has no output gate yet. For
      example, on a node that is up at time 0 with `startTime` 10, an association at time 5. */
  lemma EarlyAssociation(newXid: int)
    ensures var es := [NodeStart(0.0, 10.0, true), Associated(5.0, true, newXid)];
      FairRun(Fresh(0.0), es) && Run(Fresh(0.0), es) == Fail(NoOutputGate)
  {
    var c, e1, e2 := Fresh(0.0), NodeStart(0.0, 10.0, true), Associated(5.0, true, newXid);
    assert [e1, e2][..1] == [e1] && [e1][..0] == [];
    assert Run(c, []) == Ok(c) && FairRun(c, []);
    assert Run(c, [e1]) == Next(c, e1) && FairRun(c, [e1]);
  }

  /** Such an offer to a client without a lease, on a node that is up at time 0: discovery starts at once, and the offer
      arrives a second later. */
  lemma OfferWithoutAddressExample()
    ensures var offer := Message(true, 7, DHCPOFFER, 0, 0.0, 0.0, 0.0);
      var es := [NodeStart(0.0, 0.0, true), Expire(START_DHCP, 7), Receive(1.0, offer, 8)];
      FairRun(Fresh(0.0), es) && Run(Fresh(0.0), es) == Fail(NullLease)
  {
    var offer := Message(true, 7, DHCPOFFER, 0, 0.0, 0.0, 0.0);
    var c, e1, e2, e3 := Fresh(0.0), NodeStart(0.0, 0.0, true), Expire(START_DHCP, 7), Receive(1.0, offer, 8);
    assert [e1, e2, e3][..2] == [e1, e2] && [e1, e2][..1] == [e1] && [e1][..0] == [];
    assert Run(c, []) == Ok(c) && FairRun(c, []);
    assert Run(c, [e1]) == Next(c, e1) && FairRun(c, [e1]);
    assert Run(c, [e1, e2]) == Next(Run(c, [e1]).client, e2) && FairRun(c, [e1, e2]);
  }
}
