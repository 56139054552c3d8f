/** `DHCPClient`: the client as an object whose fields the event handlers update. The routing table and the interface
    are left out; of the messages sent, kind, transaction id and address are kept, and of the socket, the output gate
    and the port. */
module DHCPClients {
  import opened DHCPFigure
  import opened DHCPProtocol
  import opened Wrappers

  datatype Status = Fine | Error(error: Error)

  class DHCPClient {
    var isOperational: bool
    var clientState: ClientState
    var timerT1: Option<Slot>
    var timerT2: Option<Slot>
    var timerTo: Option<Slot>
    var toKind: TimerType
    var leaseTimer: Option<Slot>
    var startTimer: Option<Slot>
    var lease: Option<Lease>
    var xid: int
    var now: real          // simulation time
    var scheduled: nat     // messages scheduled so far
    var gateSet: bool      // the socket has an output gate
    var bound: bool        // the socket is bound to port 68
    var sent: seq<Sent>

    function State(): Client
      reads this
    {
      Client(isOperational, clientState, timerT1, timerT2, timerTo, toKind, leaseTimer, startTimer, lease, xid, now,
             scheduled, gateSet, bound, sent)
    }

    /** After a handler: the state that `r` says, if it succeeded. */
    ghost predicate Gives(r: Result, status: Status)
      reads this
    {
      match r
      case Ok(c) => status == Fine && State() == c
      case Fail(error) => status == Error(error)
    }

    /** After an event `e` at state `c`: a sound client that meets a possible and fair event stays sound, or the error
        is one of those that can be reported. */
    ghost predicate StaysSound(c: Client, e: Event, status: Status)
      reads this
    {
      Sound(c) && Possible(c, e) && Fair(c, e) ==>
        match status
        case Fine => Sound(State())
        case Error(error) => Reportable(error)
    }

    constructor ()
      ensures State() == Fresh(0.0) && Down(State())
    {
      isOperational, clientState, xid, now, scheduled := false, IDLE, 0, 0.0, 0;
      timerT1, timerT2, timerTo, toKind, leaseTimer, lease := None, None, None, WAIT_OFFER, None, None;
      startTimer, gateSet, bound, sent := None, false, false, [];
    }

    /** `initialize`, for a node that is up or down. */
    method Initialize(up: bool, startTime: real, interfaceFree: bool) returns (status: Status)
      requires State() == Fresh(0.0)
      modifies this
      ensures Gives(if up then Started(old(State()), startTime, interfaceFree) else Ok(old(State())), status)
      ensures status == Fine ==> if up then Starting(State()) else Down(State())
      ensures status != Fine <==> up && !interfaceFree
    {
      status := Fine;
      if up {
        status := StartApp(now, startTime, interfaceFree);
      }
    }

    // ---------- timers ----------

    method ScheduleTimerTO(kind: TimerType)
      modifies this
      ensures State() == WithTimeout(old(State()), kind)
    {
      timerTo := None;
      toKind := kind;
      timerTo := Some(Slot(now + RESPONSE_TIMEOUT, scheduled));
      scheduled := scheduled + 1;
    }

    method CancelLeaseTimers()
      modifies this
      ensures State() == WithoutLeaseTimers(old(State()))
    {
      timerT1 := None;
      timerT2 := None;
      timerTo := None;
      leaseTimer := None;
    }

    // ---------- sending ----------

    method SendRequest(newXid: int) returns (status: Status)
      modifies this
      ensures Gives(Requested(old(State()), newXid), status)
    {
      xid := newXid;
      if clientState in {INIT_REBOOT, REQUESTING, RENEWING, REBINDING} {
        if lease.None? {
          return Error(NullLease);
        }
        status := SendToUDP(Request(newXid, lease.value.ip));
        return;
      }
      return Error(InvalidState);
    }

    method SendDiscover(newXid: int) returns (status: Status)
      modifies this`xid, this`sent
      ensures xid == newXid && status == (if gateSet then Fine else Error(NoOutputGate))
      ensures sent == if gateSet then old(sent) + [Discover(newXid)] else old(sent)
    {
      xid := newXid;
      status := SendToUDP(Discover(newXid));
    }

    /** The socket refuses to send without an output gate. Requests carry the address of the lease. */
    method SendToUDP(message: Sent) returns (status: Status)
      modifies this`sent
      ensures status == if gateSet then Fine else Error(NoOutputGate)
      ensures sent == if gateSet then old(sent) + [message] else old(sent)
    {
      if !gateSet {
        return Error(NoOutputGate);
      }
      sent := sent + [message];
      return Fine;
    }

    /** Sets the output gate and binds port 68; UDP refuses to bind a socket twice. */
    method OpenSocket() returns (status: Status)
      modifies this`gateSet, this`bound
      ensures status == if old(bound) then Error(AlreadyBound) else Fine
      ensures gateSet && bound
    {
      gateSet := true;
      if bound {
        return Error(AlreadyBound);
      }
      bound := true;
      return Fine;
    }

    method InitClient(newXid: int) returns (status: Status)
      modifies this
      ensures Gives(Initialised(old(State()), newXid), status)
    {
      CancelLeaseTimers();
      status := SendDiscover(newXid);
      if status == Fine {
        ScheduleTimerTO(WAIT_OFFER);
        clientState := SELECTING;
      }
    }

    method InitRebootedClient(newXid: int) returns (status: Status)
      modifies this
      ensures var r := Requested(old(State()), newXid);
        Gives(if r.Fail? then r else Ok(WithTimeout(r.client, WAIT_ACK).(clientState := REBOOTING)), status)
    {
      status := SendRequest(newXid);
      if status == Fine {
        ScheduleTimerTO(WAIT_ACK);
        clientState := REBOOTING;
      }
    }

    // ---------- leases ----------

    method RecordOffer(m: Message)
      modifies this`lease
      ensures lease == if m.yiaddr == 0 then old(lease) else Some(Lease(m.yiaddr, 0.0, 0.0, 0.0))
    {
      if m.yiaddr != 0 {
        lease := Some(Lease(m.yiaddr, 0.0, 0.0, 0.0));
      }
    }

    method RecordLease(m: Message)
      requires lease.Some?
      modifies this`lease
      ensures lease == Some(Recorded(old(lease).value, m))
    {
      if m.yiaddr != 0 {
        lease := Some(lease.value.(leaseTime := m.leaseTime, renewalTime := m.renewalTime,
                                   rebindTime := m.rebindingTime));
      }
    }

    /** Ends in BOUND. */
    method HandleDHCPACK(m: Message) returns (status: Status)
      modifies this
      ensures Gives(Acknowledged(old(State()), m), status)
    {
      if lease.None? {
        return Error(NullLease);
      }
      RecordLease(m);
      timerTo := None;
      status := ScheduleLeaseTimers();
      if status == Fine {
        clientState := BOUND;
      }
    }

    method ScheduleLeaseTimers() returns (status: Status)
      requires lease.Some?
      modifies this`timerT1, this`timerT2, this`leaseTimer, this`scheduled
      ensures status == if NotInPast(lease.value) then Fine else Error(ScheduledInPast)
      ensures status == Fine ==>
        && timerT1 == Some(Slot(now + lease.value.renewalTime, old(scheduled)))
        && timerT2 == Some(Slot(now + lease.value.rebindTime, old(scheduled) + 1))
        && leaseTimer == Some(Slot(now + lease.value.leaseTime, old(scheduled) + 2))
        && scheduled == old(scheduled) + 3
    {
      status := ScheduleTimerT1();
      if status == Fine {
        status := ScheduleTimerT2();
      }
      if status == Fine {
        status := BindLease();
      }
    }

    method ScheduleTimerT1() returns (status: Status)
      requires lease.Some?
      modifies this`timerT1, this`scheduled
      ensures status == if lease.value.renewalTime < 0.0 then Error(ScheduledInPast) else Fine
      ensures status == Fine ==>
        timerT1 == Some(Slot(now + lease.value.renewalTime, old(scheduled))) && scheduled == old(scheduled) + 1
    {
      timerT1 := None;
      if lease.value.renewalTime < 0.0 {
        return Error(ScheduledInPast);
      }
      timerT1, scheduled := Some(Slot(now + lease.value.renewalTime, scheduled)), scheduled + 1;
      return Fine;
    }

    method ScheduleTimerT2() returns (status: Status)
      requires lease.Some?
      modifies this`timerT2, this`scheduled
      ensures status == if lease.value.rebindTime < 0.0 then Error(ScheduledInPast) else Fine
      ensures status == Fine ==>
        timerT2 == Some(Slot(now + lease.value.rebindTime, old(scheduled))) && scheduled == old(scheduled) + 1
    {
      timerT2 := None;
      if lease.value.rebindTime < 0.0 {
        return Error(ScheduledInPast);
      }
      timerT2, scheduled := Some(Slot(now + lease.value.rebindTime, scheduled)), scheduled + 1;
      return Fine;
    }

    /** Of binding a lease to the interface, the timer that ends it. */
    method BindLease() returns (status: Status)
      requires lease.Some?
      modifies this`leaseTimer, this`scheduled
      ensures status == if lease.value.leaseTime < 0.0 then Error(ScheduledInPast) else Fine
      ensures status == Fine ==>
        leaseTimer == Some(Slot(now + lease.value.leaseTime, old(scheduled))) && scheduled == old(scheduled) + 1
    {
      leaseTimer := None;
      if lease.value.leaseTime < 0.0 {
        return Error(ScheduledInPast);
      }
      leaseTimer, scheduled := Some(Slot(now + lease.value.leaseTime, scheduled)), scheduled + 1;
      return Fine;
    }

    method UnboundLease()
      modifies this
      ensures State() == WithoutLeaseTimers(old(State()))
    {
      CancelLeaseTimers();
    }

    // ---------- handlers ----------

    /** The timer that expired is no longer scheduled. */
    method HandleTimer(category: TimerType, newXid: int) returns (status: Status)
      modifies this
      ensures Gives(AfterTimer(old(State()), category, newXid), status)
    {
      status := Fine;
      match category {
        case START_DHCP =>
          status := OpenSocket();
          if status != Fine {
            return;
          }
          if lease.Some? {
            clientState := INIT_REBOOT;
            status := InitRebootedClient(newXid);
          } else {
            clientState := INIT;
            status := InitClient(newXid);
          }
        case WAIT_OFFER =>
          status := InitClient(newXid);
        case WAIT_ACK =>
          status := InitClient(newXid);
        case T1 =>
          clientState := RENEWING;
          ScheduleTimerTO(WAIT_ACK);
          status := SendRequest(newXid);
        case T2 =>
          if clientState != RENEWING {
            return Error(T2InWrongState);
          }
          clientState := REBINDING;
          CancelLeaseTimers();
          status := SendRequest(newXid);
          if status == Fine {
            ScheduleTimerTO(WAIT_ACK);
          }
        case LEASE_TIMEOUT =>
          UnboundLease();
          clientState := INIT;
          status := InitClient(newXid);
      }
    }

    /** Replies in the states that wait for an ACK. */
    method HandleReply(m: Message, newXid: int, unbind: bool) returns (status: Status)
      requires clientState in {REQUESTING, RENEWING, REBINDING, REBOOTING}
      modifies this
      ensures Gives(
        if m.messageType == DHCPACK then Acknowledged(old(State()), m)
        else if m.messageType == DHCPNAK then Initialised(old(State()), newXid)
        else if HasName(m.messageType) then Ok(old(State())) else Fail(UnknownMessageType), status)
    {
      status := Fine;
      if m.messageType == DHCPACK {
        status := HandleDHCPACK(m);
      } else if m.messageType == DHCPNAK {
        if unbind {
          UnboundLease();
        }
        status := InitClient(newXid);
      } else if !HasName(m.messageType) {
        return Error(UnknownMessageType);
      }
    }

    method HandleDHCPMessage(m: Message, newXid: int) returns (status: Status)
      modifies this
      ensures Gives(AfterMessage(old(State()), m, newXid), status)
    {
      if !m.isReply {
        return Fine;
      }
      if m.xid != xid {
        return Fine;
      }
      status := Fine;
      match clientState {
        case INIT =>
          if !HasName(m.messageType) {
            return Error(UnknownMessageType);
          }
        case SELECTING =>
          if m.messageType == DHCPOFFER {
            ScheduleTimerTO(WAIT_ACK);
            clientState := REQUESTING;
            RecordOffer(m);
            status := SendRequest(newXid);
          }
        case REQUESTING =>
          if m.messageType == DHCPOFFER {
            return Fine;
          }
          status := HandleReply(m, newXid, false);
        case BOUND =>
        case RENEWING =>
          status := HandleReply(m, newXid, true);
        case REBINDING =>
          status := HandleReply(m, newXid, true);
        case REBOOTING =>
          status := HandleReply(m, newXid, false);
        case _ =>
          return Error(UnknownClientState);
      }
    }

    /** The self-message is delivered. */
    method TakeTimer(t: TimerType, at: real)
      modifies this
      ensures State() == WithoutTimer(old(State()), t).(now := at)
    {
      now := at;
      match t {
        case T1 => timerT1 := None;
        case T2 => timerT2 := None;
        case LEASE_TIMEOUT => leaseTimer := None;
        case START_DHCP => startTimer := None;
        case _ => timerTo := None;
      }
    }

    /** A self-message arrives at the time it was scheduled for. */
    method TimerExpires(t: TimerType, newXid: int) returns (status: Status)
      modifies this
      ensures Gives(Next(old(State()), Expire(t, newXid)), status)
      ensures StaysSound(old(State()), Expire(t, newXid), status)
      ensures forall at :: old(isOperational && Runs(State(), t, at)) ==>
        if old(TimerFails(State(), t)) then status != Fine
        else status == Fine && TimerArrow(old(State()), t, at, newXid, State())
    {
      SoundEvent(State(), Expire(t, newXid));
      forall at | isOperational && Runs(State(), t, at) {
        TimersFollowFigure(State(), t, at, newXid);
      }
      var slot := TimerOf(State(), t);
      if slot.None? || !isOperational {
        return Fine;
      }
      TakeTimer(t, slot.value.at);
      status := HandleTimer(t, newXid);
    }

    method MessageArrives(at: real, m: Message, newXid: int) returns (status: Status)
      modifies this
      ensures Gives(Next(old(State()), Receive(at, m, newXid)), status)
      ensures StaysSound(old(State()), Receive(at, m, newXid), status)
      ensures old(isOperational) ==>
        if old(MessageFails(State(), m)) then status != Fine
        else status == Fine && MessageArrow(old(State()), at, m, newXid, State())
    {
      SoundEvent(State(), Receive(at, m, newXid));
      if isOperational {
        MessagesFollowFigure(State(), at, m, newXid);
      }
      now := at;
      if !isOperational {
        return Fine;
      }
      status := HandleDHCPMessage(m, newXid);
    }

    /** `NF_L2_ASSOCIATED` for some interface; the client has one only while it is operational. */
    method InterfaceAssociated(at: real, ours: bool, newXid: int) returns (status: Status)
      modifies this
      ensures Gives(Next(old(State()), Associated(at, ours, newXid)), status)
      ensures StaysSound(old(State()), Associated(at, ours, newXid), status)
      ensures if ours && old(isOperational) then
        if old(gateSet) then status == Fine && DiscoveryBegins(old(State()), at, newXid, State()) else status != Fine
        else status == Fine && State() == old(State()).(now := at)
    {
      SoundEvent(State(), Associated(at, ours, newXid));
      now := at;
      status := Fine;
      if ours && isOperational {
        status := InitClient(newXid);
      }
    }

    method InterfaceIsDeleted(at: real) returns (status: Status)
      modifies this
      ensures Gives(Next(old(State()), InterfaceDeleted(at)), status)
      ensures StaysSound(old(State()), InterfaceDeleted(at), status)
    {
      SoundEvent(State(), InterfaceDeleted(at));
      now := at;
      if isOperational {
        return Error(InterfaceDeletionNotImplemented);
      }
      return Fine;
    }

    method StartApp(at: real, startTime: real, interfaceFree: bool) returns (status: Status)
      modifies this
      ensures Gives(Next(old(State()), NodeStart(at, startTime, interfaceFree)), status)
      ensures StaysSound(old(State()), NodeStart(at, startTime, interfaceFree), status)
      ensures status == Fine <==> interfaceFree && old(startTimer) == None
      ensures status == Fine ==>
        && startTimer.Some? && startTimer.value.at >= startTime && startTimer.value.at >= at
        && (startTimer.value.at == startTime || startTimer.value.at == at)
        && isOperational && clientState == old(clientState) && lease == old(lease) && sent == old(sent)
    {
      SoundEvent(State(), NodeStart(at, startTime, interfaceFree));
      now := at;
      var start := if startTime > now then startTime else now;
      if !interfaceFree {
        return Error(NoFreeInterface);
      }
      if startTimer.Some? {
        return Error(AlreadyScheduled);
      }
      startTimer := Some(Slot(start, scheduled));
      scheduled := scheduled + 1;
      isOperational := true;
      return Fine;
    }

    method StopApp(at: real)
      modifies this
      ensures State() == Stopped(old(State()).(now := at)) && Down(State())
      ensures clientState == old(clientState) && lease == old(lease) && xid == old(xid) && sent == old(sent)
    {
      now := at;
      CancelLeaseTimers();
      startTimer := None;
      isOperational := false;
      bound := false;  // UDP drops all sockets in the same operation
    }
  }
}
