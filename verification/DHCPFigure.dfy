/** Figure 5 of RFC 2131 as the client follows it: for every arrow the state and the timers before and after it, written
    out. `at` is the time of the event and `c'` the client after it. */
module DHCPFigure {
  import opened DHCPProtocol
  import opened Wrappers

  /** What events of the protocol leave alone. */
  predicate SameNode(c: Client, at: real, c': Client)
  {
    && c'.now == at && c'.isOperational == c.isOperational
    && c'.startTimer == c.startTimer && c'.gateSet == c.gateSet && c'.bound == c.bound
  }

  /** One timeout runs, for the answer to what was just sent. */
  predicate Waits(c: Client, at: real, kind: TimerType, message: Sent, c': Client)
  {
    && c'.timerTo == Some(Slot(at + 60.0, c.scheduled)) && c'.toKind == kind && c'.scheduled == c.scheduled + 1
    && c'.xid == message.xid && c'.sent == c.sent + [message]
  }

  /** Any state to SELECTING: all timers stop, and a discovery is sent. */
  predicate DiscoveryBegins(c: Client, at: real, newXid: int, c': Client)
  {
    && c'.clientState == SELECTING && SameNode(c, at, c') && c'.lease == c.lease
    && c'.timerT1 == None && c'.timerT2 == None && c'.leaseTimer == None
    && Waits(c, at, WAIT_OFFER, Discover(newXid), c')
  }

  /** START_DHCP with a lease: to REBOOTING, and the old address is requested. */
  predicate RebootBegins(c: Client, at: real, newXid: int, c': Client)
    requires c.lease.Some?
  {
    && c'.clientState == REBOOTING && SameNode(c.(startTimer := None, gateSet := true, bound := true), at, c')
    && c'.lease == c.lease && c'.timerT1 == c.timerT1 && c'.timerT2 == c.timerT2 && c'.leaseTimer == c.leaseTimer
    && Waits(c, at, WAIT_ACK, Request(newXid, c.lease.value.ip), c')
  }

  /** T1, from BOUND to RENEWING: the lease goes on, with T2 and its end, and its address is requested. */
  predicate RenewalBegins(c: Client, at: real, newXid: int, c': Client)
    requires c.lease.Some?
  {
    && c'.clientState == RENEWING && SameNode(c, at, c') && c'.lease == c.lease
    && c'.timerT1 == None && c'.timerT2 == c.timerT2 && c'.leaseTimer == c.leaseTimer
    && Waits(c, at, WAIT_ACK, Request(newXid, c.lease.value.ip), c')
  }

  /** T2, from RENEWING to REBINDING: only the timeout for the answer runs, and the address is requested. */
  predicate RebindingBegins(c: Client, at: real, newXid: int, c': Client)
    requires c.lease.Some?
  {
    && c'.clientState == REBINDING && SameNode(c, at, c') && c'.lease == c.lease
    && c'.timerT1 == None && c'.timerT2 == None && c'.leaseTimer == None
    && Waits(c, at, WAIT_ACK, Request(newXid, c.lease.value.ip), c')
  }

  /** An offer, from SELECTING to REQUESTING: its address is the lease, and is requested. */
  predicate OfferTaken(c: Client, at: real, m: Message, newXid: int, c': Client)
  {
    && c'.clientState == REQUESTING && SameNode(c, at, c')
    && c'.lease.Some? && c'.lease.value.ip == m.yiaddr
    && c'.timerT1 == c.timerT1 && c'.timerT2 == c.timerT2 && c'.leaseTimer == c.leaseTimer
    && Waits(c, at, WAIT_ACK, Request(newXid, m.yiaddr), c')
  }

  /** An ACK that confirms an address: to BOUND, with T1, T2 and the end of the lease at the times that it says. */
  predicate LeaseBegins(c: Client, at: real, m: Message, c': Client)
    requires c.lease.Some?
  {
    && c'.clientState == BOUND && SameNode(c, at, c')
    && c'.lease == Some(Lease(c.lease.value.ip, m.renewalTime, m.rebindingTime, m.leaseTime))
    && c'.timerT1 == Some(Slot(at + m.renewalTime, c.scheduled))
    && c'.timerT2 == Some(Slot(at + m.rebindingTime, c.scheduled + 1))
    && c'.leaseTimer == Some(Slot(at + m.leaseTime, c.scheduled + 2)) && c'.scheduled == c.scheduled + 3
    && c'.timerTo == None && c'.xid == c.xid && c'.sent == c.sent
  }

  // ---------- timers ----------

  /** Does the timer of kind `t` run, and until when? */
  predicate Runs(c: Client, t: TimerType, at: real)
  {
    match t
    case T1 => c.timerT1.Some? && c.timerT1.value.at == at
    case T2 => c.timerT2.Some? && c.timerT2.value.at == at
    case LEASE_TIMEOUT => c.leaseTimer.Some? && c.leaseTimer.value.at == at
    case START_DHCP => c.startTimer.Some? && c.startTimer.value.at == at
    case _ => c.timerTo.Some? && c.timerTo.value.at == at && c.toKind == t
  }

  /** What the end of a timer leads to, unless it is an error. */
  predicate TimerArrow(c: Client, t: TimerType, at: real, newXid: int, c': Client)
  {
    match t
    case START_DHCP =>
      if c.lease.Some? then RebootBegins(c, at, newXid, c')
      else DiscoveryBegins(c.(startTimer := None, gateSet := true, bound := true), at, newXid, c')
    case T1 => c.lease.Some? && RenewalBegins(c, at, newXid, c')
    case T2 => c.clientState == RENEWING && c.lease.Some? && RebindingBegins(c, at, newXid, c')
    case LEASE_TIMEOUT => DiscoveryBegins(c, at, newXid, c')
    case WAIT_OFFER => DiscoveryBegins(c, at, newXid, c')
    case WAIT_ACK => DiscoveryBegins(c, at, newXid, c')
  }

  /** When the end of a timer is an error instead. */
  predicate TimerFails(c: Client, t: TimerType)
  {
    match t
    case START_DHCP => c.bound
    case T1 => !c.gateSet || c.lease.None?
    case T2 => !c.gateSet || c.lease.None? || c.clientState != RENEWING
    case _ => !c.gateSet
  }

  lemma TimersFollowFigure(c: Client, t: TimerType, at: real, newXid: int)
    requires c.isOperational && Runs(c, t, at)
    ensures Next(c, Expire(t, newXid)).Fail? <==> TimerFails(c, t)
    ensures Next(c, Expire(t, newXid)).Ok? ==> TimerArrow(c, t, at, newXid, Next(c, Expire(t, newXid)).client)
  {
  }

  // ---------- messages ----------

  /** States in which the client waits for an ACK or a NAK. */
  predicate WaitsForAck(s: ClientState)
  {
    s == REQUESTING || s == REBOOTING || s == RENEWING || s == REBINDING
  }

  /** What a message leads to, unless it is an error. */
  predicate MessageArrow(c: Client, at: real, m: Message, newXid: int, c': Client)
  {
    if !m.isReply || m.xid != c.xid || c.clientState == BOUND then c' == c.(now := at)
    else if c.clientState == SELECTING then
      if m.messageType == DHCPOFFER then m.yiaddr != 0 ==> OfferTaken(c, at, m, newXid, c') else c' == c.(now := at)
    else if WaitsForAck(c.clientState) then
      match m.messageType
      case DHCPACK => c.lease.Some? && (m.yiaddr != 0 ==> LeaseBegins(c, at, m, c'))
      case DHCPNAK => DiscoveryBegins(c, at, newXid, c')
      case _ => c' == c.(now := at)
    else c' == c.(now := at)
  }

  /** When a message is an error instead: it comes in a state that no message is expected in, its type has no name, an
      ACK finds no lease or brings a negative time, or there is no output gate or lease to answer with. */
  predicate MessageFails(c: Client, m: Message)
  {
    && m.isReply && m.xid == c.xid
    && match c.clientState
       case IDLE => true
       case INIT_REBOOT => true
       case INIT => m.messageType in {DHCPREQUEST, Unknown}
       case SELECTING => m.messageType == DHCPOFFER && (!c.gateSet || (m.yiaddr == 0 && c.lease.None?))
       case BOUND => false
       case _ =>
         if m.messageType == DHCPACK then c.lease.None? || HasNegativeTime(c.lease.value, m)
         else if m.messageType == DHCPNAK then !c.gateSet
         else m.messageType in {DHCPREQUEST, Unknown}
  }

  /** An ACK without an address leaves the times of the lease as they were. */
  predicate HasNegativeTime(l: Lease, m: Message)
  {
    if m.yiaddr == 0 then l.renewalTime < 0.0 || l.rebindTime < 0.0 || l.leaseTime < 0.0
    else m.renewalTime < 0.0 || m.rebindingTime < 0.0 || m.leaseTime < 0.0
  }

  lemma MessagesFollowFigure(c: Client, at: real, m: Message, newXid: int)
    requires c.isOperational
    ensures var r := Next(c, Receive(at, m, newXid));
      (r.Fail? <==> MessageFails(c, m)) && (r.Ok? ==> MessageArrow(c, at, m, newXid, r.client))
  {
  }

  // ---------- the lease in time ----------

  /** A bound client that hears nothing more: RFC 2131 keeps it in RENEWING until T2, but the timeout of 60 seconds for
      the first request ends RENEWING. It gets to REBINDING if and only if T2 is due by then, and gives up its address
      before T2 otherwise. */
  lemma UnansweredRenewal(c: Client, x: int, y: int, z: int)
    requires Running(c) && c.clientState == BOUND
    requires c.timerT1.value.at < c.timerT2.value.at < c.leaseTimer.value.at && c.timerT2.value.order < c.scheduled
    ensures Possible(c, Expire(T1, x)) && Next(c, Expire(T1, x)).Ok?
    ensures var r := Next(c, Expire(T1, x)).client;
      if c.timerT2.value.at <= c.timerT1.value.at + 60.0 then
        && Possible(r, Expire(T2, y)) && Next(r, Expire(T2, y)).Ok?
        && var b := Next(r, Expire(T2, y)).client;
           b.clientState == REBINDING && Possible(b, Expire(WAIT_ACK, z)) &&
           DiscoveryBegins(b, c.timerT2.value.at + 60.0, z, Next(b, Expire(WAIT_ACK, z)).client)
      else
        && Possible(r, Expire(WAIT_ACK, y)) && !Possible(r, Expire(T2, y)) && Next(r, Expire(WAIT_ACK, y)).Ok?
        && DiscoveryBegins(r, c.timerT1.value.at + 60.0, y, Next(r, Expire(WAIT_ACK, y)).client)
  {
  }
}
