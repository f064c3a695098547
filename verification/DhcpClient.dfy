/** The state machine of the DHCP client with its five timers. */
module DhcpClient {
  import opened Basics
  import opened DhcpServer

  datatype ClientState = IDLE | INIT | INIT_REBOOT | REBOOTING | SELECTING | REQUESTING | BOUND | RENEWING | REBINDING

  /** The lease a client asks for or has. Times are those of the last acknowledgement. */
  datatype Granted = Granted(ip: Ip, serverId: Ip, leaseTime: real, renewalTime: real, rebindTime: real)

  datatype Wait = WaitOffer | WaitAck

  /** `iface` is the address on the interface, `chaddr` the hardware address that the client puts into
      its messages. A timer holds the time it is due. */
  datatype Client = Client(
    state: ClientState, xid: int, lease: Option<Granted>, iface: Ip, up: bool, chaddr: Mac,
    startTimer: Option<real>, t1: Option<real>, t2: Option<real>, leaseTimer: Option<real>,
    timeout: Option<real>, waitingFor: Wait)

  datatype TimerKind = StartTimer | T1 | T2 | LeaseTimer | Timeout

  /** The outcome of a handler: a new state and at most one message, or a runtime error. */
  datatype Outcome = Fine(c: Client, sent: Option<Message>) | Fails

  const RESPONSE_TIMEOUT := 60.0

  // ---------------------------------------------------------------------------------
  // What the client does, as functions on its state

  function DiscoverFrom(chaddr: Mac, xid: int): Message {
    Message(BootRequest, Discover, xid, chaddr, UNSPECIFIED, UNSPECIFIED, UNSPECIFIED, UNSPECIFIED, 0.0, 0.0, 0.0)
  }

  /** The request of the current state: which fields are filled in tells the server why. */
  function RequestFrom(chaddr: Mac, xid: int, ciaddr: Ip, requestedIp: Ip, serverId: Ip): Message {
    Message(BootRequest, Request, xid, chaddr, ciaddr, UNSPECIFIED, requestedIp, serverId, 0.0, 0.0, 0.0)
  }

  function CancelAll(c: Client): Client {
    c.(t1 := None, t2 := None, timeout := None, leaseTimer := None)
  }

  function AwaitUntil(c: Client, w: Wait, now: real): Client {
    c.(timeout := Some(now + RESPONSE_TIMEOUT), waitingFor := w)
  }

  function Restarted(c: Client, newXid: int, now: real): Outcome {
    Fine(AwaitUntil(CancelAll(c).(xid := newXid), WaitOffer, now).(state := SELECTING),
         Some(DiscoverFrom(c.chaddr, newXid)))
  }

  /** The request message, or None where the source dereferences a missing lease or throws. */
  function RequestFor(c: Client, newXid: int): Option<Message> {
    if c.lease == None then None
    else match c.state
      case INIT_REBOOT => Some(RequestFrom(c.chaddr, newXid, UNSPECIFIED, c.lease.value.ip, UNSPECIFIED))
      case REQUESTING => Some(RequestFrom(c.chaddr, newXid, UNSPECIFIED, c.lease.value.ip, c.lease.value.serverId))
      case RENEWING => Some(RequestFrom(c.chaddr, newXid, c.lease.value.ip, UNSPECIFIED, UNSPECIFIED))
      case REBINDING => Some(RequestFrom(c.chaddr, newXid, c.lease.value.ip, UNSPECIFIED, UNSPECIFIED))
      case _ => None
  }

  /** Sends the request of the current state, waits for its answer and goes to `next`. */
  function AskAndAwait(c: Client, newXid: int, now: real, next: ClientState): Outcome {
    match RequestFor(c, newXid)
    case None => Fails
    case Some(m) => Fine(AwaitUntil(c.(xid := newXid), WaitAck, now).(state := next), Some(m))
  }

  function Unbound(c: Client): Client {
    CancelAll(c).(iface := UNSPECIFIED)
  }

  /** An acknowledgement: takes over the times it carries, schedules T1, T2 and the lease timer
      and puts the address on the interface. */
  function Bind(c: Client, m: Message, now: real): Outcome {
    if c.lease == None then Fails
    else
      var g := if m.yiaddr == UNSPECIFIED then c.lease.value
               else c.lease.value.(leaseTime := m.leaseTime, renewalTime := m.renewalTime, rebindTime := m.rebindTime);
      Fine(c.(lease := Some(g), timeout := None, t1 := Some(now + g.renewalTime), t2 := Some(now + g.rebindTime),
              leaseTimer := Some(now + g.leaseTime), iface := g.ip, state := BOUND), None)
  }

  function RecordOffer(c: Client, m: Message): Client {
    if m.yiaddr == UNSPECIFIED then c
    else c.(lease := Some(Granted(m.yiaddr, m.serverId, 0.0, 0.0, 0.0)))
  }

  function OnMessage(c: Client, m: Message, newXid: int, now: real): Outcome {
    if !c.up then Fine(c, None)
    else if m.op != BootReply || m.xid != c.xid then Fine(c, None)
    else match c.state
      case INIT => Fine(c, None)
      case SELECTING =>
        if m.kind != Offer then Fine(c, None)
        else AskAndAwait(RecordOffer(AwaitUntil(c, WaitAck, now).(state := REQUESTING), m), newXid, now, REQUESTING)
      case REQUESTING =>
        if m.kind == Ack then Bind(c, m, now)
        else if m.kind == Nak then Restarted(c, newXid, now)
        else Fine(c, None)
      case BOUND => Fine(c, None)
      case RENEWING =>
        if m.kind == Ack then Bind(c, m, now)
        else if m.kind == Nak then Restarted(Unbound(c), newXid, now)
        else Fine(c, None)
      case REBINDING =>
        if m.kind == Ack then Bind(c, m, now)
        else if m.kind == Nak then Restarted(Unbound(c), newXid, now)
        else Fine(c, None)
      case REBOOTING =>
        if m.kind == Ack then Bind(c, m, now)
        else if m.kind == Nak then Restarted(c, newXid, now)
        else Fine(c, None)
      case _ => Fails
  }

  /** The time a timer is due, if it is scheduled. */
  function Due(c: Client, k: TimerKind): Option<real> {
    match k
    case StartTimer => c.startTimer
    case T1 => c.t1
    case T2 => c.t2
    case LeaseTimer => c.leaseTimer
    case Timeout => c.timeout
  }

  function Unschedule(c: Client, k: TimerKind): Client {
    match k
    case StartTimer => c.(startTimer := None)
    case T1 => c.(t1 := None)
    case T2 => c.(t2 := None)
    case LeaseTimer => c.(leaseTimer := None)
    case Timeout => c.(timeout := None)
  }

  /** A timer that was due has left the queue and is handled. */
  function OnTimer(c: Client, k: TimerKind, newXid: int, now: real): Outcome {
    if !c.up then Fine(c, None)
    else match k
      case StartTimer =>
        if c.lease.Some? then AskAndAwait(c.(state := INIT_REBOOT), newXid, now, REBOOTING)
        else Restarted(c.(state := INIT), newXid, now)
      case Timeout => Restarted(c, newXid, now)
      case T1 => AskAndAwait(c.(state := RENEWING), newXid, now, RENEWING)
      case T2 =>
        if c.state == RENEWING then AskAndAwait(CancelAll(c).(state := REBINDING), newXid, now, REBINDING)
        else Fails
      case LeaseTimer => Restarted(Unbound(c).(state := INIT), newXid, now)
  }

  /** The time to start: the configured one, or at once if that is over. */
  function StartAt(start: real, now: real): real {
    if start < now then now else start
  }

  /** A client that is up at first takes over the address of its interface and waits for its start. */
  function Booted(mac: Mac, startTime: real): Client {
    Client(IDLE, 0, None, UNSPECIFIED, true, mac, Some(startTime), None, None, None, None, WaitOffer)
  }

  /** A client that is down at first does neither, and nothing later makes up for the address. */
  function BootedDown(): Client {
    Client(IDLE, 0, None, UNSPECIFIED, false, NO_MAC, None, None, None, None, None, WaitOffer)
  }
}
