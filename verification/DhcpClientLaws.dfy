/** What the client makes of each message and each timer, said without the branches of its code. */
module DhcpClientLaws {
  import opened Basics
  import opened DhcpServer
  import opened DhcpClient
  import opened DhcpTimers

  /** The client starts over: it forgets what it was doing, sends a DISCOVER under the new
      transaction id and waits for an offer. Lease and interface stay as they are. */
  predicate StartsOver(c: Client, d: Client, sent: Option<Message>, x: int, at: real) {
    && d == c.(state := SELECTING, xid := x, t1 := None, t2 := None, leaseTimer := None,
               timeout := Some(at + 60.0), waitingFor := WaitOffer)
    && sent == Some(Message(BootRequest, Discover, x, c.chaddr, UNSPECIFIED, UNSPECIFIED, UNSPECIFIED, UNSPECIFIED, 0.0, 0.0, 0.0))
  }

  /** The client sends a REQUEST for its lease under the new transaction id and waits for an
      acknowledgement: to accept an offer with the address and the server's id, after a reboot with
      the address alone, and to renew or rebind from the address it has. */
  predicate Requests(c: Client, d: Client, sent: Option<Message>, x: int, at: real, state: ClientState) {
    && c.lease.Some? && state in {REQUESTING, REBOOTING, RENEWING, REBINDING}
    && d == c.(state := state, xid := x, timeout := Some(at + 60.0), waitingFor := WaitAck)
    && var (ip, server) := (c.lease.value.ip, c.lease.value.serverId);
    && var again := state == RENEWING || state == REBINDING;
    && sent == Some(Message(BootRequest, Request, x, c.chaddr, if again then ip else UNSPECIFIED, UNSPECIFIED,
                            if again then UNSPECIFIED else ip, if state == REQUESTING then server else UNSPECIFIED, 0.0, 0.0, 0.0))
  }

  /** The client is bound to the address of its lease, with the times of the acknowledgement if
      that names an address and with those it knows otherwise. */
  predicate Binds(c: Client, d: Client, sent: Option<Message>, m: Message, at: real) {
    && sent == None && c.lease.Some? && d.lease.Some?
    && d.lease.value == (if m.yiaddr == UNSPECIFIED then c.lease.value
                         else c.lease.value.(leaseTime := m.leaseTime, renewalTime := m.renewalTime, rebindTime := m.rebindTime))
    && d == c.(state := BOUND, lease := d.lease, iface := c.lease.value.ip, timeout := None,
               t1 := Some(at + d.lease.value.renewalTime), t2 := Some(at + d.lease.value.rebindTime),
               leaseTimer := Some(at + d.lease.value.leaseTime))
  }

  /** The client keeps everything as it is and says nothing. */
  predicate Ignores(c: Client, d: Client, sent: Option<Message>) {
    d == c && sent == None
  }

  /** The message is an answer to what the client sent last. */
  predicate AnswersLast(c: Client, m: Message) {
    c.up && m.op == BootReply && m.xid == c.xid
  }

  /** The lease that the client records from an offer. */
  function Offered(c: Client, m: Message): Option<Granted> {
    if m.yiaddr == UNSPECIFIED then c.lease else Some(Granted(m.yiaddr, m.serverId, 0.0, 0.0, 0.0))
  }

  predicate MessageLaw(c: Client, m: Message, x: int, at: real, o: Outcome) {
    if !AnswersLast(c, m) || c.state == BOUND || c.state == INIT then o.Fine? && Ignores(c, o.c, o.sent)
    else if c.state == SELECTING && m.kind == Offer then
      if Offered(c, m) == None then o.Fails?
      else o.Fine? && Requests(c.(lease := Offered(c, m)), o.c, o.sent, x, at, REQUESTING)
    else if c.state in {REQUESTING, REBOOTING, RENEWING, REBINDING} && m.kind == Ack then
      if c.lease == None then o.Fails? else o.Fine? && Binds(c, o.c, o.sent, m, at)
    else if c.state in {REQUESTING, REBOOTING} && m.kind == Nak then o.Fine? && StartsOver(c, o.c, o.sent, x, at)
    else if c.state in {RENEWING, REBINDING} && m.kind == Nak then
      o.Fine? && StartsOver(c.(iface := UNSPECIFIED), o.c, o.sent, x, at)
    else if c.state == IDLE || c.state == INIT_REBOOT then o.Fails?
    else o.Fine? && Ignores(c, o.c, o.sent)
  }

  /** The effect of a timer that has gone off at the time it was due. */
  predicate TimerLaw(c: Client, k: TimerKind, x: int, at: real, o: Outcome) {
    if !c.up then o.Fine? && Ignores(c, o.c, o.sent)
    else match k
      case StartTimer =>
        o.Fine? && if c.lease.Some? then Requests(c, o.c, o.sent, x, at, REBOOTING) else StartsOver(c, o.c, o.sent, x, at)
      case Timeout => o.Fine? && StartsOver(c, o.c, o.sent, x, at)
      case T1 => if c.lease == None then o.Fails? else o.Fine? && Requests(c, o.c, o.sent, x, at, RENEWING)
      case T2 =>
        if c.state != RENEWING || c.lease == None then o.Fails?
        else o.Fine? && Requests(c.(t1 := None, t2 := None, leaseTimer := None), o.c, o.sent, x, at, REBINDING)
      case LeaseTimer => o.Fine? && StartsOver(c.(iface := UNSPECIFIED), o.c, o.sent, x, at)
  }

  /** The timer leaves the queue; nothing else has changed before its effect. */
  predicate Expired(c: Client, k: TimerKind, d: Client) {
    match k
    case StartTimer => d == c.(startTimer := None)
    case T1 => d == c.(t1 := None)
    case T2 => d == c.(t2 := None)
    case LeaseTimer => d == c.(leaseTimer := None)
    case Timeout => d == c.(timeout := None)
  }

  ghost predicate EventLaw(c: Client, e: Event, o: Outcome) {
    match e
    case Expire(k, x) => Due(c, k).Some? ==> exists d :: Expired(c, k, d) && TimerLaw(d, k, x, Due(c, k).value, o)
    case Arrive(m, x, at) => MessageLaw(c, m, x, at, o)
  }

  lemma MessagesByLaw(c: Client, m: Message, x: int, at: real)
    ensures MessageLaw(c, m, x, at, OnMessage(c, m, x, at))
  {
  }

  lemma TimersByLaw(c: Client, k: TimerKind, x: int, at: real)
    ensures TimerLaw(c, k, x, at, OnTimer(c, k, x, at))
  {
  }

  /** Every event has the effect said. */
  lemma EventsByLaw(c: Client, e: Event)
    ensures EventLaw(c, e, Handled(c, e))
  {
    match e
    case Expire(k, x) =>
      if Due(c, k).Some? {
        assert Expired(c, k, Unschedule(c, k));
        TimersByLaw(Unschedule(c, k), k, x, Due(c, k).value);
      }
    case Arrive(m, x, at) => MessagesByLaw(c, m, x, at);
  }
}
