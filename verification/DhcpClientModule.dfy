/** The DHCP client as a module with its fields and handlers. */
module DhcpClientModule {
  import opened Basics
  import opened DhcpServer
  import opened DhcpClient
  import opened DhcpTimers
  import opened DhcpClientLaws
  import opened DhcpSystem

  lemma MessageKeepsBoth(c: Client, m: Message, newXid: int, now: real)
    ensures var o := OnMessage(c, m, newXid, now);
            && (TimersOk(c) && Sound(m) ==> o.Fine? && TimersOk(o.c))
            && (o.Fine? ==> forall t, owner ::
                  ClientOk(t, owner, c) && MessageOk(t, owner, m) && newXid != 0 && newXid !in owner ==>
                  ClientOk(t, owner[newXid := c.chaddr], o.c))
  {
    var a := Arrive(m, newXid, now);
    if TimersOk(c) && Sound(m) {
      EventKeepsTimers(c, a);
    }
    forall t, owner | ClientOk(t, owner, c) && MessageOk(t, owner, m) && newXid != 0 && newXid !in owner
      ensures OwnOutcome(t, owner[newXid := c.chaddr], c.chaddr, Handled(c, a))
    {
      ClientKeepsOwnership(t, owner, c, a);
    }
    hide TimersOk, Sound, ClientOk, MessageOk, OnMessage;
  }

  class DHCPClient {
    var clientState: ClientState
    var xid: int
    var lease: Option<Granted>
    var iface: Ip
    var isOperational: bool
    var macAddress: Mac
    var startTimer: Option<real>
    var timerT1: Option<real>
    var timerT2: Option<real>
    var leaseTimer: Option<real>
    var timerTo: Option<real>
    var timerToKind: Wait

    ghost function View(): Client
      reads this
    {
      Client(clientState, xid, lease, iface, isOperational, macAddress, startTimer, timerT1, timerT2, leaseTimer, timerTo, timerToKind)
    }

    /** The hardware address is taken over only if the node is up. */
    constructor (mac: Mac, up: bool, startTime: real, now: real)
      ensures View() == if up then Booted(mac, StartAt(startTime, now)) else BootedDown()
    {
      clientState, xid, lease, iface := IDLE, 0, None, UNSPECIFIED;
      timerT1, timerT2, leaseTimer, timerTo, timerToKind := None, None, None, None, WaitOffer;
      isOperational := up;
      if up {
        macAddress, startTimer := mac, Some(StartAt(startTime, now));
      } else {
        macAddress, startTimer := NO_MAC, None;
      }
    }

    /** The start of the node. It fails exactly on an interface that has an address, and leaves the
        hardware address as it is. */
    method StartApp(startTime: real, now: real) returns (ok: bool)
      modifies this
      ensures (ok <==> old(iface) == UNSPECIFIED) && macAddress == old(macAddress)
      ensures ok ==>
                && isOperational && startTimer.Some? && startTimer.value >= startTime && startTimer.value >= now
                && startTimer.value in {startTime, now}
      ensures StartedAgain(old(View()), startTime, now) == if ok then Some(View()) else None
    {
      ok := iface == UNSPECIFIED;
      if ok {
        startTimer, isOperational := Some(StartAt(startTime, now)), true;
      }
    }

    /** The halt of the node, which also resets its interfaces. */
    method StopApp()
      modifies this
      ensures View() == Stopped(old(View()))
    {
      CancelTimers();
      startTimer, isOperational, iface := None, false, UNSPECIFIED;
    }

    method CancelTimers()
      modifies this
      ensures View() == CancelAll(old(View()))
    {
      timerT1, timerT2, timerTo, leaseTimer := None, None, None, None;
    }

    method ScheduleTimerTO(w: Wait, now: real)
      modifies this
      ensures View() == AwaitUntil(old(View()), w, now)
    {
      timerTo, timerToKind := Some(now + RESPONSE_TIMEOUT), w;
    }

    method InitClient(newXid: int, now: real) returns (sent: Message)
      modifies this
      ensures Restarted(old(View()), newXid, now) == Fine(View(), Some(sent))
    {
      CancelTimers();
      xid := newXid;
      sent := DiscoverFrom(macAddress, xid);
      ScheduleTimerTO(WaitOffer, now);
      clientState := SELECTING;
    }

    /** Fails where the lease is missing or the state is not one that asks. */
    method SendRequest(newXid: int) returns (sent: Option<Message>)
      modifies this
      ensures sent == RequestFor(old(View()), newXid)
      ensures View() == old(View()).(xid := newXid)
    {
      xid := newXid;
      if lease == None {
        return None;
      }
      var g := lease.value;
      match clientState
      case INIT_REBOOT => sent := Some(RequestFrom(macAddress, xid, UNSPECIFIED, g.ip, UNSPECIFIED));
      case REQUESTING => sent := Some(RequestFrom(macAddress, xid, UNSPECIFIED, g.ip, g.serverId));
      case RENEWING => sent := Some(RequestFrom(macAddress, xid, g.ip, UNSPECIFIED, UNSPECIFIED));
      case REBINDING => sent := Some(RequestFrom(macAddress, xid, g.ip, UNSPECIFIED, UNSPECIFIED));
      case _ => sent := None;
    }

    method UnboundLease()
      modifies this
      ensures View() == Unbound(old(View()))
    {
      CancelTimers();
      iface := UNSPECIFIED;
    }

    method HandleDHCPACK(m: Message, now: real) returns (ok: bool)
      modifies this
      ensures Bind(old(View()), m, now) == if ok then Fine(View(), None) else Fails
    {
      if lease == None {
        return false;
      }
      if m.yiaddr != UNSPECIFIED {
        lease := Some(lease.value.(leaseTime := m.leaseTime, renewalTime := m.renewalTime, rebindTime := m.rebindTime));
      }
      timerTo := None;
      timerT1 := Some(now + lease.value.renewalTime);
      timerT2 := Some(now + lease.value.rebindTime);
      iface := lease.value.ip;
      leaseTimer := Some(now + lease.value.leaseTime);
      clientState := BOUND;
      ok := true;
    }

    /** A message that is no answer to what the client sent last, and any message while it is bound
        or down, changes nothing and is not answered. What the others do is said by MessageLaw.
        A sound message never fails and leaves exactly the timers of the state pending. The address
        the client claims is on file with the server for it, before and after. `ok` is false where
        the source throws or dereferences a missing lease. */
    method HandleDHCPMessage(m: Message, newXid: int, now: real) returns (ok: bool, sent: Option<Message>)
      modifies this
      ensures old(TimersOk(View())) && Sound(m) ==> ok && TimersOk(View())
      ensures !old(AnswersLast(View(), m)) || old(clientState) == BOUND ==> ok && sent == None && View() == old(View())
      ensures MessageLaw(old(View()), m, newXid, now, if ok then Fine(View(), sent) else Fails)
      ensures ok ==> forall t, owner ::
                ClientOk(t, owner, old(View())) && MessageOk(t, owner, m) && newXid != 0 && newXid !in owner ==>
                ClientOk(t, owner[newXid := macAddress], View()) && macAddress == old(macAddress)
      ensures OnMessage(old(View()), m, newXid, now) == if ok then Fine(View(), sent) else Fails
    {
      ghost var c := View();
      ok, sent := React(m, newXid, now);
      MessageKeepsBoth(c, m, newXid, now);
      MessagesByLaw(c, m, newXid, now);
      hide OnMessage, Requests, StartsOver, Binds, TimersOk, Sound, ClientOk, MessageOk;
    }

    /** The branches on the state. */
    method React(m: Message, newXid: int, now: real) returns (ok: bool, sent: Option<Message>)
      modifies this
      ensures OnMessage(old(View()), m, newXid, now) == if ok then Fine(View(), sent) else Fails
    {
      ok, sent := true, None;
      if !isOperational || m.op != BootReply || m.xid != xid {
        return;
      }
      match clientState {
        case INIT =>
        case SELECTING =>
          if m.kind == Offer {
            ScheduleTimerTO(WaitAck, now);
            clientState := REQUESTING;
            if m.yiaddr != UNSPECIFIED {
              lease := Some(Granted(m.yiaddr, m.serverId, 0.0, 0.0, 0.0));
            }
            sent := SendRequest(newXid);
            ok := sent.Some?;
          }
        case BOUND =>
        case REQUESTING =>
          ok, sent := HandleAnswer(m, false, newXid, now);
        case RENEWING =>
          ok, sent := HandleAnswer(m, true, newXid, now);
        case REBINDING =>
          ok, sent := HandleAnswer(m, true, newXid, now);
        case REBOOTING =>
          ok, sent := HandleAnswer(m, false, newXid, now);
        case _ =>
          ok := false;
      }
    }

    /** The shared part of the four states that wait for an answer to a request. */
    method HandleAnswer(m: Message, bound: bool, newXid: int, now: real) returns (ok: bool, sent: Option<Message>)
      modifies this
      ensures (if m.kind == Ack then Bind(old(View()), m, now)
               else if m.kind == Nak then
                 Restarted(if bound then Unbound(old(View())) else old(View()), newXid, now)
               else Fine(old(View()), None)) == if ok then Fine(View(), sent) else Fails
    {
      ok, sent := true, None;
      if m.kind == Ack {
        ok := HandleDHCPACK(m, now);
      } else if m.kind == Nak {
        if bound {
          UnboundLease();
        }
        var d := InitClient(newXid, now);
        sent := Some(d);
      }
    }

    method HandleTimer(k: TimerKind, newXid: int, now: real) returns (ok: bool, sent: Option<Message>)
      modifies this
      ensures OnTimer(old(View()), k, newXid, now) == if ok then Fine(View(), sent) else Fails
    {
      ok, sent := true, None;
      if !isOperational {
        return;
      }
      match k {
        case StartTimer =>
          if lease.Some? {
            clientState := INIT_REBOOT;
            sent := SendRequest(newXid);
            ScheduleTimerTO(WaitAck, now);
            clientState := REBOOTING;
          } else {
            clientState := INIT;
            var d := InitClient(newXid, now);
            sent := Some(d);
          }
        case Timeout =>
          var d := InitClient(newXid, now);
          sent := Some(d);
        case T1 =>
          clientState := RENEWING;
          ScheduleTimerTO(WaitAck, now);
          sent := SendRequest(newXid);
          ok := sent.Some?;
        case T2 =>
          if clientState == RENEWING {
            clientState := REBINDING;
            CancelTimers();
            sent := SendRequest(newXid);
            ok := sent.Some?;
            ScheduleTimerTO(WaitAck, now);
          } else {
            ok := false;
          }
        case LeaseTimer =>
          UnboundLease();
          clientState := INIT;
          var d := InitClient(newXid, now);
          sent := Some(d);
      }
    }

    /** An event of the kernel: a timer that is due leaves the queue and is handled, or a message
        has arrived. As long as timers expire in order and messages are sound, nothing fails and
        exactly the timers of the state are pending. When the response timer expires, the client
        starts over with a new DISCOVER; what the others do is said by EventLaw. */
    method HandleMessage(e: Event) returns (ok: bool, sent: Option<Message>)
      requires e.Expire? ==> Due(View(), e.k).Some?
      modifies this
      ensures old(TimersOk(View()) && Possible(View(), e)) ==> ok && TimersOk(View())
      ensures e.Expire? && e.k == Timeout && old(isOperational) ==>
                && ok && clientState == SELECTING && xid == e.newXid && timerT1 == timerT2 == leaseTimer == None
                && timerTo == Some(old(timerTo).value + 60.0) && lease == old(lease) && iface == old(iface)
                && sent.Some? && sent.value.op == BootRequest && sent.value.kind == Discover
                && sent.value.xid == e.newXid && sent.value.chaddr == macAddress == old(macAddress)
      ensures EventLaw(old(View()), e, if ok then Fine(View(), sent) else Fails)
      ensures Handled(old(View()), e) == if ok then Fine(View(), sent) else Fails
    {
      ghost var c := View();
      EventsByLaw(c, e);
      match e {
        case Expire(k, x) =>
          var now := TakeOut(k);
          ok, sent := HandleTimer(k, x, now);
        case Arrive(m, x, at) =>
          ok, sent := HandleDHCPMessage(m, x, at);
      }
      if TimersOk(c) && Possible(c, e) {
        EventKeepsTimers(c, e);
      }
    }

    method TakeOut(k: TimerKind) returns (due: real)
      requires Due(View(), k).Some?
      modifies this
      ensures Some(due) == Due(old(View()), k) && View() == Unschedule(old(View()), k)
    {
      match k {
        case StartTimer => due, startTimer := startTimer.value, None;
        case T1 => due, timerT1 := timerT1.value, None;
        case T2 => due, timerT2 := timerT2.value, None;
        case LeaseTimer => due, leaseTimer := leaseTimer.value, None;
        case Timeout => due, timerTo := timerTo.value, None;
      }
    }
  }
}
