/** In every run, whatever the network does to messages: a client is bound only by the server's
    answer to its own last request, and to the address it asked for. */
module DhcpGrants {
  import opened Basics
  import opened DhcpServer
  import opened DhcpClient
  import opened DhcpTimers
  import opened DhcpSystem
  import opened DhcpAnswers
  import opened DhcpClientLaws

  predicate IsRequest(m: Message) {
    m.op == BootRequest && m.kind == Request
  }

  predicate IsAck(m: Message) {
    m.op == BootReply && m.kind == Ack
  }

  /** The address a request is about. */
  function About(m: Message): Ip {
    if m.ciaddr == UNSPECIFIED then m.requestedIp else m.ciaddr
  }

  /** Some request in the network has this transaction id and is about this address. */
  ghost predicate Asked(net: set<Message>, xid: int, ip: Ip) {
    exists q <- net :: RequestFor(q, xid, ip)
  }

  predicate RequestFor(q: Message, xid: int, ip: Ip) {
    IsRequest(q) && q.xid == xid && About(q) == ip
  }

  predicate Waits(c: Client) {
    c.state in {REQUESTING, REBOOTING, RENEWING, REBINDING}
  }

  /** The client waits for the answer to a request of its own for its lease. */
  ghost predicate HasAsked(net: set<Message>, c: Client) {
    Waits(c) ==> c.lease.Some? && OwnRequest(net, c, c.lease.value.ip)
  }

  ghost predicate OwnRequest(net: set<Message>, c: Client, ip: Ip) {
    exists q <- net :: RequestFor(q, c.xid, ip) && q.chaddr == c.chaddr
  }

  /** Every acknowledgement answers a request for its address, and every client that waits for one
      has asked for its lease. No two client messages share a transaction id. */
  ghost predicate Traced(s: System) {
    && (forall q <- s.net, r <- s.net :: q.op == BootRequest && r.op == BootRequest && q.xid == r.xid ==> q == r)
    && (forall q <- s.net :: IsRequest(q) && q.ciaddr != UNSPECIFIED ==> q.requestedIp == UNSPECIFIED)
    && (forall a <- s.net :: IsAck(a) ==> Asked(s.net, a.xid, a.yiaddr))
    && (forall mac <- s.clients :: HasAsked(s.net, s.clients[mac]))
  }

  lemma AskedMore(net: set<Message>, more: set<Message>, xid: int, ip: Ip)
    requires Asked(net, xid, ip)
    ensures Asked(net + more, xid, ip)
  {
    var q :| q in net && RequestFor(q, xid, ip);
    assert q in net + more;
  }

  lemma HasAskedMore(net: set<Message>, more: set<Message>, c: Client)
    requires HasAsked(net, c)
    ensures HasAsked(net + more, c)
  {
    if Waits(c) {
      var q :| q in net && RequestFor(q, c.xid, c.lease.value.ip) && q.chaddr == c.chaddr;
      assert q in net + more;
    }
  }

  /** A message from a client under a fresh transaction id, or none. */
  predicate IsFresh(net: set<Message>, o: Option<Message>) {
    o.Some? ==>
      && o.value.op == BootRequest && (forall q <- net :: q.xid != o.value.xid)
      && (IsRequest(o.value) && o.value.ciaddr != UNSPECIFIED ==> o.value.requestedIp == UNSPECIFIED)
  }

  lemma SendingKeepsTraced(s: System, t: System, o: Option<Message>)
    requires Traced(s) && IsFresh(s.net, o) && t.net == s.net + Sent(o)
    requires forall mac <- t.clients :: HasAsked(t.net, t.clients[mac])
    ensures Traced(t)
  {
    forall a | a in t.net && IsAck(a) ensures Asked(t.net, a.xid, a.yiaddr) {
      assert a in s.net;
      AskedMore(s.net, Sent(o), a.xid, a.yiaddr);
    }
    hide Asked, HasAsked;
  }

  /** By its law, what the client sends is fresh, and it waits only for what it has asked. */
  ghost predicate AsksFirst(net: set<Message>, o: Outcome) {
    o.Fine? ==> IsFresh(net, o.sent) && HasAsked(net + Sent(o.sent), o.c)
  }

  lemma RequestIsTraced(net: set<Message>, c: Client, d: Client, sent: Option<Message>, x: int, at: real, state: ClientState)
    requires Requests(c, d, sent, x, at, state) && forall q <- net :: q.xid != x
    ensures AsksFirst(net, Fine(d, sent))
  {
    assert sent.value in net + Sent(sent);
    assert RequestFor(sent.value, d.xid, d.lease.value.ip);
  }

  lemma RestartIsTraced(net: set<Message>, c: Client, d: Client, sent: Option<Message>, x: int, at: real)
    requires StartsOver(c, d, sent, x, at) && forall q <- net :: q.xid != x
    ensures AsksFirst(net, Fine(d, sent))
  {
  }

  lemma QuietIsTraced(net: set<Message>, c: Client)
    requires HasAsked(net, c)
    ensures AsksFirst(net, Fine(c, None))
  {
    assert net + Sent(None) == net;
  }

  lemma MessageIsTraced(net: set<Message>, c: Client, m: Message, x: int, at: real, o: Outcome)
    requires HasAsked(net, c) && MessageLaw(c, m, x, at, o) && forall q <- net :: q.xid != x
    ensures AsksFirst(net, o)
  {
    assert o.Fails? ==> AsksFirst(net, o);
    hide Requests, StartsOver, AsksFirst, HasAsked;
    if o.Fine? {
      assert o == Fine(o.c, o.sent);
      if o == Fine(c, None) {
        QuietIsTraced(net, c);
      } else if m.kind == Ack {
        BoundIsTraced(net, c, o.c, o.sent, m, at);
      } else if m.kind == Nak {
        RestartIsTraced(net, if c.state in {RENEWING, REBINDING} then c.(iface := UNSPECIFIED) else c, o.c, o.sent, x, at);
      } else {
        RequestIsTraced(net, c.(lease := Offered(c, m)), o.c, o.sent, x, at, REQUESTING);
      }
    }
  }

  lemma BoundIsTraced(net: set<Message>, c: Client, d: Client, sent: Option<Message>, m: Message, at: real)
    requires Binds(c, d, sent, m, at)
    ensures AsksFirst(net, Fine(d, sent))
  {
  }

  lemma TimerIsTraced(net: set<Message>, c: Client, k: TimerKind, x: int, at: real, o: Outcome)
    requires HasAsked(net, c) && TimerLaw(c, k, x, at, o) && forall q <- net :: q.xid != x
    ensures AsksFirst(net, o)
  {
    assert o.Fails? ==> AsksFirst(net, o);
    hide Requests, StartsOver, AsksFirst, HasAsked;
    if o.Fine? {
      assert o == Fine(o.c, o.sent);
      if !c.up {
        QuietIsTraced(net, c);
      } else {
        match k
        case StartTimer =>
          if c.lease.Some? {
            RequestIsTraced(net, c, o.c, o.sent, x, at, REBOOTING);
          } else {
            RestartIsTraced(net, c, o.c, o.sent, x, at);
          }
        case Timeout => RestartIsTraced(net, c, o.c, o.sent, x, at);
        case T1 => RequestIsTraced(net, c, o.c, o.sent, x, at, RENEWING);
        case T2 => RequestIsTraced(net, c.(t1 := None, t2 := None, leaseTimer := None), o.c, o.sent, x, at, REBINDING);
        case LeaseTimer => RestartIsTraced(net, c.(iface := UNSPECIFIED), o.c, o.sent, x, at);
      }
    }
  }

  lemma EventIsTraced(net: set<Message>, c: Client, e: Event)
    requires HasAsked(net, c) && (forall q <- net :: q.xid != e.newXid) && (e.Expire? ==> Due(c, e.k).Some?)
    ensures AsksFirst(net, Handled(c, e))
  {
    EventsByLaw(c, e);
    var o := Handled(c, e);
    hide TimerLaw, MessageLaw, AsksFirst, Handled;
    match e
    case Expire(k, x) =>
      var d :| Expired(c, k, d) && TimerLaw(d, k, x, Due(c, k).value, o);
      TimerIsTraced(net, d, k, x, Due(c, k).value, o);
    case Arrive(m, x, at) => MessageIsTraced(net, c, m, x, at, o);
  }

  lemma ServerStepTraced(cfg: Config, s: System, m: Message, at: real)
    requires Usable(cfg) && Inv(cfg, s) && Traced(s) && m in s.net
    ensures var (t', r) := Process(cfg, s.table, m, at); Traced(s.(table := t', net := s.net + Sent(r), now := at))
  {
    AnsweredByLaw(cfg, s.table, m, at);
    var (t', r) := Process(cfg, s.table, m, at);
    var t := s.(table := t', net := s.net + Sent(r), now := at);
    ReplyIsTraced(cfg, s, m, at, t', r);
    forall a | a in t.net && IsAck(a) ensures Asked(t.net, a.xid, a.yiaddr) {
      AskedMore(s.net, Sent(r), a.xid, a.yiaddr);
    }
    forall mac | mac in t.clients ensures HasAsked(t.net, t.clients[mac]) {
      HasAskedMore(s.net, Sent(r), s.clients[mac]);
    }
    hide Process, Asked, HasAsked, ServerLaw, Inv;
  }

  lemma ReplyIsTraced(cfg: Config, s: System, m: Message, at: real, t': Table, r: Option<Message>)
    requires Usable(cfg) && Inv(cfg, s) && Traced(s) && m in s.net && ServerLaw(cfg, s.table, m, at, t', r)
    ensures r.Some? ==> r.value.op == BootReply && (IsAck(r.value) ==> Asked(s.net, r.value.xid, r.value.yiaddr))
  {
    hide InPool, HasAsked;
    if r.Some? && IsAck(r.value) {
      assert RequestFor(m, r.value.xid, r.value.yiaddr);
    }
  }

  lemma StepKeepsTraced(cfg: Config, s: System, e: Step)
    requires Usable(cfg) && Inv(cfg, s) && Traced(s) && Enabled(s, e) && Next(cfg, s, e).Some?
    ensures Traced(Next(cfg, s, e).value)
  {
    var t := Next(cfg, s, e).value;
    match e
    case ServerGets(m, at) => ServerStepTraced(cfg, s, m, at);
    case ClientActs(mac, a) => ClientStepTraced(cfg, s, mac, a);
    case Halt(mac, _) => assert t.net == s.net + Sent(None); SendingKeepsTraced(s, t, None);
    case Restart(mac, at) => assert t.net == s.net + Sent(None); SendingKeepsTraced(s, t, None);
  }

  lemma ClientStepTraced(cfg: Config, s: System, mac: Mac, a: Event)
    requires Inv(cfg, s) && Traced(s) && Enabled(s, ClientActs(mac, a)) && Next(cfg, s, ClientActs(mac, a)).Some?
    ensures Traced(Next(cfg, s, ClientActs(mac, a)).value)
  {
    hide TableOk, ClientOk, Timely, Handled;
    var o := Handled(s.clients[mac], a);
    var t := Next(cfg, s, ClientActs(mac, a)).value;
    EventIsTraced(s.net, s.clients[mac], a);
    forall other | other in t.clients ensures HasAsked(t.net, t.clients[other]) {
      if other != mac {
        HasAskedMore(s.net, Sent(o.sent), s.clients[other]);
      }
    }
    SendingKeepsTraced(s, t, o.sent);
  }

  lemma {:induction false} TracedInEveryRun(cfg: Config, trace: seq<System>, steps: seq<Step>, i: nat)
    requires Usable(cfg) && Run(cfg, trace, steps) && i < |trace|
    ensures Traced(trace[i])
  {
    if i > 0 {
      TracedInEveryRun(cfg, trace, steps, i - 1);
      InvInEveryRun(cfg, trace, steps, i - 1);
      assert Follows(cfg, trace, steps, i - 1);
      StepKeepsTraced(cfg, trace[i - 1], steps[i - 1]);
    }
  }

  /** Whenever a client becomes BOUND: what it got is an acknowledgement under the transaction id of
      its own last message, that was a request, the only one under this id, it asked for the
      address acknowledged, and this is the address of the lease that goes to the interface. */
  lemma BoundOnlyByOwnAck(cfg: Config, trace: seq<System>, steps: seq<Step>, i: nat, mac: Mac)
    requires Usable(cfg) && Run(cfg, trace, steps) && i < |steps| && mac in trace[i].clients && mac in trace[i + 1].clients
    requires trace[i].clients[mac].state != BOUND && trace[i + 1].clients[mac].state == BOUND
    ensures steps[i].ClientActs? && steps[i].mac == mac && steps[i].e.Arrive?
    ensures var (c, d, a) := (trace[i].clients[mac], trace[i + 1].clients[mac], steps[i].e.m);
            && IsAck(a) && a in trace[i].net && a.xid == c.xid && OwnRequest(trace[i].net, c, a.yiaddr)
            && (forall q <- trace[i].net :: q.op == BootRequest && q.xid == c.xid ==> RequestFor(q, c.xid, a.yiaddr))
            && c.lease.Some? && c.lease.value.ip == a.yiaddr == d.iface && d.lease.Some? && d.lease.value.ip == a.yiaddr
  {
    TracedInEveryRun(cfg, trace, steps, i);
    assert Follows(cfg, trace, steps, i);
    var s, e := trace[i], steps[i];
    OnlyAcksBind(cfg, s, e, mac);
    hide Next, Enabled, Run, Follows;
    var c, a := s.clients[mac], e.e.m;
    var q :| q in s.net && RequestFor(q, a.xid, a.yiaddr);
    var own :| own in s.net && RequestFor(own, c.xid, c.lease.value.ip) && own.chaddr == c.chaddr;
    assert q == own;
  }

  lemma OnlyAcksBind(cfg: Config, s: System, e: Step, mac: Mac)
    requires Enabled(s, e) && Next(cfg, s, e).Some? && mac in s.clients
    requires s.clients[mac].state != BOUND && Next(cfg, s, e).value.clients[mac].state == BOUND
    ensures e.ClientActs? && e.mac == mac && e.e.Arrive? && e.e.m in s.net && IsAck(e.e.m)
    ensures var (c, d) := (s.clients[mac], Next(cfg, s, e).value.clients[mac]);
            Waits(c) && e.e.m.xid == c.xid && c.lease.Some? && d.lease.Some? && c.lease.value.ip == d.iface == d.lease.value.ip
  {
    hide Timely, Process, IsNext;
    if e.ClientActs? && e.mac == mac {
      EventsByLaw(s.clients[mac], e.e);
      hide Handled;
    }
  }
}
