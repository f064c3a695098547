/** One server, any number of clients, and a network that loses, duplicates and reorders
    messages: no address is ever in two hands. */
module DhcpSystem {
  import opened Basics
  import opened DhcpServer
  import opened DhcpClient
  import opened DhcpTimers

  /** `net` holds every message ever sent: each may be delivered any number of times, in any
      order, or never. `clients` are named by the addresses of their interfaces. `owner` says for
      which hardware address a transaction id was drawn, `starts` when a client is configured to
      start. */
  datatype System = System(
    table: Table, clients: map<Mac, Client>, net: set<Message>, owner: map<int, Mac>, now: real, starts: map<Mac, real>)

  datatype Step = ServerGets(m: Message, at: real) | ClientActs(mac: Mac, e: Event) | Halt(mac: Mac, at: real) | Restart(mac: Mac, at: real)

  function TimeOf(s: System, e: Step): real {
    match e
    case ServerGets(_, at) => at
    case ClientActs(mac, Expire(k, _)) => if mac in s.clients && Due(s.clients[mac], k).Some? then Due(s.clients[mac], k).value else s.now
    case ClientActs(_, Arrive(_, _, at)) => at
    case Halt(_, at) => at
    case Restart(_, at) => at
  }

  /** Time goes on, and no timer is passed over. */
  ghost predicate Timely(s: System, at: real) {
    s.now <= at && forall mac <- s.clients, k: TimerKind :: Due(s.clients[mac], k).Some? ==> at <= Due(s.clients[mac], k).value
  }

  ghost predicate Enabled(s: System, e: Step) {
    && Timely(s, TimeOf(s, e))
    && match e
       case ServerGets(m, _) => m in s.net
       case ClientActs(mac, a) =>
         && mac in s.clients && a.newXid != 0 && a.newXid !in s.owner
         && (match a
             case Expire(k, _) => IsNext(s.clients[mac], k)
             case Arrive(m, _, _) => m in s.net)
       case Halt(mac, _) => mac in s.clients && s.clients[mac].up
       case Restart(mac, _) => mac in s.clients && mac in s.starts && !s.clients[mac].up
  }

  /** The timers are cancelled, and halting the node also takes the address off the interface. */
  function Stopped(c: Client): Client {
    CancelAll(c).(startTimer := None, up := false, iface := UNSPECIFIED)
  }

  /** The hardware address stays what it was. An interface that has an address already is an error. */
  function StartedAgain(c: Client, start: real, now: real): Option<Client> {
    if c.iface != UNSPECIFIED then None else Some(c.(startTimer := Some(StartAt(start, now)), up := true))
  }

  function Sent(o: Option<Message>): set<Message> {
    if o.Some? then {o.value} else {}
  }

  /** The next state, or None after a runtime error. */
  ghost function Next(cfg: Config, s: System, e: Step): Option<System>
    requires Enabled(s, e)
  {
    var t := s.(now := TimeOf(s, e));
    match e
    case ServerGets(m, at) =>
      var r := Process(cfg, s.table, m, at);
      Some(t.(table := r.0, net := s.net + Sent(r.1)))
    case ClientActs(mac, a) =>
      (match Handled(s.clients[mac], a)
       case Fails => None
       case Fine(c, sent) =>
         Some(t.(clients := s.clients[mac := c], net := s.net + Sent(sent), owner := s.owner[a.newXid := s.clients[mac].chaddr])))
    case Halt(mac, _) => Some(t.(clients := s.clients[mac := Stopped(s.clients[mac])]))
    case Restart(mac, at) =>
      (match StartedAgain(s.clients[mac], s.starts[mac], at)
       case None => None
       case Some(c) => Some(t.(clients := s.clients[mac := c])))
  }

  /** Nothing has been sent or leased; each client waits for its start or is still down. */
  ghost predicate Initial(s: System) {
    && s.table == map[] && s.net == {} && s.owner == map[]
    && s.starts.Keys == s.clients.Keys && NO_MAC !in s.clients
    && forall mac <- s.clients :: s.clients[mac] in {Booted(mac, StartAt(s.starts[mac], s.now)), BootedDown()}
  }

  ghost predicate Run(cfg: Config, trace: seq<System>, steps: seq<Step>) {
    && |trace| == |steps| + 1 && Initial(trace[0])
    && forall i :: 0 <= i < |steps| ==> Follows(cfg, trace, steps, i)
  }

  ghost predicate Follows(cfg: Config, trace: seq<System>, steps: seq<Step>, i: nat)
    requires i < |steps| && i + 1 < |trace|
  {
    Enabled(trace[i], steps[i]) && Next(cfg, trace[i], steps[i]) == Some(trace[i + 1])
  }

  // ---------------------------------------------------------------------------------
  // The invariant

  /** The server's table records the address for the hardware address. */
  predicate Held(t: Table, mac: Mac, ip: Ip) {
    ip in t && t[ip].mac == mac
  }

  /** Every lease is filed under its own address, taken, in the pool, and the only one of its client. */
  ghost predicate TableOk(cfg: Config, t: Table) {
    && (forall ip <- t.Keys :: t[ip].ip == ip && t[ip].leased && InPool(cfg, ip))
    && (forall a <- t.Keys, b <- t.Keys :: t[a].mac == t[b].mac ==> a == b)
  }

  predicate MessageOk(t: Table, owner: map<int, Mac>, m: Message) {
    && m.xid in owner && m.xid != 0
    && (m.op == BootRequest ==> m.chaddr == owner[m.xid] && (m.kind == Discover ==> m.requestedIp == UNSPECIFIED))
    && (m.op == BootReply && m.kind == Offer ==> Held(t, owner[m.xid], m.yiaddr))
  }

  /** What the client has or had comes from an offer for it. */
  predicate ClientOk(t: Table, owner: map<int, Mac>, c: Client) {
    && (c.xid == 0 || (c.xid in owner && owner[c.xid] == c.chaddr))
    && (c.lease.Some? ==> Held(t, c.chaddr, c.lease.value.ip))
    && (c.iface != UNSPECIFIED ==> Held(t, c.chaddr, c.iface))
  }

  ghost predicate Inv(cfg: Config, s: System) {
    && TableOk(cfg, s.table)
    && (forall m <- s.net :: MessageOk(s.table, s.owner, m))
    && (forall mac <- s.clients :: ClientOk(s.table, s.owner, s.clients[mac]))
  }

  lemma {:induction false} FirstFreeIsNew(cfg: Config, t: Table, i: nat)
    requires TableOk(cfg, t) && i <= cfg.maxNumClients
    ensures FirstFree(cfg, t, i).Some? ==> InPool(cfg, FirstFree(cfg, t, i).value) && FirstFree(cfg, t, i).value !in t
    decreases cfg.maxNumClients - i
  {
    if i < cfg.maxNumClients {
      FirstFreeIsNew(cfg, t, i + 1);
    }
  }

  /** Writing a lease that keeps the owner of a known address, or gives a new one to a client
      without any. */
  lemma WriteKeepsTable(cfg: Config, t: Table, ip: Ip, l: Lease)
    requires TableOk(cfg, t) && l.ip == ip && l.leased && InPool(cfg, ip)
    requires if ip in t then l.mac == t[ip].mac else forall other <- t.Keys :: t[other].mac != l.mac
    ensures TableOk(cfg, t[ip := l]) && forall mac, i :: Held(t, mac, i) ==> Held(t[ip := l], mac, i)
  {
    hide InPool;
  }

  lemma NoLeaseMeansNoEntry(t: Table, mac: Mac)
    requires LeaseByMac(t, mac) == None
    ensures forall ip <- t.Keys :: t[ip].mac != mac
  {
    var mine := set ip <- t.Keys | t[ip].mac == mac;
    assert forall ip <- t.Keys :: t[ip].mac == mac ==> ip in mine;
    if mine != {} {
      var least := LeastExists(mine);
      assert IsFirst(t, mac, least);
    }
  }

  lemma DiscoverKeepsTable(cfg: Config, t: Table, m: Message, at: real)
    requires TableOk(cfg, t) && m.requestedIp == UNSPECIFIED
    ensures var (t', r) := OnDiscover(cfg, t, m, at);
            && TableOk(cfg, t') && (forall mac, ip :: Held(t, mac, ip) ==> Held(t', mac, ip))
            && (r.Some? ==> r.value.op == BootReply && r.value.xid == m.xid && Held(t', m.chaddr, r.value.yiaddr))
  {
    match LeaseByMac(t, m.chaddr)
    case Some(ip) =>
      hide InPool, LeaseByMac;
      WriteKeepsTable(cfg, t, ip, t[ip].(xid := m.xid, leaseTime := at));
    case None =>
      FirstFreeIsNew(cfg, t, 0);
      NoLeaseMeansNoEntry(t, m.chaddr);
      hide InPool, LeaseByMac, FirstFree;
      match Available(cfg, t, m.requestedIp)
      case None =>
      case Some(ip) => WriteKeepsTable(cfg, t, ip, Lease(ip, m.chaddr, m.xid, at, true));
  }

  lemma RequestKeepsTable(cfg: Config, t: Table, m: Message, at: real)
    requires TableOk(cfg, t)
    ensures var (t', r) := OnRequest(cfg, t, m, at);
            && TableOk(cfg, t') && (forall mac, ip :: Held(t, mac, ip) ==> Held(t', mac, ip))
            && (r.Some? ==> r.value.op == BootReply && r.value.xid == m.xid && r.value.kind in {Ack, Nak})
  {
    hide InPool, LeaseByMac, Masked;
    var (t', r) := OnRequest(cfg, t, m, at);
    if r.Some? && r.value.kind == Ack {
      var ip := r.value.yiaddr;
      WriteKeepsTable(cfg, t, ip, t'[ip]);
    }
  }

  /** A request as clients send it keeps the table in order and takes nothing from anybody;
      an offer goes out under the transaction id of the request. */
  lemma ServerKeepsTable(cfg: Config, t: Table, owner: map<int, Mac>, m: Message, at: real)
    requires TableOk(cfg, t) && MessageOk(t, owner, m)
    ensures var (t', r) := Process(cfg, t, m, at);
            && TableOk(cfg, t') && (forall mac, ip :: Held(t, mac, ip) ==> Held(t', mac, ip))
            && (r.Some? ==> MessageOk(t', owner, r.value))
  {
    hide OnDiscover, OnRequest, TableOk, Held;
    if m.op == BootRequest && m.kind == Discover {
      DiscoverKeepsTable(cfg, t, m, at);
    } else if m.op == BootRequest && m.kind == Request {
      RequestKeepsTable(cfg, t, m, at);
    }
  }

  ghost predicate OwnOutcome(t: Table, owner: map<int, Mac>, chaddr: Mac, o: Outcome) {
    o.Fine? ==> o.c.chaddr == chaddr && ClientOk(t, owner, o.c) && (o.sent.Some? ==> MessageOk(t, owner, o.sent.value))
  }

  lemma AskKeepsOwnership(t: Table, owner: map<int, Mac>, c: Client, newXid: int, now: real, next: ClientState)
    requires ClientOk(t, owner, c) && newXid != 0 && newXid in owner && owner[newXid] == c.chaddr
    ensures OwnOutcome(t, owner, c.chaddr, AskAndAwait(c, newXid, now, next))
    ensures OwnOutcome(t, owner, c.chaddr, Restarted(c, newXid, now))
    ensures ClientOk(t, owner, Unbound(c))
  {
    hide Held;
  }

  lemma BindKeepsOwnership(t: Table, owner: map<int, Mac>, c: Client, m: Message, now: real)
    requires ClientOk(t, owner, c)
    ensures OwnOutcome(t, owner, c.chaddr, Bind(c, m, now))
  {
    hide Held;
  }

  lemma TimerKeepsOwnership(t: Table, owner: map<int, Mac>, c: Client, k: TimerKind, x: int, now: real)
    requires ClientOk(t, owner, c) && x != 0 && x in owner && owner[x] == c.chaddr
    ensures OwnOutcome(t, owner, c.chaddr, OnTimer(c, k, x, now))
  {
    hide AskAndAwait, Restarted, Held, MessageOk;
    match k
    case StartTimer =>
      AskKeepsOwnership(t, owner, c.(state := INIT_REBOOT), x, now, REBOOTING);
      AskKeepsOwnership(t, owner, c.(state := INIT), x, now, SELECTING);
    case Timeout => AskKeepsOwnership(t, owner, c, x, now, SELECTING);
    case T1 => AskKeepsOwnership(t, owner, c.(state := RENEWING), x, now, RENEWING);
    case T2 => AskKeepsOwnership(t, owner, CancelAll(c).(state := REBINDING), x, now, REBINDING);
    case LeaseTimer => AskKeepsOwnership(t, owner, Unbound(c).(state := INIT), x, now, SELECTING);
  }

  lemma MessageKeepsOwnership(t: Table, owner: map<int, Mac>, c: Client, m: Message, x: int, now: real)
    requires ClientOk(t, owner, c) && MessageOk(t, owner, m) && x != 0 && x in owner && owner[x] == c.chaddr
    ensures OwnOutcome(t, owner, c.chaddr, OnMessage(c, m, x, now))
  {
    hide AskAndAwait, Restarted, Bind, Held;
    BindKeepsOwnership(t, owner, c, m, now);
    AskKeepsOwnership(t, owner, c, x, now, SELECTING);
    AskKeepsOwnership(t, owner, Unbound(c), x, now, SELECTING);
    if m.op == BootReply && m.kind == Offer && m.xid == c.xid {
      var c1 := RecordOffer(AwaitUntil(c, WaitAck, now).(state := REQUESTING), m);
      AskKeepsOwnership(t, owner, c1, x, now, REQUESTING);
    }
  }

  /** A client takes an address only from an offer under its own transaction id. */
  lemma ClientKeepsOwnership(t: Table, owner: map<int, Mac>, c: Client, a: Event)
    requires ClientOk(t, owner, c) && a.newXid != 0 && a.newXid !in owner
    requires a.Arrive? ==> MessageOk(t, owner, a.m)
    ensures OwnOutcome(t, owner[a.newXid := c.chaddr], c.chaddr, Handled(c, a))
  {
    hide OnMessage, OnTimer, Held;
    var own := owner[a.newXid := c.chaddr];
    match a
    case Expire(k, x) =>
      if Due(c, k).Some? {
        TimerKeepsOwnership(t, own, Unschedule(c, k), k, x, Due(c, k).value);
      }
    case Arrive(m, x, at) => MessageKeepsOwnership(t, own, c, m, x, at);
  }

  lemma StepKeepsInv(cfg: Config, s: System, e: Step)
    requires Inv(cfg, s) && Enabled(s, e) && Next(cfg, s, e).Some?
    ensures Inv(cfg, Next(cfg, s, e).value)
  {
    match e
    case ServerGets(m, at) => ServerKeepsTable(cfg, s.table, s.owner, m, at); hide Process, TableOk, Timely;
    case ClientActs(mac, a) => ClientKeepsOwnership(s.table, s.owner, s.clients[mac], a); hide Handled, TableOk, Timely;
    case Halt(mac, _) =>
    case Restart(mac, at) =>
  }

  lemma {:induction false} InvInEveryRun(cfg: Config, trace: seq<System>, steps: seq<Step>, i: nat)
    requires Run(cfg, trace, steps) && i < |trace|
    ensures Inv(cfg, trace[i])
  {
    if i > 0 {
      InvInEveryRun(cfg, trace, steps, i - 1);
      assert Follows(cfg, trace, steps, i - 1);
      StepKeepsInv(cfg, trace[i - 1], steps[i - 1]);
    }
  }

  /** The address the client believes it has, by its lease or on its interface. */
  predicate Claims(c: Client, ip: Ip) {
    ip != UNSPECIFIED && ((c.lease.Some? && c.lease.value.ip == ip) || c.iface == ip)
  }

  ghost predicate SameChaddrs(s: System, t: System) {
    t.clients.Keys == s.clients.Keys && forall mac <- s.clients :: t.clients[mac].chaddr == s.clients[mac].chaddr
  }

  lemma StepKeepsChaddrs(cfg: Config, s: System, e: Step)
    requires Inv(cfg, s) && Enabled(s, e) && Next(cfg, s, e).Some?
    ensures SameChaddrs(s, Next(cfg, s, e).value)
  {
    match e
    case ServerGets(_, _) => hide Process, TableOk, Timely;
    case ClientActs(mac, a) => ClientKeepsOwnership(s.table, s.owner, s.clients[mac], a); hide Handled, TableOk, Timely;
    case Halt(mac, _) =>
    case Restart(mac, at) =>
  }

  /** The hardware addresses in use are those of the interfaces, and of no interface for clients
      that were down at first. */
  lemma {:induction false} ChaddrsInEveryRun(cfg: Config, trace: seq<System>, steps: seq<Step>, i: nat)
    requires Run(cfg, trace, steps) && i < |trace|
    ensures trace[i].clients.Keys == trace[0].clients.Keys && NO_MAC !in trace[0].clients
    ensures forall mac <- trace[i].clients :: trace[i].clients[mac].chaddr == if trace[0].clients[mac].up then mac else NO_MAC
  {
    if i > 0 {
      ChaddrsInEveryRun(cfg, trace, steps, i - 1);
      InvInEveryRun(cfg, trace, steps, i - 1);
      assert Follows(cfg, trace, steps, i - 1);
      StepKeepsChaddrs(cfg, trace[i - 1], steps[i - 1]);
    }
  }

  /** In every state of every run, each claimed address is filed in the server's table under the
      hardware address its claimant uses, and lies in the pool; two clients claim the same address
      only if both were down at first. */
  lemma AddressesAreUnique(cfg: Config, trace: seq<System>, steps: seq<Step>, i: nat, a: Mac, ip: Ip)
    requires Run(cfg, trace, steps) && i < |trace| && a in trace[i].clients && Claims(trace[i].clients[a], ip)
    ensures a in trace[0].clients && trace[i].clients.Keys == trace[0].clients.Keys && InPool(cfg, ip)
    ensures Held(trace[i].table, if trace[0].clients[a].up then a else NO_MAC, ip)
    ensures forall b <- trace[i].clients ::
              Claims(trace[i].clients[b], ip) ==> b == a || (!trace[0].clients[a].up && !trace[0].clients[b].up)
  {
    InvInEveryRun(cfg, trace, steps, i);
    ChaddrsInEveryRun(cfg, trace, steps, i);
  }

  // ---------------------------------------------------------------------------------
  // Why the hypothesis on DISCOVERs is needed

  /** Some client's address is taken from it. */
  ghost predicate LosesAddress(t: Table, t': Table) {
    exists mac, ip :: Held(t, mac, ip) && !Held(t', mac, ip)
  }

  /** A DISCOVER takes an address from its holder exactly if it asks for an address that is in
      the table and comes from a client that has none. The address is then that client's. */
  lemma AddressLostExactlyWhen(cfg: Config, t: Table, m: Message, at: real)
    requires TableOk(cfg, t) && m.op == BootRequest && m.kind == Discover
    ensures LosesAddress(t, Process(cfg, t, m, at).0) <==>
            m.requestedIp != UNSPECIFIED && m.requestedIp in t && LeaseByMac(t, m.chaddr) == None
    ensures LosesAddress(t, Process(cfg, t, m, at).0) ==>
            m.requestedIp in t && t[m.requestedIp].mac != m.chaddr && Held(Process(cfg, t, m, at).0, m.chaddr, m.requestedIp)
  {
    var ip := m.requestedIp;
    if ip == UNSPECIFIED {
      DiscoverKeepsTable(cfg, t, m, at);
    } else if LeaseByMac(t, m.chaddr) == None {
      NoLeaseMeansNoEntry(t, m.chaddr);
      hide InPool, LeaseByMac;
      if ip in t {
        assert Held(t, t[ip].mac, ip) && !Held(Process(cfg, t, m, at).0, t[ip].mac, ip);
      }
    } else {
      hide InPool, LeaseByMac;
    }
  }

  // ---------------------------------------------------------------------------------
  // No handler fails

  ghost predicate Usable(cfg: Config) {
    cfg.leaseTime > 0.0 && !InPool(cfg, UNSPECIFIED)
  }

  /** Offers and acknowledgements name an address, and T1 comes before T2. */
  predicate Regular(m: Message) {
    (m.kind == Offer || m.kind == Ack ==> m.yiaddr != UNSPECIFIED) && (m.kind == Ack ==> 0.0 < m.renewalTime < m.rebindTime)
  }

  /** What holds of a client in spite of halts and restarts, after which timers of the time before
      are gone while the state is still that of the time before. */
  ghost predicate Sturdy(c: Client, start: real, now: real) {
    && (c.state == IDLE || c.state == BOUND || Answers(c.state))
    && (c.state == IDLE ==> c.xid == 0 && c.timeout == c.t1 == c.t2 == c.leaseTimer == None)
    && (c.state == IDLE && c.startTimer.Some? ==> start <= c.startTimer.value)
    && (c.state != IDLE ==> start <= now && (c.startTimer.Some? ==> c.startTimer.value <= now))
    && (c.state !in {IDLE, SELECTING} ==> c.lease.Some?)
    && (c.t1.Some? ==> c.t2.Some? && c.t1.value < c.t2.value && c.state in {BOUND, REBOOTING})
    && (c.t1.Some? && c.startTimer.Some? ==> c.startTimer.value < c.t1.value)
    && (c.t2.Some? && c.t1 == None ==> c.state == RENEWING && c.startTimer == None)
    && (!c.up ==> c.timeout == c.t1 == c.t2 == c.leaseTimer == c.startTimer == None && c.iface == UNSPECIFIED)
    && (c.up && c.startTimer == None ==> if c.state == BOUND then c.t1.Some? else Answers(c.state) && c.timeout.Some?)
  }

  /** Every client is sturdy, and every message in the network is one it can digest. */
  ghost predicate Lively(s: System) {
    && s.starts.Keys == s.clients.Keys
    && (forall m <- s.net :: Regular(m))
    && (forall mac <- s.clients :: Sturdy(s.clients[mac], s.starts[mac], s.now))
  }

  lemma ReplyIsRegular(cfg: Config, t: Table, m: Message, at: real)
    requires Usable(cfg) && TableOk(cfg, t)
    requires m.op == BootRequest && m.kind == Discover ==> m.requestedIp == UNSPECIFIED
    ensures var r := Process(cfg, t, m, at).1; r.Some? ==> Regular(r.value)
  {
    FirstFreeIsNew(cfg, t, 0);
  }

  ghost predicate DueNow(c: Client, a: Event, at: real) {
    match a
    case Expire(k, _) => IsNext(c, k) && Due(c, k) == Some(at)
    case Arrive(m, _, t) => Regular(m) && m.xid != 0 && t == at
  }

  ghost predicate SturdyOutcome(o: Outcome, start: real, at: real) {
    o.Fine? && Sturdy(o.c, start, at) && (o.sent.Some? ==> Regular(o.sent.value))
  }

  lemma TimerSucceeds(c: Client, a: Event, start: real, now: real, at: real)
    requires Sturdy(c, start, now) && now <= at && DueNow(c, a, at) && a.Expire?
    ensures SturdyOutcome(Handled(c, a), start, at)
  {
    assert Due(c, T1).Some? ==> NotLater(c, a.k, T1);
    assert Due(c, StartTimer).Some? ==> NotLater(c, a.k, StartTimer);
    hide IsNext;
  }

  lemma MessageSucceeds(c: Client, a: Event, start: real, now: real, at: real)
    requires Sturdy(c, start, now) && now <= at && DueNow(c, a, at) && a.Arrive?
    ensures SturdyOutcome(Handled(c, a), start, at)
  {
    hide IsNext, OnTimer;
  }

  lemma OthersStaySturdy(c: Client, start: real, now: real, at: real)
    requires Sturdy(c, start, now) && now <= at
    ensures Sturdy(c, start, at) && Sturdy(Stopped(c), start, at)
    ensures !c.up ==> StartedAgain(c, start, at).Some? && Sturdy(StartedAgain(c, start, at).value, start, at)
  {
  }

  ghost predicate Succeeds(cfg: Config, s: System, e: Step)
    requires Enabled(s, e)
  {
    Next(cfg, s, e).Some? && Lively(Next(cfg, s, e).value)
  }

  lemma ServerStepSucceeds(cfg: Config, s: System, e: Step)
    requires Usable(cfg) && Inv(cfg, s) && Lively(s) && Enabled(s, e) && e.ServerGets?
    ensures Succeeds(cfg, s, e)
  {
    ReplyIsRegular(cfg, s.table, e.m, e.at);
    forall mac | mac in s.clients ensures Sturdy(s.clients[mac], s.starts[mac], e.at) {
      OthersStaySturdy(s.clients[mac], s.starts[mac], s.now, e.at);
    }
    hide Process, TableOk, Sturdy, Regular;
  }

  lemma ActionIsDue(cfg: Config, s: System, e: Step)
    requires Inv(cfg, s) && Lively(s) && Enabled(s, e) && e.ClientActs?
    ensures e.mac in s.clients && e.mac in s.starts && s.now <= TimeOf(s, e)
    ensures DueNow(s.clients[e.mac], e.e, TimeOf(s, e)) && Sturdy(s.clients[e.mac], s.starts[e.mac], s.now)
  {
    hide Sturdy, TableOk, ClientOk, Regular, NotLater;
  }

  lemma ClientStepSucceeds(cfg: Config, s: System, e: Step)
    requires Inv(cfg, s) && Lively(s) && Enabled(s, e) && e.ClientActs?
    ensures Succeeds(cfg, s, e)
  {
    var at := TimeOf(s, e);
    ActionIsDue(cfg, s, e);
    hide Handled, Inv, Sturdy, IsNext, Regular, Timely, DueNow, TimeOf;
    if e.e.Expire? {
      TimerSucceeds(s.clients[e.mac], e.e, s.starts[e.mac], s.now, at);
    } else {
      MessageSucceeds(s.clients[e.mac], e.e, s.starts[e.mac], s.now, at);
    }
    forall mac | mac in s.clients ensures Sturdy(s.clients[mac], s.starts[mac], at) {
      OthersStaySturdy(s.clients[mac], s.starts[mac], s.now, at);
    }
  }

  lemma HaltOrRestartSucceeds(cfg: Config, s: System, e: Step)
    requires Lively(s) && Enabled(s, e) && (e.Halt? || e.Restart?)
    ensures Succeeds(cfg, s, e)
  {
    var at := TimeOf(s, e);
    forall mac | mac in s.clients
      ensures Sturdy(s.clients[mac], s.starts[mac], at) && Sturdy(Stopped(s.clients[mac]), s.starts[mac], at)
      ensures !s.clients[mac].up ==>
                StartedAgain(s.clients[mac], s.starts[mac], at).Some? &&
                Sturdy(StartedAgain(s.clients[mac], s.starts[mac], at).value, s.starts[mac], at)
    {
      OthersStaySturdy(s.clients[mac], s.starts[mac], s.now, at);
    }
    hide Sturdy, Regular;
  }

  /** Whatever happens, halts and restarts included, no step ends in a runtime error: no client
      meets a message in a state that cannot take it, asks without a lease, or sees T2 before T1. */
  lemma NoStepFails(cfg: Config, s: System, e: Step)
    requires Usable(cfg) && Inv(cfg, s) && Lively(s) && Enabled(s, e)
    ensures Next(cfg, s, e).Some? && Lively(Next(cfg, s, e).value)
  {
    assert Succeeds(cfg, s, e) by {
      hide Inv, Lively, Enabled, Usable, Succeeds;
      match e
      case ServerGets(_, _) => ServerStepSucceeds(cfg, s, e);
      case ClientActs(_, _) => ClientStepSucceeds(cfg, s, e);
      case _ => HaltOrRestartSucceeds(cfg, s, e);
    }
    hide Lively, Enabled, Inv;
  }

  lemma {:induction false} LivelyInEveryRun(cfg: Config, trace: seq<System>, steps: seq<Step>, i: nat)
    requires Usable(cfg) && Run(cfg, trace, steps) && i < |trace|
    ensures Lively(trace[i])
  {
    if i > 0 {
      assert Follows(cfg, trace, steps, i - 1);
      LivelyInEveryRun(cfg, trace, steps, i - 1);
      InvInEveryRun(cfg, trace, steps, i - 1);
      NoStepFails(cfg, trace[i - 1], steps[i - 1]);
    }
  }

  /** In every state of every run, whatever can happen next happens without a runtime error, and
      every client that is up has some timer pending. */
  lemma NoRunFails(cfg: Config, trace: seq<System>, steps: seq<Step>, i: nat, e: Step)
    requires Usable(cfg) && Run(cfg, trace, steps) && i < |trace| && Enabled(trace[i], e)
    ensures Next(cfg, trace[i], e).Some?
    ensures forall mac <- trace[i].clients :: trace[i].clients[mac].up ==> Awake(trace[i].clients[mac])
  {
    InvInEveryRun(cfg, trace, steps, i);
    LivelyInEveryRun(cfg, trace, steps, i);
    NoStepFails(cfg, trace[i], e);
    forall mac <- trace[i].clients | trace[i].clients[mac].up ensures Awake(trace[i].clients[mac]) {
      var c := trace[i].clients[mac];
      assert Due(c, StartTimer).Some? || Due(c, T1).Some? || Due(c, Timeout).Some?;
    }
  }

  ghost predicate Awake(c: Client) {
    exists k: TimerKind :: Due(c, k).Some?
  }
}
