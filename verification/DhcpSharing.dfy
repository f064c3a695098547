/** Clients that are down at first use the same hardware address, that of no interface. Exactly
    such clients can come to share an address. */
module DhcpSharing {
  import opened Basics
  import opened DhcpServer
  import opened DhcpClient
  import opened DhcpTimers
  import opened DhcpSystem
  import opened DhcpAnswers
  import opened DhcpExchange

  ghost predicate RunBetween(cfg: Config, trace: seq<System>, steps: seq<Step>, s0: System, s: System) {
    Run(cfg, trace, steps) && trace[0] == s0 && trace[|steps|] == s
  }

  /** Some run leads from the initial state to the other. */
  ghost predicate Reaches(cfg: Config, s0: System, s: System) {
    exists trace, steps :: RunBetween(cfg, trace, steps, s0, s)
  }

  /** Two clients claim the same address. */
  ghost predicate Share(s: System, a: Mac, b: Mac) {
    a in s.clients && b in s.clients && exists ip: Ip :: Claims(s.clients[a], ip) && Claims(s.clients[b], ip)
  }

  lemma ReachesItself(cfg: Config, s0: System)
    requires Initial(s0)
    ensures Reaches(cfg, s0, s0)
  {
    assert RunBetween(cfg, [s0], [], s0, s0);
  }

  lemma ReachesNext(cfg: Config, s0: System, s: System, e: Step)
    requires Reaches(cfg, s0, s) && Enabled(s, e) && Next(cfg, s, e).Some?
    ensures Reaches(cfg, s0, Next(cfg, s, e).value)
  {
    var t := Next(cfg, s, e).value;
    var trace, steps :| RunBetween(cfg, trace, steps, s0, s);
    hide Enabled, Next, Initial;
    var trace', steps' := trace + [t], steps + [e];
    forall i: nat | i < |steps'| ensures Follows(cfg, trace', steps', i) {
      assert i < |steps| ==> Follows(cfg, trace, steps, i);
    }
    assert RunBetween(cfg, trace', steps', s0, t);
  }

  lemma ReachedIsInOrder(cfg: Config, s0: System, s: System)
    requires Reaches(cfg, s0, s)
    ensures Inv(cfg, s)
  {
    var trace, steps :| RunBetween(cfg, trace, steps, s0, s);
    InvInEveryRun(cfg, trace, steps, |steps|);
  }

  // ---------------------------------------------------------------------------------
  // Halting everybody

  /** Nothing has been sent yet; clients wait for their start, are still down, or down again. */
  ghost predicate Unstarted(s: System) {
    && s.table == map[] && s.net == {} && s.owner == map[] && s.starts.Keys == s.clients.Keys
    && forall mac <- s.clients ::
         s.clients[mac] == Booted(mac, StartAt(s.starts[mac], s.now)) || (!s.clients[mac].up && Calm(s.clients[mac]))
  }

  /** No timer is pending. */
  predicate Calm(c: Client) {
    c.startTimer == c.t1 == c.t2 == c.leaseTimer == c.timeout == None
  }

  lemma HaltOne(cfg: Config, s: System, mac: Mac)
    requires Unstarted(s) && mac in s.clients && s.clients[mac].up
    ensures Enabled(s, Halt(mac, s.now)) && Next(cfg, s, Halt(mac, s.now)).Some?
    ensures Unstarted(Next(cfg, s, Halt(mac, s.now)).value)
  {
    forall m <- s.clients, k: TimerKind | Due(s.clients[m], k).Some? ensures s.now <= Due(s.clients[m], k).value {
    }
  }

  /** All clients can be halted, and those that are down at first stay as they are. */
  lemma {:induction false} HaltAll(cfg: Config, s0: System, s: System) returns (t: System)
    requires Reaches(cfg, s0, s) && Unstarted(s)
    ensures Reaches(cfg, s0, t) && Unstarted(t) && t.now == s.now && t.starts == s.starts
    ensures t.clients.Keys == s.clients.Keys && forall mac <- t.clients :: Calm(t.clients[mac])
    ensures forall mac <- s.clients :: !s.clients[mac].up ==> t.clients[mac] == s.clients[mac]
    decreases |set mac <- s.clients | s.clients[mac].up|
  {
    if mac :| mac in s.clients && s.clients[mac].up {
      HaltOne(cfg, s, mac);
      ReachesNext(cfg, s0, s, Halt(mac, s.now));
      var u := Next(cfg, s, Halt(mac, s.now)).value;
      assert (set m <- u.clients | u.clients[m].up) == (set m <- s.clients | s.clients[m].up) - {mac};
      t := HaltAll(cfg, s0, u);
    } else {
      t := s;
    }
  }

  // ---------------------------------------------------------------------------------
  // One exchange as a part of a run

  /** No timer is due before the given time. */
  ghost predicate NothingBefore(c: Client, at: real) {
    forall k: TimerKind :: Due(c, k).Some? ==> at <= Due(c, k).value
  }

  ghost predicate Ready(s: System, at: real) {
    s.now <= at && forall mac <- s.clients :: NothingBefore(s.clients[mac], at)
  }

  lemma ReadyIsTimely(s: System, at: real)
    requires Ready(s, at)
    ensures Timely(s, at)
  {
    forall m <- s.clients, k: TimerKind | Due(s.clients[m], k).Some? ensures at <= Due(s.clients[m], k).value {
      assert NothingBefore(s.clients[m], at);
    }
  }

  /** What the client has sent is delivered and answered, and the answer is delivered. */
  lemma TripInRun(cfg: Config, s0: System, s: System, mac: Mac, o: Outcome, x: int, at: real) returns (t: System)
    requires Reaches(cfg, s0, s) && Ready(s, at) && mac in s.clients && x != 0 && x !in s.owner
    requires o.Fine? && o.c == s.clients[mac] && o.sent.Some? && o.sent.value in s.net
    requires Process(cfg, s.table, o.sent.value, at).1.Some? && RoundTrip(cfg, s.table, o, x, at).1.Fine?
    ensures Reaches(cfg, s0, t)
    ensures var (t', o') := RoundTrip(cfg, s.table, o, x, at);
            && t.table == t' && t.clients == s.clients[mac := o'.c] && t.now == at && t.starts == s.starts
            && t.owner == s.owner[x := o.c.chaddr] && Sent(o'.sent) <= t.net
  {
    ReadyIsTimely(s, at);
    var ask := ServerGets(o.sent.value, at);
    ReachesNext(cfg, s0, s, ask);
    var u := Next(cfg, s, ask).value;
    var answer := Process(cfg, s.table, o.sent.value, at).1.value;
    var take := ClientActs(mac, Arrive(answer, x, at));
    hide Process, OnMessage;
    ReadyIsTimely(u, at);
    ReachesNext(cfg, s0, u, take);
    t := Next(cfg, u, take).value;
  }

  /** A client that was down at first is started and sends its DISCOVER. */
  lemma StartInRun(cfg: Config, s0: System, s: System, mac: Mac, x: int, at: real) returns (t: System, o: Outcome)
    requires Reaches(cfg, s0, s) && Ready(s, at) && mac in s.clients && s.clients[mac] == BootedDown()
    requires mac in s.starts && s.starts[mac] <= at && x != 0 && x !in s.owner
    ensures Reaches(cfg, s0, t) && o == Discovering(x, at)
    ensures t == s.(clients := s.clients[mac := o.c], net := s.net + Sent(o.sent), owner := s.owner[x := NO_MAC], now := at)
  {
    ReadyIsTimely(s, at);
    var start := Restart(mac, at);
    ReachesNext(cfg, s0, s, start);
    var u := Next(cfg, s, start).value;
    assert NothingBefore(u.clients[mac], at);
    ReadyIsTimely(u, at);
    var go := ClientActs(mac, Expire(StartTimer, x));
    assert IsNext(u.clients[mac], StartTimer);
    ReachesNext(cfg, s0, u, go);
    t := Next(cfg, u, go).value;
    o := Handled(u.clients[mac], Expire(StartTimer, x));
  }

  /** A message changes the state only if it gets an answer, and never schedules a start. */
  lemma TripTimers(cfg: Config, t: Table, o: Outcome, x: int, at: real)
    requires o.Fine? && o.sent.Some? && RoundTrip(cfg, t, o, x, at).1.Fine?
    ensures var c := RoundTrip(cfg, t, o, x, at).1.c;
            && (c.state != o.c.state ==> Process(cfg, t, o.sent.value, at).1.Some?)
            && c.startTimer == o.c.startTimer
            && (c.state == REQUESTING && NothingBefore(o.c, at) ==> NothingBefore(c, at))
  {
    hide Process;
    var c := RoundTrip(cfg, t, o, x, at).1.c;
    if c.state == REQUESTING && NothingBefore(o.c, at) {
      forall k: TimerKind | Due(c, k).Some? ensures at <= Due(c, k).value {
        assert k != Timeout ==> Due(c, k) == Due(o.c, k);
        assert k == Timeout ==> Due(c, k) == Some(at + RESPONSE_TIMEOUT) || Due(c, k) == Due(o.c, k);
      }
    }
  }

  /** The client that was started waits for the acknowledgement of an offered address. */
  ghost predicate Accepts(cfg: Config, t: Table, o: Outcome, ip: Ip, at: real) {
    && o.Fine? && o.c.state == REQUESTING && o.c.up && o.c.startTimer == None && o.c.chaddr == NO_MAC
    && NothingBefore(o.c, at) && o.c.lease == Some(Granted(ip, cfg.ip, 0.0, 0.0, 0.0))
    && o.sent == Some(RequestFrom(NO_MAC, o.c.xid, UNSPECIFIED, ip, cfg.ip))
    && TableOk(cfg, t) && Held(t, NO_MAC, ip) && InPool(cfg, ip)
  }

  function Discovering(x: int, at: real): Outcome {
    Restarted(BootedDown().(up := true, state := INIT), x, at)
  }

  lemma DiscoverIsAnswered(cfg: Config, t: Table, x: int, at: real) returns (ip: Ip)
    requires TableOk(cfg, t) && Usable(cfg) && CanOffer(cfg, t, NO_MAC)
    ensures var o := Discovering(x, at);
            && o.Fine? && o.sent.Some? && NothingBefore(o.c, at) && Process(cfg, t, o.sent.value, at).1.Some?
            && var (t', o') := RoundTrip(cfg, t, o, x + 1, at); Accepts(cfg, t', o', ip, at)
    ensures LeaseByMac(t, NO_MAC).Some? ==> LeaseByMac(t, NO_MAC) == Some(ip)
  {
    var d := BootedDown().(up := true, state := INIT);
    ip := OfferAccepted(cfg, t, d, x, x + 1, at, at);
    OldAddressKept(cfg, t, d, x, x + 1, at, at, ip);
    TripTimers(cfg, t, Discovering(x, at), x + 1, at);
    hide RoundTrip, LeaseByMac, FirstFree, TableOk, Held, Process, InPool;
  }

  /** The client starts, and its DISCOVER is answered by an offer, which it accepts. */
  lemma OfferInRun(cfg: Config, s0: System, s: System, mac: Mac, x: int, at: real) returns (t: System, o: Outcome, ip: Ip)
    requires Reaches(cfg, s0, s) && Ready(s, at) && mac in s.clients && s.clients[mac] == BootedDown()
    requires mac in s.starts && s.starts[mac] <= at && x > 0 && forall k <- s.owner :: k < x
    requires Usable(cfg) && CanOffer(cfg, s.table, NO_MAC)
    ensures Reaches(cfg, s0, t) && Ready(t, at) && t.starts == s.starts && forall k <- t.owner :: k < x + 2
    ensures Accepts(cfg, t.table, o, ip, at) && t.clients == s.clients[mac := o.c] && Sent(o.sent) <= t.net
    ensures LeaseByMac(s.table, NO_MAC).Some? ==> LeaseByMac(s.table, NO_MAC) == Some(ip)
  {
    ReachedIsInOrder(cfg, s0, s);
    ip := DiscoverIsAnswered(cfg, s.table, x, at);
    var u, sent := StartInRun(cfg, s0, s, mac, x, at);
    hide RoundTrip, LeaseByMac, FirstFree, TableOk, Held, Process, InPool, NothingBefore, Discovering, Restarted, Usable, Reaches;
    t := TripInRun(cfg, s0, u, mac, sent, x + 1, at);
    o := RoundTrip(cfg, s.table, sent, x + 1, at).1;
  }

  lemma BoundIsAhead(cfg: Config, t: Table, o: Outcome, ip: Ip, at: real)
    requires Usable(cfg) && BoundTo(cfg, t, NO_MAC, o, ip, at) && o.c.startTimer == None && ip != UNSPECIFIED
    ensures NothingBefore(o.c, at) && Claims(o.c, ip) && Held(t, NO_MAC, ip)
  {
  }

  /** Such a client can come to claim an address, which is that of the other such clients if they
      have one. */
  lemma ObtainInRun(cfg: Config, s0: System, s: System, mac: Mac, x: int, at: real) returns (t: System, ip: Ip)
    requires Reaches(cfg, s0, s) && Ready(s, at) && mac in s.clients && s.clients[mac] == BootedDown()
    requires mac in s.starts && s.starts[mac] <= at && x > 0 && forall k <- s.owner :: k < x
    requires Usable(cfg) && CanOffer(cfg, s.table, NO_MAC)
    ensures Reaches(cfg, s0, t) && Ready(t, at) && t.starts == s.starts && forall k <- t.owner :: k < x + 3
    ensures t.clients.Keys == s.clients.Keys && Claims(t.clients[mac], ip) && Held(t.table, NO_MAC, ip)
    ensures forall other <- s.clients :: other != mac ==> t.clients[other] == s.clients[other]
    ensures LeaseByMac(s.table, NO_MAC).Some? ==> LeaseByMac(s.table, NO_MAC) == Some(ip)
  {
    var u, o;
    u, o, ip := OfferInRun(cfg, s0, s, mac, x, at);
    RequestAcknowledged(cfg, u.table, o.c, ip, x + 2, at);
    assert o == Fine(o.c, Some(RequestFrom(NO_MAC, o.c.xid, UNSPECIFIED, ip, cfg.ip)));
    TripTimers(cfg, u.table, o, x + 2, at);
    var (tb, ob) := RoundTrip(cfg, u.table, o, x + 2, at);
    BoundIsAhead(cfg, tb, ob, ip, at);
    hide RoundTrip, LeaseByMac, FirstFree, TableOk, Held, Process, InPool;
    t := TripInRun(cfg, s0, u, mac, o, x + 2, at);
  }

  // ---------------------------------------------------------------------------------
  // Who can come to share an address

  function Later(x: real, y: real): real {
    if x < y then y else x
  }

  /** Two clients that are down at first can come to share an address: both are started, obtain
      one from the server, and it is the same. */
  lemma DownAtFirstCanShare(cfg: Config, s0: System, a: Mac, b: Mac) returns (s: System)
    requires Usable(cfg) && Initial(s0) && a in s0.clients && b in s0.clients && a != b
    requires cfg.maxNumClients > 0 && !s0.clients[a].up && !s0.clients[b].up
    ensures Reaches(cfg, s0, s) && Share(s, a, b)
  {
    ReachesItself(cfg, s0);
    var t := HaltAll(cfg, s0, s0);
    var at := Later(t.now, Later(t.starts[a], t.starts[b]));
    assert FreeAt(cfg, t.table, 0);
    var u, ip := ObtainInRun(cfg, s0, t, a, 1, at);
    ReachedIsInOrder(cfg, s0, u);
    LeaseIsUnique(cfg, u.table, NO_MAC, ip);
    var v, jp := ObtainInRun(cfg, s0, u, b, 4, at);
    s := v;
    assert Claims(s.clients[a], ip) && Claims(s.clients[b], ip);
  }

  /** Some run brings two clients to the same address exactly if there is an address to have and
      both were down at first. */
  lemma AddressSharedExactlyWhen(cfg: Config, s0: System, a: Mac, b: Mac)
    requires Usable(cfg) && Initial(s0) && a in s0.clients && b in s0.clients && a != b
    ensures (exists s :: Reaches(cfg, s0, s) && Share(s, a, b)) <==>
            cfg.maxNumClients > 0 && !s0.clients[a].up && !s0.clients[b].up
  {
    if s :| Reaches(cfg, s0, s) && Share(s, a, b) {
      var trace, steps :| RunBetween(cfg, trace, steps, s0, s);
      var ip: Ip :| Claims(s.clients[a], ip) && Claims(s.clients[b], ip);
      AddressesAreUnique(cfg, trace, steps, |steps|, a, ip);
    }
    if cfg.maxNumClients > 0 && !s0.clients[a].up && !s0.clients[b].up {
      var s := DownAtFirstCanShare(cfg, s0, a, b);
    }
  }
}
