/** The timer discipline of one DHCP client, in every run after its start. */
module DhcpTimers {
  import opened Basics
  import opened DhcpServer
  import opened DhcpClient

  ghost predicate Answers(s: ClientState) {
    s in {SELECTING, REQUESTING, RENEWING, REBINDING, REBOOTING}
  }

  /** T2 is due before T1, and no later than the end of the lease. */
  predicate T2First(renewal: real, rebind: real, lease: real) {
    rebind < renewal && rebind <= lease
  }

  /** Exactly the timers that belong to the state are pending, T2 not first, and there is a
      lease wherever one is needed. */
  ghost predicate TimersOk(c: Client) {
    && c.up && c.startTimer == None && (c.state == BOUND || Answers(c.state))
    && (c.t1.Some? <==> c.state == BOUND)
    && (c.t2.Some? <==> c.state in {BOUND, RENEWING})
    && (c.leaseTimer.Some? <==> c.state in {BOUND, RENEWING})
    && (c.timeout.Some? <==> Answers(c.state))
    && (c.state == BOUND ==> !T2First(c.t1.value, c.t2.value, c.leaseTimer.value))
    && (c.state != SELECTING ==> c.lease.Some?)
    && (c.lease.Some? ==> !T2First(c.lease.value.renewalTime, c.lease.value.rebindTime, c.lease.value.leaseTime))
  }

  /** Offers name an address. Acknowledgements do not make T2 come first; those without an
      address leave the times as they are. */
  predicate Sound(m: Message) {
    && (m.kind == Offer ==> m.yiaddr != UNSPECIFIED)
    && (m.kind == Ack && m.yiaddr != UNSPECIFIED ==> !T2First(m.renewalTime, m.rebindTime, m.leaseTime))
  }

  /** An acknowledgement schedules T1, T2 and the end of the lease in this order. */
  predicate SetBefore(j: TimerKind, k: TimerKind) {
    (j == T1 && k in {T2, LeaseTimer}) || (j == T2 && k == LeaseTimer)
  }

  /** The timer is the next one of the client: none is due earlier, and none that was scheduled
      before it by the same acknowledgement is due at the same time. */
  ghost predicate IsNext(c: Client, k: TimerKind) {
    && Due(c, k).Some?
    && forall j: TimerKind :: Due(c, j).Some? ==> NotLater(c, k, j)
  }

  predicate NotLater(c: Client, k: TimerKind, j: TimerKind)
    requires Due(c, k).Some? && Due(c, j).Some?
  {
    Due(c, k).value < Due(c, j).value || (Due(c, k).value == Due(c, j).value && !SetBefore(j, k))
  }

  datatype Event = Expire(k: TimerKind, newXid: int) | Arrive(m: Message, newXid: int, at: real)

  ghost predicate Possible(c: Client, e: Event) {
    match e
    case Expire(k, _) => IsNext(c, k)
    case Arrive(m, _, _) => Sound(m)
  }

  function Handled(c: Client, e: Event): Outcome {
    match e
    case Expire(k, x) =>
      if Due(c, k).Some? then OnTimer(Unschedule(c, k), k, x, Due(c, k).value) else Fails
    case Arrive(m, x, at) => OnMessage(c, m, x, at)
  }

  lemma StartSetsTimers(mac: Mac, startTime: real, newXid: int)
    ensures var o := Handled(Booted(mac, startTime), Expire(StartTimer, newXid)); o.Fine? && TimersOk(o.c)
  {
  }

  /** No handler fails, and the timers keep matching the state. In particular T2 never expires
      in the wrong state. */
  lemma EventKeepsTimers(c: Client, e: Event)
    requires TimersOk(c) && Possible(c, e)
    ensures Handled(c, e).Fine? && TimersOk(Handled(c, e).c)
  {
    if e.Expire? {
      assert Due(c, T1).Some? ==> NotLater(c, e.k, T1);
      assert Due(c, LeaseTimer).Some? ==> NotLater(c, e.k, LeaseTimer);
    }
  }

  ghost predicate Legal(c: Client, es: seq<Event>)
    decreases |es|
  {
    es == [] || (Possible(c, es[0]) && (Handled(c, es[0]).Fine? ==> Legal(Handled(c, es[0]).c, es[1..])))
  }

  /** The state after a run, or None if some handler failed. */
  ghost function Final(c: Client, es: seq<Event>): Option<Client>
    decreases |es|
  {
    if es == [] then Some(c)
    else match Handled(c, es[0])
      case Fails => None
      case Fine(d, _) => Final(d, es[1..])
  }

  lemma {:induction false} RunKeepsTimers(c: Client, es: seq<Event>)
    requires TimersOk(c) && Legal(c, es)
    ensures Final(c, es).Some? && TimersOk(Final(c, es).value)
    decreases |es|
  {
    if es != [] {
      EventKeepsTimers(c, es[0]);
      RunKeepsTimers(Handled(c, es[0]).c, es[1..]);
    }
  }

  /** In every run from the start on: no runtime error, timers match the state, and some timer
      is always pending, so the client never falls asleep. */
  lemma TimersInEveryRun(mac: Mac, startTime: real, newXid: int, es: seq<Event>)
    requires var o := Handled(Booted(mac, startTime), Expire(StartTimer, newXid)); o.Fine? && Legal(o.c, es)
    ensures var o := Handled(Booted(mac, startTime), Expire(StartTimer, newXid));
            var r := Final(o.c, es);
            r.Some? && TimersOk(r.value) && exists k: TimerKind :: Due(r.value, k).Some?
  {
    StartSetsTimers(mac, startTime, newXid);
    var o := Handled(Booted(mac, startTime), Expire(StartTimer, newXid));
    RunKeepsTimers(o.c, es);
    var c := Final(o.c, es).value;
    assert Due(c, T1).Some? || Due(c, Timeout).Some?;
  }

  // ---------------------------------------------------------------------------------
  // When T2 occurs in the wrong state

  /** After an acknowledgement the next event of the kernel can be T2 exactly if the rebinding
      time is below the renewal time and not above the lease time. */
  lemma T2IsNextExactlyWhen(c: Client, m: Message, now: real, newXid: int)
    requires c.lease.Some? && m.yiaddr != UNSPECIFIED && c.up && c.startTimer == None
    ensures var o := Bind(c, m, now);
            && o.Fine? && Handled(o.c, Expire(T2, newXid)) == Fails
            && (Possible(o.c, Expire(T2, newXid)) <==> T2First(m.renewalTime, m.rebindTime, m.leaseTime))
  {
    var d := Bind(c, m, now).c;
    assert Due(d, T1) == d.t1 && Due(d, T2) == d.t2 && Due(d, LeaseTimer) == d.leaseTimer;
    forall j: TimerKind | Due(d, j).Some? ensures j in {T1, T2, LeaseTimer} {
    }
  }

  ghost predicate CanFail(c: Client) {
    exists es :: Legal(c, es) && Final(c, es) == None
  }

  /** Let a client that waits for an acknowledgement get one that names an address, everything
      later being sound. Some continuation ends in the runtime error exactly if the rebinding
      time is below the renewal time and not above the lease time. */
  lemma WrongStateErrorExactlyWhen(c: Client, m: Message, newXid: int, at: real)
    requires TimersOk(c) && c.state in {REQUESTING, RENEWING, REBINDING, REBOOTING}
    requires m.op == BootReply && m.xid == c.xid && m.kind == Ack && m.yiaddr != UNSPECIFIED
    ensures var o := OnMessage(c, m, newXid, at);
            o.Fine? && (CanFail(o.c) <==> T2First(m.renewalTime, m.rebindTime, m.leaseTime))
  {
    var o := OnMessage(c, m, newXid, at);
    assert o == Bind(c, m, at);
    if T2First(m.renewalTime, m.rebindTime, m.leaseTime) {
      T2IsNextExactlyWhen(c, m, at, newXid);
      var es := [Expire(T2, newXid)];
      assert Legal(o.c, es) && Final(o.c, es) == None;
    } else {
      EventKeepsTimers(c, Arrive(m, newXid, at));
      forall es | Legal(o.c, es) ensures Final(o.c, es).Some? {
        RunKeepsTimers(o.c, es);
      }
    }
  }
}
