/** What the exchanges between one client and the server come to when no message is lost. */
module DhcpExchange {
  import opened Basics
  import opened DhcpServer
  import opened DhcpClient
  import opened DhcpSystem
  import opened DhcpAnswers

  /** The server's answer to what the client has just sent, taken back to the client. */
  ghost function RoundTrip(cfg: Config, t: Table, o: Outcome, newXid: int, at: real): (Table, Outcome) {
    if o.Fails? || o.sent == None then (t, o)
    else
      var (t', answer) := Process(cfg, t, o.sent.value, at);
      (t', if answer == None then Fine(o.c, None) else OnMessage(o.c, answer.value, newXid, at))
  }

  /** The client holds the address on its interface and in its lease, with the server's times. */
  ghost predicate BoundTo(cfg: Config, t: Table, mac: Mac, o: Outcome, ip: Ip, at: real) {
    && o.Fine? && o.sent == None && o.c.state == BOUND && o.c.chaddr == mac && o.c.iface == ip && Held(t, mac, ip) && t[ip].leased
    && o.c.lease.Some? && o.c.lease.value.ip == ip && o.c.lease.value.serverId == cfg.ip
    && o.c.lease.value.leaseTime == cfg.leaseTime
    && o.c.t1 == Some(at + cfg.leaseTime * 0.5) && o.c.t2 == Some(at + cfg.leaseTime * 0.875)
    && o.c.leaseTimer == Some(at + cfg.leaseTime) && o.c.timeout == None
  }

  /** The client has an address on file, or some address of the pool is free. */
  ghost predicate CanOffer(cfg: Config, t: Table, mac: Mac) {
    Known(t, mac) || exists i: nat :: i < cfg.maxNumClients && FreeAt(cfg, t, i)
  }

  lemma OfferIsThere(cfg: Config, t: Table, mac: Mac)
    requires TableOk(cfg, t) && CanOffer(cfg, t, mac)
    ensures LeaseByMac(t, mac).Some? || FirstFree(cfg, t, 0).Some?
  {
    hide InPool, LeaseByMac, FirstFree;
    HolderIsFound(cfg, t, mac);
    FirstFreeExactly(cfg, t);
  }

  lemma LeaseIsUnique(cfg: Config, t: Table, mac: Mac, ip: Ip)
    requires TableOk(cfg, t) && Held(t, mac, ip)
    ensures LeaseByMac(t, mac) == Some(ip)
  {
    assert IsFirst(t, mac, ip);
  }

  lemma HeldIsInPool(cfg: Config, t: Table)
    requires TableOk(cfg, t)
    ensures forall ip <- t :: t[ip].ip == ip && t[ip].leased && InPool(cfg, ip)
  {
  }

  /** The first round: DISCOVER, OFFER and the request that accepts it. */
  lemma OfferAccepted(cfg: Config, t: Table, c: Client, x1: int, x2: int, t1: real, t2: real) returns (ip: Ip)
    requires TableOk(cfg, t) && c.up && !InPool(cfg, UNSPECIFIED)
    requires CanOffer(cfg, t, c.chaddr)
    ensures var (t', o) := RoundTrip(cfg, t, Restarted(c, x1, t1), x2, t2);
            && TableOk(cfg, t') && Held(t', c.chaddr, ip) && t'[ip].leased && InPool(cfg, ip)
            && o.Fine? && o.c.state == REQUESTING && o.c.up && o.c.xid == x2 && o.c.chaddr == c.chaddr && o.c.iface == c.iface
            && o.c.lease == Some(Granted(ip, cfg.ip, 0.0, 0.0, 0.0))
            && o.sent == Some(RequestFrom(c.chaddr, x2, UNSPECIFIED, ip, cfg.ip))
  {
    hide InPool, LeaseByMac, FirstFree, TableOk, CanOffer;
    var m := DiscoverFrom(c.chaddr, x1);
    FirstFreeIsNew(cfg, t, 0);
    OfferIsThere(cfg, t, c.chaddr);
    DiscoverKeepsTable(cfg, t, m, t2);
    HeldIsInPool(cfg, OnDiscover(cfg, t, m, t2).0);
    HeldIsInPool(cfg, t);
    var (t', answer) := OnDiscover(cfg, t, m, t2);
    ip := answer.value.yiaddr;
  }

  /** The second round: the request that accepts an offer is acknowledged. */
  lemma RequestAcknowledged(cfg: Config, t: Table, c: Client, ip: Ip, x3: int, at: real)
    requires TableOk(cfg, t) && Held(t, c.chaddr, ip) && ip != UNSPECIFIED && c.up && c.state == REQUESTING
    requires c.lease == Some(Granted(ip, cfg.ip, 0.0, 0.0, 0.0))
    ensures var (t', o) := RoundTrip(cfg, t, Fine(c, Some(RequestFrom(c.chaddr, c.xid, UNSPECIFIED, ip, cfg.ip))), x3, at);
            BoundTo(cfg, t', c.chaddr, o, ip, at)
  {
    LeaseIsUnique(cfg, t, c.chaddr, ip);
    hide InPool, LeaseByMac;
  }

  /** A client that starts over obtains an address of the pool, its old one if it has one: after
      DISCOVER, OFFER, REQUEST and ACK it is bound to it. */
  lemma ObtainsAddress(cfg: Config, t: Table, c: Client, x1: int, x2: int, x3: int, at1: real, at2: real, at3: real)
    returns (ip: Ip)
    requires TableOk(cfg, t) && c.up && !InPool(cfg, UNSPECIFIED)
    requires CanOffer(cfg, t, c.chaddr)
    ensures var (ta, oa) := RoundTrip(cfg, t, Restarted(c, x1, at1), x2, at2);
            var (tb, ob) := RoundTrip(cfg, ta, oa, x3, at3);
            BoundTo(cfg, tb, c.chaddr, ob, ip, at3) && InPool(cfg, ip)
    ensures ToOffer(cfg, t, DiscoverFrom(c.chaddr, x1), ip)
    ensures LeaseByMac(t, c.chaddr).Some? ==> LeaseByMac(t, c.chaddr) == Some(ip)
  {
    OfferIsRight(cfg, t, c, x1, x2, at1, at2);
    ip := OfferAccepted(cfg, t, c, x1, x2, at1, at2);
    OldAddressKept(cfg, t, c, x1, x2, at1, at2, ip);
    hide TableOk, LeaseByMac, FirstFree;
    var (ta, oa) := RoundTrip(cfg, t, Restarted(c, x1, at1), x2, at2);
    hide RoundTrip, Restarted, BoundTo, Held;
    assert ip != UNSPECIFIED;
    RequestAcknowledged(cfg, ta, oa.c, ip, x3, at3);
    assert oa == Fine(oa.c, Some(RequestFrom(c.chaddr, oa.c.xid, UNSPECIFIED, ip, cfg.ip)));
  }

  /** The client accepts the address that the server is to offer. */
  lemma OfferIsRight(cfg: Config, t: Table, c: Client, x1: int, x2: int, at1: real, at2: real)
    requires TableOk(cfg, t) && c.up && !InPool(cfg, UNSPECIFIED) && CanOffer(cfg, t, c.chaddr)
    ensures var o := RoundTrip(cfg, t, Restarted(c, x1, at1), x2, at2).1;
            o.Fine? && o.c.lease.Some? && ToOffer(cfg, t, DiscoverFrom(c.chaddr, x1), o.c.lease.value.ip)
  {
    var m := DiscoverFrom(c.chaddr, x1);
    var ip := OfferAccepted(cfg, t, c, x1, x2, at1, at2);
    OfferIsThere(cfg, t, c.chaddr);
    AnsweredByLaw(cfg, t, m, at2);
    DiscoverKeepsTable(cfg, t, m, at2);
    FirstFreeIsNew(cfg, t, 0);
    hide InPool, LeaseByMac, FirstFree, ToOffer, TableOk, FirstFreeAt, NoneFree;
  }

  lemma OldAddressKept(cfg: Config, t: Table, c: Client, x1: int, x2: int, at1: real, at2: real, ip: Ip)
    requires TableOk(cfg, t) && Held(RoundTrip(cfg, t, Restarted(c, x1, at1), x2, at2).0, c.chaddr, ip)
    ensures LeaseByMac(t, c.chaddr).Some? ==> LeaseByMac(t, c.chaddr) == Some(ip)
  {
    var m := DiscoverFrom(c.chaddr, x1);
    DiscoverKeepsTable(cfg, t, m, at2);
    hide LeaseByMac, InPool;
  }

  /** At T1 a bound client asks for its address again and is bound to it anew. */
  lemma RenewsAddress(cfg: Config, t: Table, c: Client, x1: int, x2: int, due: real, at: real)
    requires TableOk(cfg, t) && c.up && c.state == BOUND && c.lease.Some? && Held(t, c.chaddr, c.lease.value.ip)
    requires c.lease.value.ip != UNSPECIFIED && c.lease.value.serverId == cfg.ip && cfg.ip != UNSPECIFIED
    ensures var (t', o) := RoundTrip(cfg, t, OnTimer(c, T1, x1, due), x2, at);
            BoundTo(cfg, t', c.chaddr, o, c.lease.value.ip, at)
  {
    hide InPool, LeaseByMac, Masked;
  }

  /** If the server has no record of the address any more, the client gives it up and starts over. */
  lemma UnknownAddressGivenUp(cfg: Config, t: Table, c: Client, x1: int, x2: int, due: real, at: real)
    requires c.up && c.state == BOUND && c.lease.Some? && c.lease.value.ip !in t
    requires c.lease.value.ip != UNSPECIFIED && cfg.ip != UNSPECIFIED
    ensures var (t', o) := RoundTrip(cfg, t, OnTimer(c, T1, x1, due), x2, at);
            && t' == t && o.Fine? && o.c.state == SELECTING && o.c.iface == UNSPECIFIED
            && o.sent == Some(DiscoverFrom(c.chaddr, x2)) && o.c.t1 == o.c.t2 == o.c.leaseTimer == None
  {
    hide InPool, LeaseByMac, Masked;
  }

  /** A client that comes up again with a lease has it confirmed. */
  lemma RebootConfirmsAddress(cfg: Config, t: Table, c: Client, x1: int, x2: int, due: real, at: real)
    requires TableOk(cfg, t) && c.up && c.lease.Some? && Held(t, c.chaddr, c.lease.value.ip)
    requires c.lease.value.ip != UNSPECIFIED && c.lease.value.serverId == cfg.ip && cfg.ip != UNSPECIFIED
    ensures var (t', o) := RoundTrip(cfg, t, OnTimer(c, StartTimer, x1, due), x2, at);
            BoundTo(cfg, t', c.chaddr, o, c.lease.value.ip, at)
  {
    hide InPool, LeaseByMac, Masked;
  }

  // ---------------------------------------------------------------------------------
  // Each timer, followed by answers

  /** After two round trips from `o` on the client is bound to the address that the server has to
      offer it. */
  ghost predicate Obtains(cfg: Config, t: Table, o: Outcome, mac: Mac, x2: int, x3: int, at2: real, at3: real) {
    var (ta, oa) := RoundTrip(cfg, t, o, x2, at2);
    var (tb, ob) := RoundTrip(cfg, ta, oa, x3, at3);
    exists ip :: BoundTo(cfg, tb, mac, ob, ip, at3) && ToOffer(cfg, t, DiscoverFrom(mac, 0), ip)
  }

  lemma RestartObtains(cfg: Config, t: Table, c: Client, x1: int, x2: int, x3: int, at1: real, at2: real, at3: real)
    requires TableOk(cfg, t) && c.up && !InPool(cfg, UNSPECIFIED) && CanOffer(cfg, t, c.chaddr)
    ensures Obtains(cfg, t, Restarted(c, x1, at1), c.chaddr, x2, x3, at2, at3)
  {
    var ip := ObtainsAddress(cfg, t, c, x1, x2, x3, at1, at2, at3);
    assert ToOffer(cfg, t, DiscoverFrom(c.chaddr, 0), ip);
    hide RoundTrip, Restarted, BoundTo, ToOffer;
  }

  /** A message was lost: when the response timer expires, and nothing is lost from then on, the
      client comes to be bound, whatever it was waiting for. */
  lemma TimeoutObtains(cfg: Config, t: Table, c: Client, x1: int, x2: int, x3: int, due: real, at2: real, at3: real)
    requires TableOk(cfg, t) && c.up && !InPool(cfg, UNSPECIFIED) && CanOffer(cfg, t, c.chaddr)
    ensures Obtains(cfg, t, OnTimer(c, Timeout, x1, due), c.chaddr, x2, x3, at2, at3)
  {
    RestartObtains(cfg, t, c, x1, x2, x3, due, at2, at3);
  }

  /** At its start a client without a lease obtains an address. */
  lemma StartObtains(cfg: Config, t: Table, c: Client, x1: int, x2: int, x3: int, due: real, at2: real, at3: real)
    requires TableOk(cfg, t) && c.up && c.lease == None && !InPool(cfg, UNSPECIFIED) && CanOffer(cfg, t, c.chaddr)
    ensures Obtains(cfg, t, OnTimer(c, StartTimer, x1, due), c.chaddr, x2, x3, at2, at3)
  {
    RestartObtains(cfg, t, c.(state := INIT), x1, x2, x3, due, at2, at3);
  }

  /** At the end of its lease the client takes the address off the interface, and obtains one anew. */
  lemma LeaseEndsAndObtains(cfg: Config, t: Table, c: Client, x1: int, x2: int, x3: int, due: real, at2: real, at3: real)
    requires TableOk(cfg, t) && c.up && !InPool(cfg, UNSPECIFIED) && CanOffer(cfg, t, c.chaddr)
    ensures var o := OnTimer(c, LeaseTimer, x1, due);
            o.Fine? && o.c.iface == UNSPECIFIED && Obtains(cfg, t, o, c.chaddr, x2, x3, at2, at3)
  {
    RestartObtains(cfg, t, Unbound(c).(state := INIT), x1, x2, x3, due, at2, at3);
    hide Obtains;
  }

  /** At T2 a client whose renewal got no answer asks everybody, and is bound to its address anew. */
  lemma RebindsAddress(cfg: Config, t: Table, c: Client, x1: int, x2: int, due: real, at: real)
    requires TableOk(cfg, t) && c.up && c.state == RENEWING && c.lease.Some? && Held(t, c.chaddr, c.lease.value.ip)
    requires c.lease.value.ip != UNSPECIFIED && c.lease.value.serverId == cfg.ip && cfg.ip != UNSPECIFIED
    ensures var (t', o) := RoundTrip(cfg, t, OnTimer(c, T2, x1, due), x2, at);
            BoundTo(cfg, t', c.chaddr, o, c.lease.value.ip, at)
  {
    hide InPool, LeaseByMac, Masked;
  }

  /** If the server does not know the address, the client gives it up and starts over. */
  lemma RebindingRefused(cfg: Config, t: Table, c: Client, x1: int, x2: int, due: real, at: real)
    requires c.up && c.state == RENEWING && c.lease.Some? && c.lease.value.ip !in t
    requires c.lease.value.ip != UNSPECIFIED && cfg.ip != UNSPECIFIED
    ensures var (t', o) := RoundTrip(cfg, t, OnTimer(c, T2, x1, due), x2, at);
            && t' == t && o.Fine? && o.c.state == SELECTING && o.c.iface == UNSPECIFIED
            && o.sent == Some(DiscoverFrom(c.chaddr, x2)) && o.c.t1 == o.c.t2 == o.c.leaseTimer == None
  {
    hide InPool, LeaseByMac, Masked;
  }

  /** An offer that the server no longer stands by is refused; the client starts over. */
  lemma AcceptanceRefused(cfg: Config, t: Table, c: Client, ip: Ip, x2: int, at: real)
    requires TableOk(cfg, t) && c.up && c.state == REQUESTING && !Held(t, c.chaddr, ip)
    ensures var (t', o) := RoundTrip(cfg, t, Fine(c, Some(RequestFrom(c.chaddr, c.xid, UNSPECIFIED, ip, cfg.ip))), x2, at);
            && t' == t && o.Fine? && o.c.state == SELECTING && o.c.iface == c.iface && o.sent == Some(DiscoverFrom(c.chaddr, x2))
  {
    HolderIsFound(cfg, t, c.chaddr);
    hide InPool, LeaseByMac, Masked;
  }

  /** After a reboot with a lease the server does not know there is no answer, and the client
      obtains an address when the response timer expires. */
  lemma UnknownLeaseObtains(cfg: Config, t: Table, c: Client, x1: int, x2: int, x3: int, x4: int, due: real, at2: real, at3: real)
    requires TableOk(cfg, t) && c.up && !InPool(cfg, UNSPECIFIED) && CanOffer(cfg, t, c.chaddr) && cfg.ip != UNSPECIFIED
    requires c.lease.Some? && c.lease.value.ip !in t
    ensures var (t', o) := RoundTrip(cfg, t, OnTimer(c, StartTimer, x1, due), x2, at2);
            && t' == t && o.Fine? && o.sent == None && o.c.state == REBOOTING && o.c.timeout == Some(due + 60.0)
            && Obtains(cfg, t, OnTimer(Unschedule(o.c, Timeout), Timeout, x2, due + 60.0), c.chaddr, x3, x4, at2, at3)
  {
    var o := RoundTrip(cfg, t, OnTimer(c, StartTimer, x1, due), x2, at2).1;
    hide InPool, LeaseByMac, Masked, Obtains;
    RestartObtains(cfg, t, Unschedule(o.c, Timeout), x2, x3, x4, due + 60.0, at2, at3);
  }
}
