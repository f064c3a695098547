/** How the server answers, said without the branches of its code. */
module DhcpAnswers {
  import opened Basics
  import opened DhcpServer
  import opened DhcpSystem

  /** The address that a DISCOVER is answered with: that of the client if it has one, otherwise the
      one it asks for, otherwise the first free one of the pool. */
  ghost predicate ToOffer(cfg: Config, t: Table, m: Message, ip: Ip) {
    if Known(t, m.chaddr) then Held(t, m.chaddr, ip)
    else if m.requestedIp != UNSPECIFIED then ip == m.requestedIp
    else exists i: nat :: FirstFreeAt(cfg, t, i) && ip == PoolAddress(cfg, i)
  }

  ghost predicate Known(t: Table, mac: Mac) {
    exists ip: Ip :: Held(t, mac, ip)
  }

  /** An OFFER goes out unless the client is unknown, asks for nothing and nothing is free. It is
      the only address whose record changes, and it is then on file for the client. */
  ghost predicate DiscoverLaw(cfg: Config, t: Table, m: Message, now: real, t': Table, r: Option<Message>) {
    match r
    case None => t' == t && !Known(t, m.chaddr) && m.requestedIp == UNSPECIFIED && NoneFree(cfg, t)
    case Some(a) =>
      && ToOffer(cfg, t, m, a.yiaddr) && t' == t[a.yiaddr := Lease(a.yiaddr, m.chaddr, m.xid, now, true)]
      && a == Message(BootReply, Offer, m.xid, m.chaddr, UNSPECIFIED, a.yiaddr, UNSPECIFIED, cfg.ip,
                      cfg.leaseTime * 0.5, cfg.leaseTime * 0.875, cfg.leaseTime)
  }

  /** The address that a REQUEST is about. */
  function Wanted(cfg: Config, m: Message): Ip {
    if m.serverId == cfg.ip || m.ciaddr == UNSPECIFIED then m.requestedIp else m.ciaddr
  }

  /** A REQUEST that accepts an offer is granted if the address is on file for the client, any
      other one if it is on file at all. */
  predicate Grants(cfg: Config, t: Table, m: Message) {
    if m.serverId == cfg.ip then Held(t, m.chaddr, m.requestedIp) else Wanted(cfg, m) in t
  }

  /** What is granted is acknowledged and recorded; a reboot with an unknown address gets no answer;
      anything else is refused. */
  ghost predicate RequestLaw(cfg: Config, t: Table, m: Message, now: real, t': Table, r: Option<Message>) {
    var ip := Wanted(cfg, m);
    if Grants(cfg, t, m) then
      && t' == t[ip := t[ip].(xid := m.xid, leaseTime := now)]
      && r == Some(Message(BootReply, Ack, m.xid, t[ip].mac, ip, ip, UNSPECIFIED, cfg.ip,
                           cfg.leaseTime * 0.5, cfg.leaseTime * 0.875, cfg.leaseTime))
    else
      && t' == t
      && r == if m.serverId != cfg.ip && m.ciaddr == UNSPECIFIED then None
              else Some(Message(BootReply, Nak, m.xid, m.chaddr, UNSPECIFIED, UNSPECIFIED, UNSPECIFIED, cfg.ip, 0.0, 0.0, 0.0))
  }

  ghost predicate ServerLaw(cfg: Config, t: Table, m: Message, now: real, t': Table, r: Option<Message>) {
    if m.op == BootRequest && m.kind == Discover then DiscoverLaw(cfg, t, m, now, t', r)
    else if m.op == BootRequest && m.kind == Request then RequestLaw(cfg, t, m, now, t', r)
    else t' == t && r == None
  }

  lemma HolderIsFound(cfg: Config, t: Table, mac: Mac)
    requires TableOk(cfg, t)
    ensures LeaseByMac(t, mac).Some? <==> Known(t, mac)
    ensures forall ip: Ip :: Held(t, mac, ip) <==> LeaseByMac(t, mac) == Some(ip)
  {
    if LeaseByMac(t, mac) == None {
      NoLeaseMeansNoEntry(t, mac);
    } else {
      assert Held(t, mac, LeaseByMac(t, mac).value);
    }
    hide InPool;
  }

  lemma DiscoverAnswered(cfg: Config, t: Table, m: Message, now: real)
    requires TableOk(cfg, t)
    ensures var (t', r) := OnDiscover(cfg, t, m, now); DiscoverLaw(cfg, t, m, now, t', r)
  {
    hide InPool, LeaseByMac, FirstFree, FirstFreeAt, NoneFree, Known;
    HolderIsFound(cfg, t, m.chaddr);
    FirstFreeExactly(cfg, t);
  }

  lemma RequestAnswered(cfg: Config, t: Table, m: Message, now: real)
    requires TableOk(cfg, t)
    ensures var (t', r) := OnRequest(cfg, t, m, now); RequestLaw(cfg, t, m, now, t', r)
  {
    hide InPool, LeaseByMac, Masked, Known;
    HolderIsFound(cfg, t, m.chaddr);
  }

  /** With a table in order, the server answers every message as said. */
  lemma AnsweredByLaw(cfg: Config, t: Table, m: Message, now: real)
    requires TableOk(cfg, t)
    ensures var (t', r) := Process(cfg, t, m, now); ServerLaw(cfg, t, m, now, t', r)
  {
    DiscoverAnswered(cfg, t, m, now);
    RequestAnswered(cfg, t, m, now);
    hide OnDiscover, OnRequest, DiscoverLaw, RequestLaw, TableOk;
  }
}
