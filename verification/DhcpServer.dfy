/** DHCP messages and what the server makes of each of them. */
module DhcpServer {
  import opened Basics

  type Ip = x: int | 0 <= x < 0x1_0000_0000
  type Mac = int

  const UNSPECIFIED: Ip := 0

  const NO_MAC: Mac := 0

  datatype Op = BootRequest | BootReply | OtherOp

  datatype Kind = Discover | Offer | Request | Decline | Ack | Nak | Release | Inform

  datatype Message = Message(
    op: Op, kind: Kind, xid: int, chaddr: Mac, ciaddr: Ip, yiaddr: Ip, requestedIp: Ip, serverId: Ip,
    renewalTime: real, rebindTime: real, leaseTime: real)

  datatype Lease = Lease(ip: Ip, mac: Mac, xid: int, leaseTime: real, leased: bool)

  type Table = map<Ip, Lease>

  /** The server's own address, the pool and the lease time. */
  datatype Config = Config(ip: Ip, start: Ip, maxNumClients: nat, subnetMask: Ip, leaseTime: real)

  function PoolAddress(c: Config, i: nat): Ip {
    (c.start + i) % 0x1_0000_0000
  }

  ghost predicate InPool(c: Config, ip: Ip) {
    exists i: nat :: i < c.maxNumClients && ip == PoolAddress(c, i)
  }

  // ---------------------------------------------------------------------------------
  // What the server does, as functions on the table

  /** The first lease of a client in the order of addresses. */
  ghost predicate IsFirst(t: Table, mac: Mac, ip: Ip) {
    ip in t && t[ip].mac == mac && forall other <- t.Keys :: t[other].mac == mac ==> ip <= other
  }

  ghost function LeaseByMac(t: Table, mac: Mac): (r: Option<Ip>)
    ensures r.Some? ==> IsFirst(t, mac, r.value)
    ensures r == None ==> forall ip :: !IsFirst(t, mac, ip)
  {
    if exists ip :: IsFirst(t, mac, ip) then var ip :| IsFirst(t, mac, ip); Some(ip) else None
  }

  /** The first pool address, from the i-th on, that is unknown or known and not leased. */
  function FirstFree(c: Config, t: Table, i: nat): Option<Ip>
    requires i <= c.maxNumClients
    decreases c.maxNumClients - i
  {
    if i == c.maxNumClients then None
    else if PoolAddress(c, i) !in t || !t[PoolAddress(c, i)].leased then Some(PoolAddress(c, i))
    else FirstFree(c, t, i + 1)
  }

  /** The i-th address of the pool is unknown, or known and not leased. */
  predicate FreeAt(c: Config, t: Table, i: nat) {
    PoolAddress(c, i) !in t || !t[PoolAddress(c, i)].leased
  }

  ghost predicate NoneFree(c: Config, t: Table) {
    forall i: nat :: i < c.maxNumClients ==> !FreeAt(c, t, i)
  }

  /** The i-th address of the pool is free, and no earlier one is. */
  ghost predicate FirstFreeAt(c: Config, t: Table, i: nat) {
    i < c.maxNumClients && FreeAt(c, t, i) && forall j: nat :: j < i ==> !FreeAt(c, t, j)
  }

  lemma {:induction false} FirstFreeFrom(c: Config, t: Table, i: nat)
    requires i <= c.maxNumClients && forall j: nat :: j < i ==> !FreeAt(c, t, j)
    ensures FirstFree(c, t, i) == None <==> NoneFree(c, t)
    ensures FirstFree(c, t, i).Some? ==> exists k: nat :: FirstFreeAt(c, t, k) && FirstFree(c, t, i) == Some(PoolAddress(c, k))
    decreases c.maxNumClients - i
  {
    if i < c.maxNumClients {
      if FreeAt(c, t, i) {
        assert FirstFreeAt(c, t, i);
      } else {
        FirstFreeFrom(c, t, i + 1);
      }
    }
  }

  /** The search fails exactly if no address of the pool is free, and otherwise finds the first
      one that is. */
  lemma FirstFreeExactly(c: Config, t: Table)
    ensures FirstFree(c, t, 0) == None <==> NoneFree(c, t)
    ensures FirstFree(c, t, 0).Some? ==> exists k: nat :: FirstFreeAt(c, t, k) && FirstFree(c, t, 0) == Some(PoolAddress(c, k))
  {
    FirstFreeFrom(c, t, 0);
  }

  /** The lease to offer to a client that has none; an address asked for is taken over even
      if it is leased. */
  function Available(c: Config, t: Table, requested: Ip): Option<Ip> {
    if requested != UNSPECIFIED then Some(requested) else FirstFree(c, t, 0)
  }

  /** The lease record for a new client: one that is known and free, or else a new one. */
  function Recycled(t: Table, ip: Ip): Lease {
    if ip in t && !t[ip].leased then t[ip] else Lease(ip, 0, 0, 0.0, false)
  }

  function Reply(c: Config, kind: Kind, xid: int, chaddr: Mac, ip: Ip): Message {
    if kind == Nak then Message(BootReply, Nak, xid, chaddr, UNSPECIFIED, UNSPECIFIED, UNSPECIFIED, c.ip, 0.0, 0.0, 0.0)
    else Message(BootReply, kind, xid, chaddr, if kind == Ack then ip else UNSPECIFIED, ip, UNSPECIFIED, c.ip,
                 c.leaseTime * 0.5, c.leaseTime * 0.875, c.leaseTime)
  }

  function NakFor(c: Config, m: Message): Message {
    Reply(c, Nak, m.xid, m.chaddr, UNSPECIFIED)
  }

  /** Confirms the lease of `ip` to whoever asked. */
  function Confirm(c: Config, t: Table, ip: Ip, m: Message, now: real): (Table, Option<Message>)
    requires ip in t
  {
    var l := t[ip].(xid := m.xid, leased := true, leaseTime := now);
    (t[ip := l], Some(Reply(c, Ack, l.xid, l.mac, l.ip)))
  }

  ghost function OnDiscover(c: Config, t: Table, m: Message, now: real): (Table, Option<Message>) {
    match LeaseByMac(t, m.chaddr)
    case Some(ip) =>
      var l := t[ip].(xid := m.xid, leaseTime := now);
      (t[ip := l], Some(Reply(c, Offer, l.xid, l.mac, l.ip)))
    case None =>
      match Available(c, t, m.requestedIp)
      case None => (t, None)
      case Some(ip) =>
        var l := Recycled(t, ip).(mac := m.chaddr, xid := m.xid, leaseTime := now, leased := true);
        (t[ip := l], Some(Reply(c, Offer, l.xid, l.mac, l.ip)))
  }

  /** Addresses equal under a mask. */
  function Masked(ip: Ip, mask: Ip): bv32 {
    (ip as bv32) & (mask as bv32)
  }

  ghost function OnRequest(c: Config, t: Table, m: Message, now: real): (Table, Option<Message>) {
    if m.serverId == c.ip then
      match LeaseByMac(t, m.chaddr)
      case None => (t, Some(NakFor(c, m)))
      case Some(ip) =>
        if t[ip].ip != m.requestedIp then (t, Some(NakFor(c, m))) else Confirm(c, t, ip, m, now)
    else if m.ciaddr == UNSPECIFIED then
      if m.requestedIp !in t then (t, None)
      else if Masked(m.requestedIp, c.subnetMask) == Masked(t[m.requestedIp].ip, c.subnetMask) then
        Confirm(c, t, m.requestedIp, m, now)
      else (t, Some(NakFor(c, m)))
    else
      if m.ciaddr in t then Confirm(c, t, m.ciaddr, m, now) else (t, Some(NakFor(c, m)))
  }

  ghost function Process(c: Config, t: Table, m: Message, now: real): (Table, Option<Message>) {
    if m.op != BootRequest then (t, None)
    else match m.kind
      case Discover => OnDiscover(c, t, m, now)
      case Request => OnRequest(c, t, m, now)
      case _ => (t, None)
  }

  lemma LeastExists(s: set<Ip>) returns (least: Ip)
    requires s != {}
    ensures least in s && forall k <- s :: least <= k
  {
    least :| least in s;
    if s != {least} {
      var first := least;
      var rest := LeastExists(s - {first});
      assert forall k <- s :: k == first || k in s - {first};
      if rest < least {
        least := rest;
      }
    }
  }
}
