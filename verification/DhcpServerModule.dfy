/** The DHCP server as a module with its lease table. */
module DhcpServerModule {
  import opened Basics
  import opened DhcpServer
  import opened DhcpSystem
  import opened DhcpAnswers

  lemma ProcessingKeepsTable(cfg: Config, t: Table, m: Message, at: real)
    requires TableOk(cfg, t)
    ensures var (t', r) := Process(cfg, t, m, at);
            (m.kind == Discover ==> m.requestedIp == UNSPECIFIED) ==>
              && TableOk(cfg, t') && (forall mac, ip :: Held(t, mac, ip) ==> Held(t', mac, ip))
              && (r.Some? ==> r.value.xid == m.xid && (r.value.kind == Offer ==> Held(t', m.chaddr, r.value.yiaddr)))
  {
    hide OnDiscover, OnRequest, TableOk, Held;
    if m.op == BootRequest && m.kind == Discover && m.requestedIp == UNSPECIFIED {
      DiscoverKeepsTable(cfg, t, m, at);
    } else if m.op == BootRequest && m.kind == Request {
      RequestKeepsTable(cfg, t, m, at);
    }
  }

  class DHCPServer {
    const cfg: Config
    var leased: Table

    constructor (cfg: Config)
      ensures this.cfg == cfg && leased == map[]
    {
      this.cfg, leased := cfg, map[];
    }

    /** Walks the table in the order of addresses. */
    method GetLeaseByMac(mac: Mac) returns (r: Option<Ip>)
      ensures r == LeaseByMac(leased, mac)
    {
      var rest := leased.Keys;
      while rest != {}
        invariant rest <= leased.Keys
        invariant forall k <- leased.Keys - rest :: leased[k].mac != mac
        invariant forall k <- leased.Keys - rest, j <- rest :: k <= j
        decreases rest
      {
        ghost var w := LeastExists(rest);
        var it :| it in rest && forall k <- rest :: it <= k;
        if leased[it].mac == mac {
          assert IsFirst(leased, mac, it);
          return Some(it);
        }
        assert forall k <- leased.Keys - (rest - {it}) :: k == it || k in leased.Keys - rest;
        rest := rest - {it};
      }
      r := None;
    }

    /** Without a request: none exactly if every address of the pool is leased, and otherwise the
        first one that is not. */
    method GetAvailableLease(requested: Ip) returns (r: Option<Ip>)
      modifies this
      ensures requested != UNSPECIFIED ==> r == Some(requested)
      ensures requested == UNSPECIFIED ==> (r == None <==> NoneFree(cfg, old(leased)))
      ensures requested == UNSPECIFIED && r.Some? ==>
                exists i: nat :: FirstFreeAt(cfg, old(leased), i) && r.value == PoolAddress(cfg, i)
      ensures r == Available(cfg, old(leased), requested)
      ensures r == None ==> leased == old(leased)
      ensures r.Some? ==> leased == old(leased)[r.value := Recycled(old(leased), r.value)]
    {
      FirstFreeExactly(cfg, leased);
      if requested != UNSPECIFIED {
        if requested in leased && !leased[requested].leased {
          return Some(requested);
        }
        leased := leased[requested := Lease(requested, 0, 0, 0.0, false)];
        return Some(requested);
      }
      var i := 0;
      while i < cfg.maxNumClients
        invariant 0 <= i <= cfg.maxNumClients
        invariant leased == old(leased) && FirstFree(cfg, leased, 0) == FirstFree(cfg, leased, i)
      {
        var ip := PoolAddress(cfg, i);
        if ip in leased {
          if !leased[ip].leased {
            return Some(ip);
          }
        } else {
          leased := leased[ip := Lease(ip, 0, 0, 0.0, false)];
          return Some(ip);
        }
        i := i + 1;
      }
      r := None;
    }

    method SendAck(ip: Ip, m: Message, now: real) returns (reply: Message)
      requires ip in leased
      modifies this
      ensures Confirm(cfg, old(leased), ip, m, now) == (leased, Some(reply))
    {
      leased := leased[ip := leased[ip].(xid := m.xid, leased := true)];
      var l := leased[ip];
      reply := Reply(cfg, Ack, l.xid, l.mac, l.ip);
      leased := leased[ip := l.(leaseTime := now)];
      assert leased == old(leased)[ip := leased[ip]];
    }

    /** A message as clients send it leaves the table in order and takes no address from anybody;
        an answer carries the transaction id of the message, and what is offered is on file for
        the client that asked. What the answer is, if there is one, and the only record that changes,
        is said by ServerLaw. A DISCOVER takes an address away exactly if it asks for one in the
        table and its client has none. */
    method ProcessDHCPMessage(m: Message, now: real) returns (reply: Option<Message>)
      modifies this
      ensures old(TableOk(cfg, leased)) && (m.kind == Discover ==> m.requestedIp == UNSPECIFIED) ==>
                TableOk(cfg, leased) && forall mac, ip :: Held(old(leased), mac, ip) ==> Held(leased, mac, ip)
      ensures old(TableOk(cfg, leased)) && (m.kind == Discover ==> m.requestedIp == UNSPECIFIED) && reply.Some? ==>
                reply.value.xid == m.xid && (reply.value.kind == Offer ==> Held(leased, m.chaddr, reply.value.yiaddr))
      ensures old(TableOk(cfg, leased)) && m.op == BootRequest && m.kind == Discover ==>
                (LosesAddress(old(leased), leased) <==>
                 m.requestedIp != UNSPECIFIED && m.requestedIp in old(leased) && LeaseByMac(old(leased), m.chaddr) == None)
      ensures old(TableOk(cfg, leased)) ==> ServerLaw(cfg, old(leased), m, now, leased, reply)
      ensures Process(cfg, old(leased), m, now) == (leased, reply)
    {
      ghost var t := leased;
      reply := Answer(m, now);
      if TableOk(cfg, t) {
        ProcessingKeepsTable(cfg, t, m, now);
        AnsweredByLaw(cfg, t, m, now);
        if m.op == BootRequest && m.kind == Discover {
          AddressLostExactlyWhen(cfg, t, m, now);
        }
      }
      hide TableOk, Held, LosesAddress, Process, ServerLaw;
    }

    /** The branches on operation and message type. */
    method Answer(m: Message, now: real) returns (reply: Option<Message>)
      modifies this
      ensures Process(cfg, old(leased), m, now) == (leased, reply)
    {
      reply := None;
      if m.op == BootRequest {
        if m.kind == Discover {
          var found := GetLeaseByMac(m.chaddr);
          if found == None {
            found := GetAvailableLease(m.requestedIp);
            if found.Some? {
              leased := leased[found.value := leased[found.value].(mac := m.chaddr, xid := m.xid, leased := true)];
            }
          } else {
            leased := leased[found.value := leased[found.value].(xid := m.xid)];
          }
          if found.Some? {
            var l := leased[found.value];
            reply := Some(Reply(cfg, Offer, l.xid, l.mac, l.ip));
            leased := leased[found.value := l.(leaseTime := now)];
            assert leased == old(leased)[found.value := leased[found.value]];
          }
        } else if m.kind == Request {
          reply := HandleRequest(m, now);
        }
      }
    }

    method HandleRequest(m: Message, now: real) returns (reply: Option<Message>)
      modifies this
      ensures OnRequest(cfg, old(leased), m, now) == (leased, reply)
    {
      reply := None;
      if m.serverId == cfg.ip {
        var found := GetLeaseByMac(m.chaddr);
        if found.Some? && leased[found.value].ip == m.requestedIp {
          var ack := SendAck(found.value, m, now);
          reply := Some(ack);
        } else {
          reply := Some(NakFor(cfg, m));
        }
      } else if m.ciaddr == UNSPECIFIED {
        if m.requestedIp in leased {
          if Masked(m.requestedIp, cfg.subnetMask) == Masked(leased[m.requestedIp].ip, cfg.subnetMask) {
            var ack := SendAck(m.requestedIp, m, now);
            reply := Some(ack);
          } else {
            reply := Some(NakFor(cfg, m));
          }
        }
      } else if m.ciaddr in leased {
        var ack := SendAck(m.ciaddr, m, now);
        reply := Some(ack);
      } else {
        reply := Some(NakFor(cfg, m));
      }
    }
  }
}
