/** The devices of GooseIed wired together. Each step of the whole site is one handler of one
    device; seen through alarm bits and frames in flight it is a step of GooseBits, so the
    results of GooseConvergence hold of the devices themselves. */
module GooseSystem {
  import opened Basics
  import opened GooseIed
  import opened GooseBits
  import opened GooseConvergence

  /** The configured devices. */
  datatype Site = Site(pc: Config, inter: Config, com: seq<Config>)
  {
    predicate ComOk(k: nat)
      requires k < |com|
    {
      && com[k].Valid() && com[k].generator && com[k].resolvable && com[k].iedType == Com
      && com[k].myAppId in inter.comAppIds && com[k].myAppId !in inter.pcAppIds
      && com[k].myAppId !in pc.interAppIds
      && inter.myAppId in com[k].interAppIds && pc.myAppId !in com[k].interAppIds
    }

    predicate Apart(j: nat, k: nat)
      requires j < |com| && k < |com|
    {
      com[j].myAppId !in com[k].interAppIds
    }

    /** Every device knows its partners: the interlocking device lists the others under the
        right role only, and they list it and nobody else as interlocking device. */
    ghost predicate Valid() {
      && pc.Valid() && pc.generator && pc.resolvable && pc.iedType == Pc
      && inter.Valid() && inter.generator && inter.resolvable && inter.iedType == Inter
      && pc.myAppId in inter.pcAppIds && pc.myAppId !in inter.comAppIds
      && inter.myAppId in pc.interAppIds
      && (forall k: nat :: k < |com| ==> ComOk(k))
      && (forall j: nat, k: nat :: j < |com| && k < |com| ==> Apart(j, k))
    }

    ghost function Cfg(d: Id): (c: Config)
      requires Valid() && Known(|com|, d)
      ensures c.Valid() && c.generator && c.resolvable
    {
      match d
      case P => pc
      case I => inter
      case C(k) => assert ComOk(k); com[k]
    }
  }

  datatype Sys = Sys(pc: Ied, inter: Ied, com: seq<Ied>, net: multiset<Packet>)
  {
    function Dev(d: Id): Ied
      requires Known(|com|, d)
    {
      match d case P => pc case I => inter case C(k) => com[k]
    }

    function SetDev(d: Id, r: Ied): Sys
      requires Known(|com|, d)
    {
      match d
      case P => this.(pc := r)
      case I => this.(inter := r)
      case C(k) => this.(com := com[k := r])
    }

    function Bits(): View {
      View(pc.alarm, inter.alarm, seq(|com|, k requires 0 <= k < |com| => com[k].alarm), net)
    }
  }

  // ---------------------------------------------------------------------------------
  // Steps

  datatype Happening =
    | Deliver(p: Packet, at: real)      // a frame in flight arrives
    | Retransmit(d: Id)                 // a device's timer goes off, START or NEXT
    | RaiseOrClear(at: real)            // the P&C device's alarm changes

  /** Device `d` goes to state `r`. If that made it send and the frame is addressed, it goes to all
      others; a frame to the unspecified address goes to nobody. */
  function Move(s: Sys, d: Id, r: Ied): (t: Sys)
    requires Known(|s.com|, d)
    ensures |t.com| == |s.com|
  {
    var u := s.SetDev(d, r);
    if r.out == s.Dev(d).out || !r.addressed then u else u.(net := u.net + Broadcast(|s.com|, d, r.alarm))
  }

  /** A frame as far as receivers look at it. */
  function FrameOf(c: Config, alarm: bool): Frame {
    Frame(c.myAppId, 0, 0, 0.0, alarm, true)
  }

  ghost predicate Formed(site: Site, s: Sys) {
    site.Valid() && |s.com| == |site.com| && Shaped(s.Bits())
  }

  ghost predicate CanHappen(site: Site, s: Sys, h: Happening)
    requires Formed(site, s)
  {
    match h
    case Deliver(p, _) => p in s.net
    case Retransmit(d) => Known(|s.com|, d) && s.Dev(d).timer.Some?
    case RaiseOrClear(_) => true
  }

  ghost function Next(site: Site, s: Sys, h: Happening): (t: Sys)
    requires Formed(site, s) && CanHappen(site, s, h)
    ensures |t.com| == |s.com|
  {
    match h
    case Deliver(p, at) =>
      assert p in s.Bits().net;
      Move(s.(net := s.net - multiset{p}), p.to,
           Receive(site.Cfg(p.to), s.Dev(p.to), FrameOf(site.Cfg(p.from), p.alarm), at))
    case Retransmit(d) => Move(s, d, Fire(site.Cfg(d), s.Dev(d)))
    case RaiseOrClear(at) => Move(s, P, SetAlarm(site.pc, s.pc, at))
  }

  function ActOf(h: Happening): Act {
    match h
    case Deliver(p, _) => Arrive(p)
    case Retransmit(d) => Repeat(d)
    case RaiseOrClear(_) => FlipPc
  }

  /** Whether the step makes device `d` send by itself, without its timer, before it has handled its
      START: an alarm change, or an arrival that it reacts to. */
  ghost predicate TooEarly(site: Site, s: Sys, h: Happening, d: Id)
    requires Formed(site, s) && CanHappen(site, s, h) && Known(|s.com|, d)
  {
    match h
    case Deliver(p, _) => Inside(s, p); d == p.to && RoleReaction(d, p.from, p.alarm != s.Dev(d).alarm) != Ignore && !s.Dev(d).addressed
    case Retransmit(_) => false
    case RaiseOrClear(_) => d == P && !s.pc.addressed
  }

  lemma Inside(s: Sys, p: Packet)
    requires Shaped(s.Bits()) && p in s.net
    ensures Known(|s.com|, p.to) && Known(|s.com|, p.from) && p.to != p.from
  {
    assert p in s.Bits().net;
  }

  ghost predicate InTime(site: Site, s: Sys, h: Happening)
    requires Formed(site, s) && CanHappen(site, s, h)
  {
    forall d :: Known(|s.com|, d) ==> !TooEarly(site, s, h, d)
  }

  /** A timer that is pending is a START or that of a device that has handled its own. */
  predicate Tuned(r: Ied) {
    r.timer.Some? ==> r.starting || r.addressed
  }

  /** What holds as long as every device sends in time. */
  ghost predicate Wired(site: Site, s: Sys) {
    Formed(site, s) && Inv(s.Bits()) && forall d :: Known(|s.com|, d) ==> Tuned(s.Dev(d))
  }

  // ---------------------------------------------------------------------------------
  // A delivery in terms of roles

  /** Receivers look at the application id and the alarm bit of a frame only. */
  lemma OnlyIdAndBitMatter(c: Config, s: Ied, f: Frame, now: real)
    requires c.Valid()
    ensures Receive(c, s, f, now) == Receive(c, s, Frame(f.appId, 0, 0, 0.0, f.alarm, true), now)
  {
  }

  /** The scan over both id lists depends on membership only when no id is in both. */
  lemma {:induction false} ScanByMembership(c: Config, appId: nat, i: nat)
    requires c.Valid() && i <= 3
    ensures appId !in c.comAppIds ==>
              InterReaction(c, appId, i) == if appId in c.pcAppIds[i..] then Toggle else Ignore
    ensures appId !in c.pcAppIds ==>
              InterReaction(c, appId, i) == if appId in c.comAppIds[i..] then Resend else Ignore
    decreases 3 - i
  {
    if i == 3 {
    } else {
      ScanByMembership(c, appId, i + 1);
      assert c.pcAppIds[i..] == [c.pcAppIds[i]] + c.pcAppIds[i + 1..];
      assert c.comAppIds[i..] == [c.comAppIds[i]] + c.comAppIds[i + 1..];
    }
  }

  lemma ReactionByRole(site: Site, s: Ied, to: Id, from: Id, alarm: bool)
    requires site.Valid() && Known(|site.com|, to) && Known(|site.com|, from) && to != from
    ensures ReactionTo(site.Cfg(to), s, FrameOf(site.Cfg(from), alarm)) == RoleReaction(to, from, alarm != s.alarm)
  {
    if to.C? {
      assert site.ComOk(to.k);
    }
    if from.C? {
      assert site.ComOk(from.k);
    }
    if to.C? && from.C? {
      assert site.Apart(from.k, to.k);
    }
    if to == I {
      assert site.inter.pcAppIds[0..] == site.inter.pcAppIds && site.inter.comAppIds[0..] == site.inter.comAppIds;
      ScanByMembership(site.inter, site.Cfg(from).myAppId, 0);
    }
  }

  lemma BurstSends(c: Config, s: Ied, now: real)
    ensures var r := Burst(c, s, now); |r.out| == |s.out| + 1 && r.alarm == s.alarm && r.addressed == s.addressed && !r.starting
  {
  }

  lemma SetAlarmFlips(c: Config, s: Ied, now: real)
    requires c.generator
    ensures var r := SetAlarm(c, s, now);
            r.alarm == !s.alarm && |r.out| == |s.out| + 1 && r.addressed == s.addressed && !r.starting
  {
    BurstSends(c, s.(alarm := !s.alarm, stNum := (s.stNum + 1) % 0x1_0000_0000), now);
  }

  lemma FireSends(c: Config, s: Ied)
    requires s.timer.Some? && c.resolvable
    ensures var r := Fire(c, s);
            |r.out| == |s.out| + 1 && r.alarm == s.alarm && !r.starting && r.addressed == (s.starting || s.addressed)
  {
  }

  /** A delivered frame makes its receiver toggle, resend or ignore it by the two roles. */
  lemma ReceiptByRole(site: Site, s: Ied, to: Id, from: Id, alarm: bool, at: real)
    requires site.Valid() && Known(|site.com|, to) && Known(|site.com|, from) && to != from
    ensures var c := site.Cfg(to);
            var r := Receive(c, s, FrameOf(site.Cfg(from), alarm), at);
            match RoleReaction(to, from, alarm != s.alarm)
            case Ignore => r == s
            case Toggle => r.alarm == alarm && |r.out| == |s.out| + 1 && r.addressed == s.addressed && !r.starting
            case Resend => r.alarm == s.alarm && |r.out| == |s.out| + 1 && r.addressed == s.addressed && !r.starting
  {
    ReactionByRole(site, s, to, from, alarm);
    var c := site.Cfg(to);
    match RoleReaction(to, from, alarm != s.alarm)
    case Ignore =>
    case Toggle => SetAlarmFlips(c, s, at);
    case Resend => BurstSends(c, s, at);
  }

  // ---------------------------------------------------------------------------------
  // Devices refine bits

  lemma MoveBits(s: Sys, d: Id, r: Ied)
    requires Known(|s.com|, d)
    ensures var v := SetBit(s.Bits(), d, r.alarm);
            Move(s, d, r).Bits() == if r.out == s.Dev(d).out || !r.addressed then v else Say(v, d)
  {
    var t := Move(s, d, r);
    assert t.Bits().com == SetBit(s.Bits(), d, r.alarm).com;
  }

  lemma MoveFormed(site: Site, s: Sys, d: Id, r: Ied)
    requires Formed(site, s) && Known(|s.com|, d)
    ensures Formed(site, Move(s, d, r))
  {
    MoveBits(s, d, r);
    var t := Move(s, d, r);
    forall q | q in t.Bits().net ensures Known(|s.com|, q.from) && Known(|s.com|, q.to) && q.from != q.to {
      SayCount(SetBit(s.Bits(), d, r.alarm), d, q);
      assert q in s.Bits().net || q.from == d;
    }
  }

  lemma NextFormed(site: Site, s: Sys, h: Happening)
    requires Formed(site, s) && CanHappen(site, s, h)
    ensures Formed(site, Next(site, s, h))
  {
    match h
    case Deliver(p, at) =>
      Inside(s, p);
      var u := s.(net := s.net - multiset{p});
      assert u.Bits().net == s.Bits().net - multiset{p};
      MoveFormed(site, u, p.to, Receive(site.Cfg(p.to), s.Dev(p.to), FrameOf(site.Cfg(p.from), p.alarm), at));
    case Retransmit(d) => MoveFormed(site, s, d, Fire(site.Cfg(d), s.Dev(d)));
    case RaiseOrClear(at) => MoveFormed(site, s, P, SetAlarm(site.pc, s.pc, at));
  }

  lemma KeepBit(v: View, d: Id)
    requires Known(|v.com|, d)
    ensures SetBit(v, d, Bit(v, d)) == v
  {
  }

  lemma StepAsMove(v: View, p: Packet, b: bool, sent: bool)
    requires Possible(v, Arrive(p))
    requires match RoleReaction(p.to, p.from, p.alarm != Bit(v, p.to))
             case Ignore => b == Bit(v, p.to) && !sent
             case Toggle => b == p.alarm && sent
             case Resend => b == Bit(v, p.to) && sent
    ensures var w := SetBit(v.(net := v.net - multiset{p}), p.to, b);
            Step(v, Arrive(p)) == if sent then Say(w, p.to) else w
  {
    KeepBit(v.(net := v.net - multiset{p}), p.to);
  }

  lemma DeliverBits(site: Site, s: Sys, p: Packet, at: real)
    requires Wired(site, s) && p in s.net && InTime(site, s, Deliver(p, at))
    ensures Possible(s.Bits(), Arrive(p))
    ensures Next(site, s, Deliver(p, at)).Bits() == Step(s.Bits(), Arrive(p))
  {
    var v := s.Bits();
    assert p in v.net;
    Inside(s, p);
    var d := s.Dev(p.to);
    var r := Receive(site.Cfg(p.to), d, FrameOf(site.Cfg(p.from), p.alarm), at);
    ReceiptByRole(site, d, p.to, p.from, p.alarm, at);
    assert !TooEarly(site, s, Deliver(p, at), p.to);
    StepAsMove(v, p, r.alarm, r.out != d.out);
    var u := s.(net := s.net - multiset{p});
    MoveBits(u, p.to, r);
    assert u.Bits() == v.(net := v.net - multiset{p});
  }

  lemma OwnStepBits(site: Site, s: Sys, h: Happening)
    requires Wired(site, s) && CanHappen(site, s, h) && InTime(site, s, h) && !h.Deliver?
    ensures Possible(s.Bits(), ActOf(h)) && Next(site, s, h).Bits() == Step(s.Bits(), ActOf(h))
  {
    match h {
      case Retransmit(d) =>
        FireSends(site.Cfg(d), s.Dev(d));
        MoveBits(s, d, Fire(site.Cfg(d), s.Dev(d)));
        KeepBit(s.Bits(), d);
      case RaiseOrClear(at) =>
        assert !TooEarly(site, s, h, P);
        SetAlarmFlips(site.pc, s.pc, at);
        MoveBits(s, P, SetAlarm(site.pc, s.pc, at));
    }
  }

  lemma MoveTuned(s: Sys, d: Id, r: Ied)
    requires Known(|s.com|, d) && Tuned(r) && forall e :: Known(|s.com|, e) ==> Tuned(s.Dev(e))
    ensures forall e :: Known(|s.com|, e) ==> Tuned(Move(s, d, r).Dev(e))
  {
  }

  lemma StaysTuned(site: Site, s: Sys, h: Happening)
    requires Wired(site, s) && CanHappen(site, s, h) && InTime(site, s, h)
    ensures forall d :: Known(|s.com|, d) ==> Tuned(Next(site, s, h).Dev(d))
  {
    match h
    case Deliver(p, at) =>
      Inside(s, p);
      ReceiptByRole(site, s.Dev(p.to), p.to, p.from, p.alarm, at);
      assert !TooEarly(site, s, h, p.to);
      MoveTuned(s.(net := s.net - multiset{p}), p.to,
                Receive(site.Cfg(p.to), s.Dev(p.to), FrameOf(site.Cfg(p.from), p.alarm), at));
    case Retransmit(d) =>
      FireSends(site.Cfg(d), s.Dev(d));
      MoveTuned(s, d, Fire(site.Cfg(d), s.Dev(d)));
    case RaiseOrClear(at) =>
      assert !TooEarly(site, s, h, P);
      SetAlarmFlips(site.pc, s.pc, at);
      MoveTuned(s, P, SetAlarm(site.pc, s.pc, at));
  }

  /** Every step of the devices in which none sends too early is the corresponding step of the bits. */
  lemma NextRefinesStep(site: Site, s: Sys, h: Happening)
    requires Wired(site, s) && CanHappen(site, s, h) && InTime(site, s, h)
    ensures Possible(s.Bits(), ActOf(h)) && Next(site, s, h).Bits() == Step(s.Bits(), ActOf(h))
    ensures Wired(site, Next(site, s, h))
  {
    NextFormed(site, s, h);
    StaysTuned(site, s, h);
    if h.Deliver? {
      DeliverBits(site, s, h.p, h.at);
    } else {
      OwnStepBits(site, s, h);
    }
    StepKeepsInv(s.Bits(), ActOf(h));
  }

  lemma MoveStarted(s: Sys, d: Id, r: Ied)
    requires Known(|s.com|, d) && r.addressed && forall e :: Known(|s.com|, e) ==> s.Dev(e).addressed
    ensures forall e :: Known(|s.com|, e) ==> Move(s, d, r).Dev(e).addressed
  {
  }

  /** Once every device has handled its START, none can send too early any more. */
  lemma StartedSendInTime(site: Site, s: Sys, h: Happening)
    requires Formed(site, s) && CanHappen(site, s, h) && forall d :: Known(|s.com|, d) ==> s.Dev(d).addressed
    ensures InTime(site, s, h) && forall d :: Known(|s.com|, d) ==> Next(site, s, h).Dev(d).addressed
  {
    hide Move, Fire, SetAlarm, Receive, Sys.Bits, Shaped;
    match h
    case Deliver(p, at) =>
      Inside(s, p);
      ReceiptByRole(site, s.Dev(p.to), p.to, p.from, p.alarm, at);
      var u := s.(net := s.net - multiset{p});
      assert forall e :: Known(|s.com|, e) ==> u.Dev(e) == s.Dev(e);
      MoveStarted(u, p.to,
                  Receive(site.Cfg(p.to), s.Dev(p.to), FrameOf(site.Cfg(p.from), p.alarm), at));
    case Retransmit(d) =>
      FireSends(site.Cfg(d), s.Dev(d));
      MoveStarted(s, d, Fire(site.Cfg(d), s.Dev(d)));
    case RaiseOrClear(at) =>
      SetAlarmFlips(site.pc, s.pc, at);
      assert s.Dev(P).addressed;
      MoveStarted(s, P, SetAlarm(site.pc, s.pc, at));
  }

  // ---------------------------------------------------------------------------------
  // Runs of the site

  /** All devices have been initialized at time zero. */
  ghost function Initial(site: Site): (s: Sys)
    requires site.Valid()
    ensures Wired(site, s)
  {
    Sys(Schedule(site.pc, Boot(site.pc), 0.0, true), Schedule(site.inter, Boot(site.inter), 0.0, true),
        seq(|site.com|, k requires 0 <= k < |site.com| => Schedule(site.com[k], Boot(site.com[k]), 0.0, true)), multiset{})
  }

  ghost predicate Legal(site: Site, s: Sys, hs: seq<Happening>)
    requires Formed(site, s)
    decreases |hs|
  {
    hs == [] || (CanHappen(site, s, hs[0]) &&
                 (NextFormed(site, s, hs[0]); Legal(site, Next(site, s, hs[0]), hs[1..])))
  }

  ghost function Final(site: Site, s: Sys, hs: seq<Happening>): (t: Sys)
    requires Formed(site, s) && Legal(site, s, hs)
    ensures Formed(site, t)
    decreases |hs|
  {
    if hs == [] then s
    else NextFormed(site, s, hs[0]); Final(site, Next(site, s, hs[0]), hs[1..])
  }

  /** No step of the run makes device `d` send too early. */
  ghost predicate NeverEarly(site: Site, s: Sys, hs: seq<Happening>, d: Id)
    requires Formed(site, s) && Legal(site, s, hs) && Known(|s.com|, d)
    decreases |hs|
  {
    hs == [] || (!TooEarly(site, s, hs[0], d) &&
                 (NextFormed(site, s, hs[0]); NeverEarly(site, Next(site, s, hs[0]), hs[1..], d)))
  }

  ghost predicate AllDevicesHold(s: Sys, b: bool) {
    forall d :: Known(|s.com|, d) ==> s.Dev(d).alarm == b
  }

  lemma {:induction false} InTimeRunIsWired(site: Site, s: Sys, hs: seq<Happening>)
    requires Wired(site, s) && Legal(site, s, hs) && forall d :: Known(|s.com|, d) ==> NeverEarly(site, s, hs, d)
    ensures Wired(site, Final(site, s, hs))
    decreases |hs|
  {
    if hs != [] {
      assert InTime(site, s, hs[0]);
      NextRefinesStep(site, s, hs[0]);
      InTimeRunIsWired(site, Next(site, s, hs[0]), hs[1..]);
    }
  }

  /** Whatever happened since the devices were initialized, alarm changes, retransmissions and
      reordering included, as long as every device handled its START before an alarm or a
      correction made it send: whenever no frame is in flight, all devices hold the P&C device's
      alarm state. */
  lemma AgreementAtRest(site: Site, hs: seq<Happening>)
    requires site.Valid() && Legal(site, Initial(site), hs)
    requires forall d :: Known(|site.com|, d) ==> NeverEarly(site, Initial(site), hs, d)
    ensures var t := Final(site, Initial(site), hs);
            t.net == multiset{} ==> AllDevicesHold(t, t.pc.alarm)
  {
    InTimeRunIsWired(site, Initial(site), hs);
    var t := Final(site, Initial(site), hs);
    if t.net == multiset{} {
      RestMeansAgreement(t.Bits());
      BitsOfDevices(t, t.pc.alarm);
    }
  }

  lemma BitsOfDevices(s: Sys, b: bool)
    ensures AllHold(s.Bits(), b) ==> AllDevicesHold(s, b)
  {
    if AllHold(s.Bits(), b) {
      forall d | Known(|s.com|, d) ensures s.Dev(d).alarm == b {
        if d.C? {
          assert s.Bits().com[d.k] == b;
        }
      }
    }
  }

  /** A step in which no device sends too early. */
  ghost predicate StepsTo(site: Site, s: Sys, t: Sys, h: Happening) {
    Wired(site, s) && CanHappen(site, s, h) && InTime(site, s, h) && t == Next(site, s, h)
  }

  ghost predicate Delivers(site: Site, s: Sys, t: Sys, p: Packet) {
    exists at: real :: StepsTo(site, s, t, Deliver(p, at))
  }

  lemma DeliversBits(site: Site, s: Sys, t: Sys, p: Packet)
    requires Delivers(site, s, t, p)
    ensures StepsBy(s.Bits(), t.Bits(), Arrive(p))
  {
    var at: real :| StepsTo(site, s, t, Deliver(p, at));
    NextRefinesStep(site, s, Deliver(p, at));
  }

  /** Some frame in flight is delivered, if there is one. */
  ghost predicate Reacts(site: Site, s: Sys, t: Sys) {
    s.net != multiset{} ==> exists p :: Delivers(site, s, t, p)
  }

  ghost predicate ReactsAt(site: Site, run: nat -> Sys, k: nat) {
    Reacts(site, run(k), run(k + 1))
  }

  /** From any state reached in time on, let the devices only react to frames, and in time. In
      whatever order the network delivers, after finitely many deliveries no frame is left, and every device
      then holds the alarm state the P&C device had at the start. */
  lemma CorrectionsDieOut(site: Site, run: nat -> Sys, from: nat) returns (m: nat)
    requires Wired(site, run(from)) && forall k: nat :: k >= from ==> ReactsAt(site, run, k)
    ensures m >= from && run(m).net == multiset{} && AllDevicesHold(run(m), run(from).pc.alarm)
  {
    var bits := (k: nat) => run(k).Bits();
    forall k: nat | k >= from ensures CascadeAt(bits, k) {
      assert ReactsAt(site, run, k);
      if run(k).net != multiset{} {
        var p :| Delivers(site, run(k), run(k + 1), p);
        DeliversBits(site, run(k), run(k + 1), p);
        assert StepsBy(bits(k), bits(k + 1), Arrive(p));
      }
    }
    m := CascadeIsFinite(bits, from);
    BitsOfDevices(run(m), run(from).pc.alarm);
  }

  ghost predicate QuietPcStep(site: Site, s: Sys, t: Sys) {
    s == t || exists h: Happening :: !h.RaiseOrClear? && StepsTo(site, s, t, h)
  }

  lemma QuietPcStepBits(site: Site, s: Sys, t: Sys)
    requires QuietPcStep(site, s, t)
    ensures SteadyStep(s.Bits(), t.Bits())
  {
    if s == t {
      assert SteadyBy(s.Bits(), t.Bits(), Rest);
    } else {
      var h: Happening :| !h.RaiseOrClear? && StepsTo(site, s, t, h);
      NextRefinesStep(site, s, h);
      assert SteadyBy(s.Bits(), t.Bits(), ActOf(h));
    }
  }

  ghost predicate QuietPcAt(site: Site, run: nat -> Sys, k: nat) {
    QuietPcStep(site, run(k), run(k + 1))
  }

  /** Every frame in flight at moment k is delivered at that moment or later. */
  ghost predicate LosslessAt(site: Site, run: nat -> Sys, k: nat) {
    forall p :: p in run(k).net ==> ArrivesSomeDay(site, run, k, p)
  }

  ghost predicate ArrivesSomeDay(site: Site, run: nat -> Sys, k: nat, p: Packet) {
    exists m: nat :: m >= k && Delivers(site, run(m), run(m + 1), p)
  }

  lemma ArrivalBits(site: Site, run: nat -> Sys, bits: nat -> View, k: nat, p: Packet)
    requires ArrivesSomeDay(site, run, k, p) && forall j: nat :: bits(j) == run(j).Bits()
    ensures DeliveredSomeDay(bits, k, p)
  {
    hide Delivers, StepsBy, Sys.Bits;
    var m: nat :| m >= k && Delivers(site, run(m), run(m + 1), p);
    var s, t, v, w := run(m), run(m + 1), bits(m), bits(m + 1);
    assert v == s.Bits() && w == t.Bits();
    DeliversBits(site, s, t, p);
    assert StepsBy(v, w, Arrive(p));
  }

  lemma LosslessBits(site: Site, run: nat -> Sys, bits: nat -> View, k: nat)
    requires LosslessAt(site, run, k) && forall j: nat :: bits(j) == run(j).Bits()
    ensures FairAt(bits, k)
  {
    forall p | p in bits(k).net ensures DeliveredSomeDay(bits, k, p) {
      ArrivalBits(site, run, bits, k, p);
    }
  }

  /** Convergence. Once the P&C device's alarm stops changing, then if every device sends in time, with retransmissions going
      on for ever and no frame lost, from some moment on all devices hold its alarm state. */
  lemma DevicesConverge(site: Site, run: nat -> Sys) returns (m: nat)
    requires Wired(site, run(0))
    requires forall k: nat :: QuietPcAt(site, run, k) && LosslessAt(site, run, k)
    ensures forall k: nat :: k >= m ==> AllDevicesHold(run(k), run(0).pc.alarm)
  {
    var bits := (k: nat) => run(k).Bits();
    forall k: nat ensures SteadyAt(bits, k) && FairAt(bits, k) {
      assert QuietPcAt(site, run, k) && LosslessAt(site, run, k);
      QuietPcStepBits(site, run(k), run(k + 1));
      LosslessBits(site, run, bits, k);
    }
    m := EventuallyAllFollow(bits);
    forall k: nat | k >= m ensures AllDevicesHold(run(k), run(0).pc.alarm) {
      assert AllHold(bits(k), bits(0).pc);
      BitsOfDevices(run(k), run(0).pc.alarm);
    }
  }
}
