/** What comes of a P&C device whose alarm changes before it has handled its START: nobody ever
    hears of it. */
module GooseStart {
  import opened Basics
  import opened GooseIed
  import opened GooseBits
  import opened GooseConvergence
  import opened GooseSystem

  /** As long as the P&C device is not heard, nobody has any reason to leave the initial state. */
  ghost predicate Unheard(s: Sys) {
    !s.pc.addressed ==>
      && (forall d :: Known(|s.com|, d) && d != P ==> !s.Dev(d).alarm)
      && (forall p <- s.net :: !p.alarm && p.from != P)
  }

  /** The P&C device has sent and has no START pending, and so never looks up its destination. */
  predicate Mute(s: Sys) {
    !s.pc.addressed && !s.pc.starting
  }

  lemma MoveUnheard(s: Sys, d: Id, r: Ied)
    requires Known(|s.com|, d) && Unheard(s)
    requires d != P ==> !s.pc.addressed ==> !r.alarm
    requires d == P ==> s.pc.addressed ==> r.addressed
    ensures Unheard(Move(s, d, r))
  {
    var t := Move(s, d, r);
    if !t.pc.addressed {
      forall p | p in t.net ensures !p.alarm && p.from != P {
        BroadcastCount(|s.com|, d, r.alarm, p);
        assert t.net[p] > 0;
      }
      forall e | Known(|t.com|, e) && e != P ensures !t.Dev(e).alarm {
        assert e != d ==> t.Dev(e) == s.Dev(e);
      }
    }
  }

  /** Nothing but a START of the P&C device changes that, early or not. */
  lemma StaysUnheard(site: Site, s: Sys, h: Happening)
    requires Formed(site, s) && CanHappen(site, s, h) && Unheard(s)
    ensures Unheard(Next(site, s, h)) && (Mute(s) ==> Mute(Next(site, s, h)))
  {
    match h
    case Deliver(p, at) =>
      Inside(s, p);
      ReceiptByRole(site, s.Dev(p.to), p.to, p.from, p.alarm, at);
      MoveUnheard(s.(net := s.net - multiset{p}), p.to,
                  Receive(site.Cfg(p.to), s.Dev(p.to), FrameOf(site.Cfg(p.from), p.alarm), at));
    case Retransmit(d) =>
      FireSends(site.Cfg(d), s.Dev(d));
      MoveUnheard(s, d, Fire(site.Cfg(d), s.Dev(d)));
    case RaiseOrClear(at) =>
      SetAlarmFlips(site.pc, s.pc, at);
      MoveUnheard(s, P, SetAlarm(site.pc, s.pc, at));
  }

  /** Sending too early makes the P&C device mute. */
  lemma TooEarlyIsMute(site: Site, s: Sys, h: Happening)
    requires Formed(site, s) && CanHappen(site, s, h) && TooEarly(site, s, h, P)
    ensures Mute(Next(site, s, h))
  {
    match h
    case Deliver(p, at) =>
      Inside(s, p);
      ReceiptByRole(site, s.pc, p.to, p.from, p.alarm, at);
    case RaiseOrClear(at) => SetAlarmFlips(site.pc, s.pc, at);
    case Retransmit(_) =>
  }

  lemma {:induction false} RunStaysUnheard(site: Site, s: Sys, hs: seq<Happening>)
    requires Formed(site, s) && GooseSystem.Legal(site, s, hs) && Unheard(s)
    ensures var t := GooseSystem.Final(site, s, hs);
            Unheard(t) && (Mute(s) || !NeverEarly(site, s, hs, P) ==> Mute(t))
    decreases |hs|
  {
    if hs != [] {
      NextFormed(site, s, hs[0]);
      StaysUnheard(site, s, hs[0]);
      if TooEarly(site, s, hs[0], P) {
        TooEarlyIsMute(site, s, hs[0]);
      }
      RunStaysUnheard(site, Next(site, s, hs[0]), hs[1..]);
    }
  }

  /** A mute P&C device is never followed: in every run from there on the others stay as they were
      at first, so all agree only while its alarm is off. */
  lemma MuteIsNeverFollowed(site: Site, s: Sys, hs: seq<Happening>)
    requires Formed(site, s) && GooseSystem.Legal(site, s, hs) && Unheard(s) && Mute(s)
    ensures var t := GooseSystem.Final(site, s, hs);
            && Mute(t) && (AllDevicesHold(t, t.pc.alarm) <==> !t.pc.alarm)
            && forall d :: Known(|t.com|, d) && d != P ==> !t.Dev(d).alarm
  {
    RunStaysUnheard(site, s, hs);
    var t := GooseSystem.Final(site, s, hs);
    assert t.Dev(I) == t.inter && t.Dev(P) == t.pc;
  }

  lemma InitialIsUnheard(site: Site)
    requires site.Valid()
    ensures Unheard(Initial(site))
  {
  }

  /** In every run in which the other devices send in time: when no frame is in flight, all devices
      hold the P&C device's alarm state exactly if that is off or the P&C device never sent too early. */
  lemma AgreementAtRestExactlyWhen(site: Site, hs: seq<Happening>)
    requires site.Valid() && GooseSystem.Legal(site, Initial(site), hs)
    requires forall d :: Known(|site.com|, d) && d != P ==> NeverEarly(site, Initial(site), hs, d)
    ensures var t := GooseSystem.Final(site, Initial(site), hs);
            t.net == multiset{} ==>
              (AllDevicesHold(t, t.pc.alarm) <==> !t.pc.alarm || NeverEarly(site, Initial(site), hs, P))
  {
    var t := GooseSystem.Final(site, Initial(site), hs);
    if NeverEarly(site, Initial(site), hs, P) {
      AgreementAtRest(site, hs);
    } else {
      InitialIsUnheard(site);
      RunStaysUnheard(site, Initial(site), hs);
      assert t.Dev(I) == t.inter && t.Dev(P) == t.pc;
    }
  }

  /** The failure at its simplest: an alarm before the start time. No frame is in flight then, and
      the P&C device and the interlocking device disagree. */
  lemma EarlyAlarmIsLost(site: Site, at: real)
    requires site.Valid() && site.pc.stopTime < 0.0 && 0.0 <= at < site.pc.startTime
    ensures var s := Initial(site); var hs := [RaiseOrClear(at)];
            && s.pc.timer == Some(site.pc.startTime) && s.pc.starting && GooseSystem.Legal(site, s, hs)
            && var t := GooseSystem.Final(site, s, hs); t.net == multiset{} && t.pc.alarm && !t.inter.alarm && Mute(t)
  {
    var s := Initial(site);
    NextFormed(site, s, RaiseOrClear(at));
    SetAlarmFlips(site.pc, s.pc, at);
    assert [RaiseOrClear(at)][1..] == [];
    assert !s.pc.addressed;
  }
}
