/** One GOOSE device: the state that EtherAppGoose keeps, what each handler does to it,
    and the timing of its retransmissions. Times and intervals are exact reals. */
module GooseIed {
  import opened Basics

  datatype IedType = Pc | Inter | Com | OtherType

  /** Module parameters. `startTime` and `stopTime` are in seconds, a negative stop time
      meaning forever; `generator` says whether a destination address was given, and `resolvable`
      whether looking it up yields one that is not the unspecified address. */
  datatype Config = Config(
    iedType: IedType, myAppId: nat,
    pcAppIds: seq<int>, interAppIds: seq<int>, comAppIds: seq<int>,
    sInterval: real, startTime: real, stopTime: real, generator: bool, resolvable: bool)
  {
    predicate Valid() {
      && myAppId < 0x1_0000
      && |pcAppIds| == 3 && |interAppIds| == 2 && |comAppIds| == 3
      && sInterval > 0.0
    }
  }

  /** The fields of a frame that the protocol depends on. `ttl` is the value in
      milliseconds before it is cut down to an integer. A frame that is not `addressed` goes to the
      unspecified address, and no other device accepts it. */
  datatype Frame = Frame(appId: nat, stNum: nat, sqNum: int, ttl: real, alarm: bool, addressed: bool)

  /** The state of one device: `starting` is the kind of its timer message, START or NEXT,
      `addressed` says whether it has looked up its destination, and `out` lists the frames it
      sent, oldest first. */
  datatype Ied = Ied(
    alarm: bool, stNum: nat, sqNum: int, interval: real, timer: Option<real>, starting: bool, addressed: bool, out: seq<Frame>)

  // ---------------------------------------------------------------------------------
  // What the handlers do, as functions on that state

  function Boot(c: Config): Ied {
    Ied(false, 1, 0, c.sInterval, None, false, false, [])
  }

  function FrameFrom(c: Config, s: Ied): Frame {
    Frame(c.myAppId, s.stNum, s.sqNum, 1000.0 * s.interval, s.alarm, s.addressed)
  }

  function Send(c: Config, s: Ied): Ied {
    var s1 := s.(sqNum := s.sqNum + 1);
    s1.(out := s1.out + [FrameFrom(c, s1)])
  }

  function Schedule(c: Config, s: Ied, now: real, start: bool): Ied {
    var next := if start then (if now <= c.startTime then c.startTime else now) else now + s.interval;
    if c.stopTime < 0.0 || next < c.stopTime then
      s.(timer := Some(next), interval := if s.interval < c.sInterval then s.interval * 2.0 else s.interval, starting := start)
    else s.(starting := start)
  }

  /** Send at once and restart the retransmission pattern from its shortest gap. */
  function Burst(c: Config, s: Ied, now: real): Ied {
    Schedule(c, Send(c, s.(timer := None, interval := c.sInterval / 32.0)), now, false)
  }

  function SetAlarm(c: Config, s: Ied, now: real): Ied {
    if !c.generator then s
    else Burst(c, s.(alarm := !s.alarm, stNum := (s.stNum + 1) % 0x1_0000_0000), now)
  }

  /** The timer goes off. Only a START looks up the destination; without one the device gives up. */
  function Fire(c: Config, s: Ied): Ied
    requires s.timer.Some?
  {
    var s1 := s.(timer := None, addressed := if s.starting then c.resolvable else s.addressed);
    if s.starting && !c.resolvable then s1 else Schedule(c, Send(c, s1), s.timer.value, false)
  }

  datatype Reaction = Ignore | Toggle | Resend

  /** Which of the three reactions the scan over the configured application ids selects
      at the first index where an id matches, looking from index `i` on. */
  function InterReaction(c: Config, appId: nat, i: nat): Reaction
    requires c.Valid() && i <= 3
    decreases 3 - i
  {
    if i == 3 then Ignore
    else if appId == c.pcAppIds[i] then Toggle
    else if appId == c.comAppIds[i] then Resend
    else InterReaction(c, appId, i + 1)
  }

  function ReactionTo(c: Config, s: Ied, f: Frame): Reaction
    requires c.Valid()
  {
    if !c.generator || f.alarm == s.alarm then Ignore
    else match c.iedType
      case Inter => InterReaction(c, f.appId, 0)
      case Com => if f.appId in c.interAppIds then Toggle else Ignore
      case Pc => if f.appId in c.interAppIds then Resend else Ignore
      case OtherType => Ignore
  }

  /** The first index at which an interlocking device lists the id. */
  predicate FirstAt(c: Config, appId: nat, i: nat)
    requires c.Valid()
  {
    && i < 3 && (c.pcAppIds[i] == appId || c.comAppIds[i] == appId)
    && forall j: nat | j < i :: c.pcAppIds[j] != appId && c.comAppIds[j] != appId
  }

  /** What a mismatching frame with this id makes the device do. An interlocking device follows the
      senders it lists as P&C devices and contradicts command devices, by the first index that
      matches and the former at the same index; a command device follows interlocking devices, and
      a P&C device contradicts them. */
  predicate ReactsAs(c: Config, appId: nat, r: Reaction)
    requires c.Valid()
  {
    match c.iedType
    case Inter =>
      (match r
       case Ignore => appId as int !in c.pcAppIds && appId as int !in c.comAppIds
       case Toggle => exists i: nat | i < 3 :: FirstAt(c, appId, i) && c.pcAppIds[i] == appId
       case Resend => exists i: nat | i < 3 :: FirstAt(c, appId, i) && c.pcAppIds[i] != appId)
    case Com => r == if appId as int in c.interAppIds then Toggle else Ignore
    case Pc => r == if appId as int in c.interAppIds then Resend else Ignore
    case OtherType => r == Ignore
  }

  lemma {:induction false} ScanReactsAs(c: Config, appId: nat, i: nat)
    requires c.Valid() && i <= 3 && forall j: nat | j < i :: c.pcAppIds[j] != appId && c.comAppIds[j] != appId
    ensures c.iedType == Inter ==> ReactsAs(c, appId, InterReaction(c, appId, i))
    decreases 3 - i
  {
    if i < 3 {
      if c.pcAppIds[i] == appId || c.comAppIds[i] == appId {
        assert FirstAt(c, appId, i);
      } else {
        ScanReactsAs(c, appId, i + 1);
      }
    }
  }

  /** A generator reacts to every frame whose alarm bit is not its own, and to no other, as said. */
  lemma ReactionIsRight(c: Config, s: Ied, f: Frame)
    requires c.Valid()
    ensures if c.generator && f.alarm != s.alarm then ReactsAs(c, f.appId, ReactionTo(c, s, f)) else ReactionTo(c, s, f) == Ignore
  {
    ScanReactsAs(c, f.appId, 0);
  }

  function Receive(c: Config, s: Ied, f: Frame, now: real): Ied
    requires c.Valid()
  {
    match ReactionTo(c, s, f)
    case Ignore => s
    case Toggle => SetAlarm(c, s, now)
    case Resend => Burst(c, s, now)
  }

  // ---------------------------------------------------------------------------------
  // The module itself

  class EtherAppGoose {
    const cfg: Config
    var alarmState: bool
    var stChng: nat
    var seqNum: int
    var sendInterval: real
    var timer: Option<real>
    var starting: bool
    var destKnown: bool
    var out: seq<Frame>

    ghost function View(): Ied
      reads this
    {
      Ied(alarmState, stChng, seqNum, sendInterval, timer, starting, destKnown, out)
    }

    constructor (c: Config)
      requires c.Valid()
      ensures cfg == c && View() == Boot(c)
    {
      cfg := c;
      alarmState, stChng, seqNum := false, 1, 0;
      sendInterval, timer, starting, destKnown, out := c.sInterval, None, false, false, [];
    }

    /** An event that is already scheduled may not be scheduled again. */
    method ScheduleNextPacket(now: real, start: bool)
      requires timer == None
      modifies this
      ensures timer.Some? && cfg.stopTime >= 0.0 ==> timer.value < cfg.stopTime
      ensures timer.Some? ==> if start then timer.value >= now && timer.value >= cfg.startTime && timer.value in {now, cfg.startTime}
                              else timer.value == now + old(sendInterval)
      ensures old(HalvedAtMostFiveTimes(cfg.sInterval, sendInterval)) && cfg.sInterval > 0.0 ==>
                HalvedAtMostFiveTimes(cfg.sInterval, sendInterval)
      ensures View() == Schedule(cfg, old(View()), now, start)
    {
      if sendInterval < cfg.sInterval && HalvedAtMostFiveTimes(cfg.sInterval, sendInterval) && cfg.sInterval > 0.0 {
        DoublingStaysInRange(cfg.sInterval, sendInterval);
      }
      var next := now + sendInterval;
      if start {
        next := if now <= cfg.startTime then cfg.startTime else now;
      }
      starting := start;
      if cfg.stopTime < 0.0 || next < cfg.stopTime {
        timer := Some(next);
        if sendInterval < cfg.sInterval {
          sendInterval := sendInterval * 2.0;
        }
      }
    }

    method CancelNextPacket()
      modifies this
      ensures View() == old(View()).(timer := None)
    {
      timer := None;
    }

    method SendPacket()
      modifies this
      ensures View() == Send(cfg, old(View()))
    {
      seqNum := seqNum + 1;
      out := out + [Frame(cfg.myAppId, stChng, seqNum, 1000.0 * sendInterval, alarmState, destKnown)];
    }

    /** The common tail of every reaction: cancel, shorten, send, schedule. */
    method SendBurst(now: real)
      modifies this
      ensures alarmState == old(alarmState) && stChng == old(stChng) && SendsOneFrame(cfg, old(View()), View(), now)
      ensures cfg.Valid() ==> RestartsPattern(cfg, old(View()), View(), now)
      ensures View() == Burst(cfg, old(View()), now)
    {
      if cfg.Valid() {
        BurstRestartsPattern(cfg, View(), now);
      }
      CancelNextPacket();
      sendInterval := cfg.sInterval / 32.0;
      SendPacket();
      ScheduleNextPacket(now, false);
    }

    /** A generator flips its alarm, goes on to the next state number and begins the fast
        retransmission. */
    method SetAlarmState(now: real)
      modifies this
      ensures cfg.generator ==>
                && alarmState == !old(alarmState) && stChng == (old(stChng) + 1) % 0x1_0000_0000
                && SendsOneFrame(cfg, old(View()), View(), now)
      ensures cfg.generator && cfg.Valid() ==> RestartsPattern(cfg, old(View()), View(), now)
      ensures !cfg.generator ==> View() == old(View())
      ensures View() == SetAlarm(cfg, old(View()), now)
    {
      hide RestartsPattern;
      if cfg.Valid() {
        BurstRestartsPattern(cfg, View(), now);
      }
      if cfg.generator {
        alarmState := !alarmState;
        stChng := (stChng + 1) % 0x1_0000_0000;
        SendBurst(now);
      }
    }

    /** A START without a usable destination is the end of it. Otherwise one frame is sent; after a
        START it and all later ones are addressed. */
    method HandleTimer()
      requires timer.Some?
      modifies this
      ensures alarmState == old(alarmState)
      ensures destKnown == if old(starting) then cfg.resolvable else old(destKnown)
      ensures old(starting) && !cfg.resolvable ==> timer == None && out == old(out)
      ensures !(old(starting) && !cfg.resolvable) ==> SendsOneFrame(cfg, old(View()), View(), old(timer.value))
      ensures View() == Fire(cfg, old(View()))
    {
      var now := timer.value;
      timer := None;
      if starting {
        destKnown := cfg.resolvable;
        if !destKnown {
          return;
        }
      }
      SendPacket();
      ScheduleNextPacket(now, false);
    }

    /** Only a frame that contradicts a generator has an effect, that of its reaction: to take over
        the alarm of the frame, or to repeat its own, both with the fast retransmission. */
    method ReceivePacket(f: Frame, now: real)
      requires cfg.Valid()
      modifies this
      ensures !cfg.generator ==> View() == old(View())
      ensures cfg.generator && f.alarm != old(alarmState) ==>
                exists r: Reaction :: ReactsAs(cfg, f.appId, r) && HasEffect(cfg, old(View()), r, View(), now)
      ensures f.alarm == old(alarmState) ==> View() == old(View())
      ensures View() != old(View()) ==> SendsOneFrame(cfg, old(View()), View(), now)
      ensures View() == Receive(cfg, old(View()), f, now)
    {
      EffectIsRight(cfg, View(), f, now);
      hide RestartsPattern, SendsOneFrame, ReactsAs, HasEffect;
      if cfg.generator && f.alarm != alarmState {
        var i := 0;
        if cfg.iedType == Inter {
          while i < 3
            invariant 0 <= i <= 3
            invariant View() == old(View())
            invariant InterReaction(cfg, f.appId, 0) == InterReaction(cfg, f.appId, i)
          {
            if f.appId == cfg.pcAppIds[i] {
              SetAlarmState(now);
              return;
            } else if f.appId == cfg.comAppIds[i] {
              SendBurst(now);
              return;
            }
            i := i + 1;
          }
        } else if cfg.iedType == Com || cfg.iedType == Pc {
          while i < 2
            invariant 0 <= i <= 2
            invariant View() == old(View())
            invariant f.appId !in cfg.interAppIds[..i]
          {
            if f.appId == cfg.interAppIds[i] {
              if cfg.iedType == Com {
                SetAlarmState(now);
              } else {
                SendBurst(now);
              }
              return;
            }
            i := i + 1;
          }
        }
      }
    }
  }

  // ---------------------------------------------------------------------------------
  // Retransmission timing

  /** Everything that can happen to a device. */
  datatype Event = Start(now: real) | Timer | Alarm(now: real) | Arrival(f: Frame, now: real) | Stop

  ghost predicate Enabled(s: Ied, e: Event) {
    match e
    case Start(_) => s.timer == None
    case Timer => s.timer.Some?
    case _ => true
  }

  ghost function Handle(c: Config, s: Ied, e: Event): Ied
    requires c.Valid() && Enabled(s, e)
  {
    match e
    case Start(now) => Schedule(c, s, now, true)
    case Timer => Fire(c, s)
    case Alarm(now) => SetAlarm(c, s, now)
    case Arrival(f, now) => Receive(c, s, f, now)
    case Stop => s.(timer := None)
  }

  /** Every event of the run is possible when its turn comes. */
  ghost predicate Legal(c: Config, s: Ied, es: seq<Event>)
    requires c.Valid()
    decreases |es|
  {
    es == [] || (Enabled(s, es[0]) && Legal(c, Handle(c, s, es[0]), es[1..]))
  }

  ghost function Final(c: Config, s: Ied, es: seq<Event>): Ied
    requires c.Valid() && Legal(c, s, es)
    decreases |es|
  {
    if es == [] then s else Final(c, Handle(c, s, es[0]), es[1..])
  }

  /** The only intervals a device ever uses: the configured one halved at most five times. */
  ghost predicate HalvedAtMostFiveTimes(full: real, x: real) {
    exists k: nat :: k <= 5 && x * Pow2(k) as real == full
  }

  lemma DoublingStaysInRange(full: real, x: real)
    requires full > 0.0 && HalvedAtMostFiveTimes(full, x) && x < full
    ensures HalvedAtMostFiveTimes(full, x * 2.0)
  {
    var k: nat :| k <= 5 && x * Pow2(k) as real == full;
    assert k != 0;
    assert x * 2.0 * Pow2(k - 1) as real == full;
  }

  lemma BurstIntervalInRange(c: Config, s: Ied, now: real)
    requires c.Valid()
    ensures HalvedAtMostFiveTimes(c.sInterval, Burst(c, s, now).interval)
  {
    assert Pow2(5) == 32;
    assert c.sInterval / 32.0 * Pow2(5) as real == c.sInterval;
    DoublingStaysInRange(c.sInterval, c.sInterval / 32.0);
  }

  lemma EventKeepsInterval(c: Config, s: Ied, e: Event)
    requires c.Valid() && Enabled(s, e)
    requires HalvedAtMostFiveTimes(c.sInterval, s.interval)
    ensures HalvedAtMostFiveTimes(c.sInterval, Handle(c, s, e).interval)
  {
    if s.interval < c.sInterval {
      DoublingStaysInRange(c.sInterval, s.interval);
    }
    match e
    case Alarm(now) => BurstIntervalInRange(c, s.(alarm := !s.alarm, stNum := (s.stNum + 1) % 0x1_0000_0000), now);
    case Arrival(f, now) =>
      BurstIntervalInRange(c, s.(alarm := !s.alarm, stNum := (s.stNum + 1) % 0x1_0000_0000), now);
      BurstIntervalInRange(c, s, now);
    case _ =>
  }

  lemma {:induction false} IntervalStaysInRange(c: Config, s: Ied, es: seq<Event>)
    requires c.Valid() && Legal(c, s, es)
    requires HalvedAtMostFiveTimes(c.sInterval, s.interval)
    ensures HalvedAtMostFiveTimes(c.sInterval, Final(c, s, es).interval)
    decreases |es|
  {
    if es == [] {
    } else {
      EventKeepsInterval(c, s, es[0]);
      IntervalStaysInRange(c, Handle(c, s, es[0]), es[1..]);
    }
  }

  /** In every run of a device its interval is the configured one halved at most five times. */
  lemma IntervalInEveryRun(c: Config, es: seq<Event>)
    requires c.Valid() && Legal(c, Boot(c), es)
    ensures HalvedAtMostFiveTimes(c.sInterval, Final(c, Boot(c), es).interval)
  {
    assert c.sInterval * Pow2(0) as real == c.sInterval;
    IntervalStaysInRange(c, Boot(c), es);
  }

  /** From `s` to `r` one frame is sent at time `now`. It carries the new alarm state and the next
      sequence number, and announces as its time to live exactly the gap until the next scheduled
      frame, unless the stop time cuts the transmission off. */
  ghost predicate SendsOneFrame(c: Config, s: Ied, r: Ied, now: real) {
    && |r.out| == |s.out| + 1 && r.out[..|s.out|] == s.out
    && var f := r.out[|s.out|];
    && f.appId == c.myAppId && f.alarm == r.alarm && f.sqNum == s.sqNum + 1 == r.sqNum && f.stNum == r.stNum
    && f.addressed == r.addressed
    && r.timer == (if c.stopTime < 0.0 || now + f.ttl / 1000.0 < c.stopTime then Some(now + f.ttl / 1000.0) else None)
  }

  /** Whatever makes the device send, it sends one such frame. */
  lemma TtlIsGapToNextFrame(c: Config, s: Ied, e: Event, now: real)
    requires c.Valid() && Enabled(s, e)
    requires match e case Timer => now == s.timer.value case Alarm(t) => now == t
                     case Arrival(_, t) => now == t case _ => true
    requires Handle(c, s, e).out != s.out
    ensures SendsOneFrame(c, s, Handle(c, s, e), now)
  {
    BurstSendsOneFrame(c, s, now);
    match e
    case Start(_) =>
    case Timer => FireSendsOneFrame(c, s);
    case Alarm(_) =>
    case Arrival(_, _) => hide Burst, SendsOneFrame;
    case Stop =>
  }

  lemma BurstSendsOneFrame(c: Config, s: Ied, now: real)
    ensures SendsOneFrame(c, s, Burst(c, s, now), now)
    ensures c.generator ==> SendsOneFrame(c, s, SetAlarm(c, s, now), now)
  {
  }

  lemma FireSendsOneFrame(c: Config, s: Ied)
    requires s.timer.Some?
    ensures Fire(c, s).out != s.out ==> SendsOneFrame(c, s, Fire(c, s), s.timer.value)
  {
  }

  /** Time from the start of a burst to its n-th retransmission. */
  function Offset(full: real, n: nat): real {
    if n <= 6 then (Pow2(n) - 1) as real * (full / 32.0)
    else 63.0 * (full / 32.0) + (n - 6) as real * full
  }

  function Gap(full: real, n: nat): real {
    if n <= 5 then Pow2(n) as real * (full / 32.0) else full
  }

  lemma OffsetStep(full: real, n: nat)
    ensures Offset(full, n + 1) == Offset(full, n) + Gap(full, n)
    ensures n <= 4 ==> Gap(full, n + 1) == 2.0 * Gap(full, n)
    ensures n >= 5 ==> Gap(full, n) == full
    ensures n <= 4 && full > 0.0 ==> Gap(full, n) < full
    ensures full > 0.0 ==> Gap(full, n) > 0.0
  {
    assert Pow2(0) == 1 && Pow2(1) == 2 && Pow2(2) == 4 && Pow2(3) == 8;
    assert Pow2(4) == 16 && Pow2(5) == 32 && Pow2(6) == 64;
    if n >= 6 {
      assert Offset(full, n + 1) == 63.0 * (full / 32.0) + (n + 1 - 6) as real * full;
      assert (n + 1 - 6) as real * full == (n - 6) as real * full + full;
    }
  }

  /** The state after the timer has gone off up to `n` times in a row, nothing else happening. */
  function FireTimes(c: Config, s: Ied, n: nat): Ied {
    if n == 0 then s
    else var r := FireTimes(c, s, n - 1); if r.timer.Some? then Fire(c, r) else r
  }

  /** `s` is the state right after the send at time t0, `r` that after n retransmissions. */
  ghost predicate OnSchedule(c: Config, s: Ied, t0: real, n: nat, r: Ied) {
    var due := t0 + Offset(c.sInterval, n + 1);
    && r.alarm == s.alarm && r.stNum == s.stNum && !r.starting && r.addressed == s.addressed
    && if c.stopTime < 0.0 || due < c.stopTime then
         r.timer == Some(due) && r.interval == Gap(c.sInterval, n + 1) && |r.out| == |s.out| + n
       else r.timer == None
  }

  lemma FiringStaysOnSchedule(c: Config, s: Ied, t0: real, n: nat, r: Ied)
    requires c.Valid() && OnSchedule(c, s, t0, n, r)
    ensures OnSchedule(c, s, t0, n + 1, if r.timer.Some? then Fire(c, r) else r)
  {
    OffsetStep(c.sInterval, n + 1);
    OffsetStep(c.sInterval, n + 2);
    if r.timer.Some? {
      var due := r.timer.value;
      var r1 := Send(c, r.(timer := None));
      assert Fire(c, r) == Schedule(c, r1, due, false);
      assert due + r1.interval == t0 + Offset(c.sInterval, n + 2);
      assert |r1.out| == |s.out| + n + 1;
    }
  }

  /** After a burst at time t0 the (n+1)-st retransmission is due at t0 + Offset(n + 1): gaps
      of 1/32, 1/16, 1/8, 1/4, 1/2 of the full interval, and the full interval from then on.
      It is scheduled exactly if that is before the stop time, and every firing sends one
      frame with the alarm state unchanged. */
  lemma {:induction false} RetransmissionTimes(c: Config, s: Ied, t0: real, n: nat)
    requires c.Valid()
    ensures OnSchedule(c, Burst(c, s, t0), t0, n, FireTimes(c, Burst(c, s, t0), n))
  {
    if n == 0 {
      OffsetStep(c.sInterval, 0);
      OffsetStep(c.sInterval, 1);
      assert Offset(c.sInterval, 0) == 0.0 && Gap(c.sInterval, 0) == c.sInterval / 32.0;
    } else {
      RetransmissionTimes(c, s, t0, n - 1);
      FiringStaysOnSchedule(c, Burst(c, s, t0), t0, n - 1, FireTimes(c, Burst(c, s, t0), n - 1));
    }
  }

  /** From `s` to `r` one frame is sent at time `now`, and the fast retransmission begins: the frame
      announces 1/32 of the interval, and every later one is due on schedule. */
  ghost predicate RestartsPattern(c: Config, s: Ied, r: Ied, now: real) {
    && SendsOneFrame(c, s, r, now) && r.out[|s.out|].ttl == 1000.0 * c.sInterval / 32.0
    && forall n: nat :: OnSchedule(c, r, now, n, FireTimes(c, r, n))
  }

  lemma BurstRestartsPattern(c: Config, s: Ied, now: real)
    requires c.Valid()
    ensures RestartsPattern(c, s, Burst(c, s, now), now)
    ensures c.generator ==> RestartsPattern(c, s, SetAlarm(c, s, now), now)
  {
    BurstSendsOneFrame(c, s, now);
    FirstTtl(c, s, now);
    var toggled := s.(alarm := !s.alarm, stNum := (s.stNum + 1) % 0x1_0000_0000);
    FirstTtl(c, toggled, now);
    hide Burst, OnSchedule, FireTimes, SendsOneFrame;
    forall n: nat
      ensures OnSchedule(c, Burst(c, s, now), now, n, FireTimes(c, Burst(c, s, now), n))
      ensures OnSchedule(c, Burst(c, toggled, now), now, n, FireTimes(c, Burst(c, toggled, now), n))
    {
      RetransmissionTimes(c, s, now, n);
      RetransmissionTimes(c, toggled, now, n);
    }
  }

  lemma FirstTtl(c: Config, s: Ied, now: real)
    ensures var r := Burst(c, s, now); |r.out| == |s.out| + 1 && r.out[|s.out|].ttl == 1000.0 * c.sInterval / 32.0
  {
  }

  lemma SteadyFire(c: Config, s: Ied, at: real)
    requires c.Valid() && s.timer == Some(at) && s.interval == c.sInterval && (s.starting ==> c.resolvable)
    ensures var r := Fire(c, s);
            && r.interval == c.sInterval && !r.starting && |r.out| == |s.out| + 1
            && r.timer == if c.stopTime < 0.0 || at + c.sInterval < c.stopTime then Some(at + c.sInterval) else None
  {
  }

  function Multiple(full: real, n: nat): real {
    n as real * full
  }

  lemma NextMultiple(full: real, n: nat)
    ensures Multiple(full, 0) == 0.0 && Multiple(full, n + 1) == Multiple(full, n) + full
  {
  }

  /** The state after n more steady frames, the first of them due at time t0. */
  ghost predicate Steady(c: Config, s: Ied, t0: real, n: nat, r: Ied) {
    var due := t0 + Multiple(c.sInterval, n);
    && r.interval == c.sInterval && (r.starting ==> c.resolvable)
    && if c.stopTime < 0.0 || due < c.stopTime then r.timer == Some(due) && |r.out| == |s.out| + n else r.timer == None
  }

  /** Undisturbed, a device with the full interval sends one frame each interval from the time on at
      which its timer is due, its START included, until the stop time. */
  lemma {:induction false} SteadyTimes(c: Config, s: Ied, t0: real, n: nat)
    requires c.Valid() && s.timer == Some(t0) && s.interval == c.sInterval && (s.starting ==> c.resolvable)
    requires c.stopTime < 0.0 || t0 < c.stopTime
    ensures Steady(c, s, t0, n, FireTimes(c, s, n))
  {
    hide Multiple, Fire;
    if n == 0 {
      NextMultiple(c.sInterval, 0);
    } else {
      SteadyTimes(c, s, t0, n - 1);
      NextMultiple(c.sInterval, n - 1);
      var r := FireTimes(c, s, n - 1);
      if r.timer.Some? {
        SteadyFire(c, r, r.timer.value);
      }
    }
  }

  /** The effect of a reaction. */
  ghost predicate HasEffect(c: Config, s: Ied, reaction: Reaction, r: Ied, now: real) {
    match reaction
    case Ignore => r == s
    case Toggle => r.alarm == !s.alarm && r.stNum == (s.stNum + 1) % 0x1_0000_0000 && RestartsPattern(c, s, r, now)
    case Resend => r.alarm == s.alarm && r.stNum == s.stNum && RestartsPattern(c, s, r, now)
  }

  lemma EffectIsRight(c: Config, s: Ied, f: Frame, now: real)
    requires c.Valid()
    ensures var r := Receive(c, s, f, now);
            && (!c.generator || f.alarm == s.alarm ==> r == s)
            && (r != s ==> SendsOneFrame(c, s, r, now))
            && (c.generator && f.alarm != s.alarm ==>
                  exists reaction: Reaction :: ReactsAs(c, f.appId, reaction) && HasEffect(c, s, reaction, r, now))
  {
    ReactionIsRight(c, s, f);
    BurstSendsOneFrame(c, s, now);
    BurstRestartsPattern(c, s, now);
    BurstKeeps(c, s, now);
    hide RestartsPattern, SendsOneFrame, Burst, ReactsAs, ReactionTo;
    assert HasEffect(c, s, ReactionTo(c, s, f), Receive(c, s, f, now), now);
  }

  lemma BurstKeeps(c: Config, s: Ied, now: real)
    ensures Burst(c, s, now).alarm == s.alarm && Burst(c, s, now).stNum == s.stNum
    ensures c.generator ==> SetAlarm(c, s, now).alarm == !s.alarm && SetAlarm(c, s, now).stNum == (s.stNum + 1) % 0x1_0000_0000
  {
  }

  // ---------------------------------------------------------------------------------
  // How frames are numbered

  /** The state number goes on from frame to frame exactly when the alarm changes. */
  predicate NextStNum(before: nat, wasAlarm: bool, after: nat, alarm: bool) {
    after == if alarm == wasAlarm then before else (before + 1) % 0x1_0000_0000
  }

  ghost predicate Numbered(s: Ied) {
    && s.sqNum == |s.out|
    && (forall k: nat :: k < |s.out| ==> s.out[k].sqNum == k + 1)
    && (forall j: nat, k: nat :: k < |s.out| && j + 1 == k ==> NextStNum(s.out[j].stNum, s.out[j].alarm, s.out[k].stNum, s.out[k].alarm))
    && (if s.out == [] then s.stNum == 1 && !s.alarm
        else && NextStNum(1, false, s.out[0].stNum, s.out[0].alarm)
             && s.stNum == s.out[|s.out| - 1].stNum && s.alarm == s.out[|s.out| - 1].alarm)
  }

  lemma SendIsNumbered(c: Config, s: Ied, r: Ied, now: real)
    requires Numbered(s) && SendsOneFrame(c, s, r, now) && NextStNum(s.stNum, s.alarm, r.stNum, r.alarm)
    ensures Numbered(r)
  {
    var f := r.out[|s.out|];
    assert r.out == s.out + [f];
  }

  lemma EventKeepsNumbers(c: Config, s: Ied, e: Event)
    requires c.Valid() && Enabled(s, e) && Numbered(s)
    ensures Numbered(Handle(c, s, e))
  {
    var r := Handle(c, s, e);
    NumbersMove(c, s, e);
    var now := match e case Timer => s.timer.value case Alarm(t) => t case Arrival(_, t) => t case _ => 0.0;
    if r.out != s.out {
      TtlIsGapToNextFrame(c, s, e, now);
      hide Handle, SendsOneFrame;
      SendIsNumbered(c, s, r, now);
    }
  }

  lemma NumbersMove(c: Config, s: Ied, e: Event)
    requires c.Valid() && Enabled(s, e)
    ensures var r := Handle(c, s, e);
            if r.out == s.out then r.sqNum == s.sqNum && r.stNum == s.stNum && r.alarm == s.alarm
            else NextStNum(s.stNum, s.alarm, r.stNum, r.alarm)
  {
    match e
    case Timer => FireKeeps(c, s);
    case Alarm(now) => BurstKeeps(c, s, now); BurstSendsOneFrame(c, s, now); hide Burst;
    case Arrival(f, now) => BurstKeeps(c, s, now); BurstSendsOneFrame(c, s, now); hide Burst, ReactionTo;
    case _ =>
  }

  lemma FireKeeps(c: Config, s: Ied)
    requires s.timer.Some?
    ensures var r := Fire(c, s); r.alarm == s.alarm && r.stNum == s.stNum && (r.out == s.out ==> r.sqNum == s.sqNum)
  {
  }

  lemma {:induction false} NumbersStay(c: Config, s: Ied, es: seq<Event>)
    requires c.Valid() && Legal(c, s, es) && Numbered(s)
    ensures Numbered(Final(c, s, es))
    decreases |es|
  {
    if es != [] {
      EventKeepsNumbers(c, s, es[0]);
      NumbersStay(c, Handle(c, s, es[0]), es[1..]);
    }
  }

  /** In every run of a device frames are numbered from one without gaps, and their state number
      goes on exactly when the alarm changes, from one before the first frame. */
  lemma NumberingInEveryRun(c: Config, es: seq<Event>)
    requires c.Valid() && Legal(c, Boot(c), es)
    ensures Numbered(Final(c, Boot(c), es))
  {
    NumbersStay(c, Boot(c), es);
  }

  // ---------------------------------------------------------------------------------
  // Whether a device is heard at all

  /** Between the start of a device and its end: timer, alarm changes and arrivals. */
  predicate Living(es: seq<Event>) {
    forall e <- es :: e.Timer? || e.Alarm? || e.Arrival?
  }

  /** Whether the first frame of the run is one that the timer sends. */
  ghost predicate TimerSpeaksFirst(c: Config, s: Ied, es: seq<Event>)
    requires c.Valid() && Legal(c, s, es)
    decreases |es|
  {
    es != [] && if Handle(c, s, es[0]).out != s.out then es[0].Timer? else TimerSpeaksFirst(c, Handle(c, s, es[0]), es[1..])
  }

  ghost predicate AllAre(out: seq<Frame>, addressed: bool) {
    forall f <- out :: f.addressed == addressed
  }

  /** Not one frame sent yet, and no timer but a START. */
  ghost predicate Fresh(s: Ied) {
    s.out == [] && !s.addressed && (s.timer.Some? ==> s.starting)
  }

  /** No START pending any more; all frames so far were addressed, or none was. */
  ghost predicate Decided(s: Ied) {
    !s.starting && AllAre(s.out, s.addressed)
  }

  lemma DecidedStays(c: Config, s: Ied, e: Event)
    requires c.Valid() && Enabled(s, e) && Living([e]) && Decided(s)
    ensures var r := Handle(c, s, e); Decided(r) && r.addressed == s.addressed && |s.out| <= |r.out|
  {
    assert e in [e];
  }

  lemma FirstEvent(c: Config, s: Ied, e: Event)
    requires c.Valid() && c.resolvable && Enabled(s, e) && Living([e]) && Fresh(s)
    ensures var r := Handle(c, s, e);
            if r.out == s.out then Fresh(r) else Decided(r) && r.addressed == e.Timer? && |r.out| > 0
  {
    assert e in [e];
  }

  /** A device that has sent, with no START pending, stays as it is: addressed or not. */
  lemma {:induction false} AddressIsForLife(c: Config, s: Ied, es: seq<Event>)
    requires c.Valid() && Legal(c, s, es) && Living(es) && Decided(s)
    ensures var r := Final(c, s, es); Decided(r) && r.addressed == s.addressed && |s.out| <= |r.out|
    decreases |es|
  {
    if es != [] {
      assert es[0] in es && forall e <- es[1..] :: e in es;
      DecidedStays(c, s, es[0]);
      hide Decided, Handle;
      AddressIsForLife(c, Handle(c, s, es[0]), es[1..]);
    }
  }

  lemma {:induction false} FirstFrameDecides(c: Config, s: Ied, es: seq<Event>)
    requires c.Valid() && c.resolvable && Legal(c, s, es) && Living(es) && Fresh(s)
    ensures var r := Final(c, s, es);
            (r.out == [] ==> !r.addressed) && (r.out != [] ==> AllAre(r.out, TimerSpeaksFirst(c, s, es)))
    decreases |es|
  {
    if es != [] {
      assert es[0] in es && forall e <- es[1..] :: e in es;
      FirstEvent(c, s, es[0]);
      var t := Handle(c, s, es[0]);
      hide Handle;
      if t.out == s.out {
        FirstFrameDecides(c, t, es[1..]);
      } else {
        AddressIsForLife(c, t, es[1..]);
      }
    }
  }

  /** A device with a usable destination looks it up when its START is handled and never again. So
      if its first frame is sent by the timer, all its frames are addressed; if an alarm or a
      correction makes it send earlier, that cancels the START, and no frame it ever sends, until
      it is started anew, is addressed to anybody. */
  lemma HeardExactlyWhen(c: Config, now: real, es: seq<Event>)
    requires c.Valid() && c.resolvable && Legal(c, Schedule(c, Boot(c), now, true), es) && Living(es)
    ensures var s := Schedule(c, Boot(c), now, true); var r := Final(c, s, es);
            r.out != [] ==> (AllAre(r.out, true) <==> TimerSpeaksFirst(c, s, es)) && (AllAre(r.out, false) <==> !TimerSpeaksFirst(c, s, es))
  {
    var s := Schedule(c, Boot(c), now, true);
    FirstFrameDecides(c, s, es);
    var r := Final(c, s, es);
    assert r.out != [] ==> r.out[0] in r.out;
  }
}
