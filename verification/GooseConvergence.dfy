/** Convergence of the interlocking scheme: without alarm changes the frames that devices
    send to correct one another die out, and even with endless retransmissions every device
    ends up, for good, with the alarm bit of the P&C device. */
module GooseConvergence {
  import opened GooseIed
  import opened GooseBits

  // ---------------------------------------------------------------------------------
  // Agreement at rest

  predicate Follows(v: View, lead: Id, follow: Id) {
    (lead == P && follow == I) || (lead == I && follow.C? && Known(|v.com|, follow))
  }

  /** If a follower disagrees, a frame that will start to repair this is in flight. */
  predicate RepairOnItsWay(v: View, lead: Id, follow: Id)
    requires Follows(v, lead, follow)
  {
    Bit(v, follow) != Bit(v, lead) ==>
      Packet(lead, follow, Bit(v, lead)) in v.net || Packet(follow, lead, Bit(v, follow)) in v.net
  }

  ghost predicate Inv(v: View) {
    Shaped(v) && forall lead, follow :: Follows(v, lead, follow) ==> RepairOnItsWay(v, lead, follow)
  }

  lemma RepairSurvives(v: View, a: Act, lead: Id, follow: Id)
    requires Possible(v, a) && Follows(v, lead, follow) && RepairOnItsWay(v, lead, follow)
    ensures RepairOnItsWay(Step(v, a), lead, follow)
  {
    var t := Step(v, a);
    CountAfter(v, a, Packet(lead, follow, Bit(t, lead)));
    CountAfter(v, a, Packet(follow, lead, Bit(t, follow)));
  }

  lemma StepKeepsInv(v: View, a: Act)
    requires Inv(v) && Possible(v, a)
    ensures Inv(Step(v, a))
  {
    StepShaped(v, a);
    var t := Step(v, a);
    CountAfter(v, a, Packet(P, I, true));
    forall lead, follow | Follows(t, lead, follow)
      ensures RepairOnItsWay(t, lead, follow)
    {
      assert Follows(v, lead, follow);
      RepairSurvives(v, a, lead, follow);
    }
  }

  predicate AllHold(v: View, b: bool) {
    v.pc == b && v.inter == b && forall k :: 0 <= k < |v.com| ==> v.com[k] == b
  }

  /** Whenever no frame is in flight all devices agree with the P&C device. */
  lemma RestMeansAgreement(v: View)
    requires Inv(v) && v.net == multiset{}
    ensures AllHold(v, v.pc)
  {
    assert Follows(v, P, I);
    forall k | 0 <= k < |v.com| ensures v.com[k] == v.pc {
      assert Follows(v, I, C(k));
    }
  }

  // ---------------------------------------------------------------------------------
  // The measure

  /** Commands in flight to the first n command devices that carry bit b. */
  function Commands(net: multiset<Packet>, b: bool, n: nat): nat {
    if n == 0 then 0 else Commands(net, b, n - 1) + net[Packet(I, C(n - 1), b)]
  }

  /** Feedback in flight from the first n command devices that carries bit b. */
  function Feedback(net: multiset<Packet>, b: bool, n: nat): nat {
    if n == 0 then 0 else Feedback(net, b, n - 1) + net[Packet(C(n - 1), I, b)]
  }

  function Dissent(com: seq<bool>, b: bool): nat {
    if com == [] then 0
    else Dissent(com[..|com| - 1], b) + if com[|com| - 1] != b then 1 else 0
  }

  /** In decreasing weight: stale alarms on their way from the P&C device; whether the
      interlocking device is off; stale commands on their way; command devices that are off;
      mismatching feedback on its way; frames from the interlocking to the P&C device; all
      frames. */
  datatype Rank = Rank(a: nat, b: nat, c: nat, d: nat, e: nat, f: nat, g: nat)

  function RankOf(v: View): Rank {
    Rank(v.net[Packet(P, I, !v.pc)],
         if v.inter != v.pc then 1 else 0,
         Commands(v.net, !v.inter, |v.com|),
         Dissent(v.com, v.inter),
         Feedback(v.net, !v.inter, |v.com|),
         v.net[Packet(I, P, true)] + v.net[Packet(I, P, false)],
         |v.net|)
  }

  predicate HeadLe(r: Rank, q: Rank) {
    r.a < q.a || (r.a == q.a && (r.b < q.b || (r.b == q.b && (r.c < q.c || (r.c == q.c && r.d <= q.d)))))
  }

  predicate HeadLess(r: Rank, q: Rank) {
    r.a < q.a || (r.a == q.a && (r.b < q.b || (r.b == q.b && (r.c < q.c || (r.c == q.c && r.d < q.d)))))
  }

  predicate Less(r: Rank, q: Rank) {
    HeadLess(r, q) || (HeadLe(r, q) && (r.e < q.e || (r.e == q.e && (r.f < q.f || (r.f == q.f && r.g < q.g)))))
  }

  /** Only the interlocking device sends commands, and it sends its own bit: commands with the
      other bit only get fewer, by one when one of them is delivered. */
  lemma {:induction false} StaleCommands(v: View, a: Act, n: nat)
    requires Possible(v, a) && n <= |v.com| && Step(v, a).inter == v.inter
    ensures Commands(Step(v, a).net, !v.inter, n) == Commands(v.net, !v.inter, n)
            - if a.Arrive? && a.p.from == I && a.p.to.C? && a.p.to.k < n && a.p.alarm != v.inter then 1 else 0
  {
    if n == 0 {
    } else {
      StaleCommands(v, a, n - 1);
      CountAfter(v, a, Packet(I, C(n - 1), !v.inter));
    }
  }

  /** A command device only sends by itself when it toggles or retransmits. */
  lemma {:induction false} StaleFeedback(v: View, a: Act, n: nat)
    requires Possible(v, a) && n <= |v.com| && Step(v, a).inter == v.inter
    requires a.Arrive? && Step(v, a).com == v.com
    ensures Feedback(Step(v, a).net, !v.inter, n) == Feedback(v.net, !v.inter, n)
            - if a.p.to == I && a.p.from.C? && a.p.from.k < n && a.p.alarm != v.inter then 1 else 0
  {
    if n == 0 {
    } else {
      StaleFeedback(v, a, n - 1);
      CountAfter(v, a, Packet(C(n - 1), I, !v.inter));
    }
  }

  lemma {:induction false} DissentDrops(com: seq<bool>, k: nat, b: bool)
    requires k < |com| && com[k] != b
    ensures Dissent(com[k := b], b) < Dissent(com, b)
  {
    var last := |com| - 1;
    if k == last {
      assert com[k := b][..last] == com[..last];
    } else {
      assert com[k := b][..last] == com[..last][k := b];
      DissentDrops(com[..last], k, b);
    }
  }

  predicate SameBits(v: View, t: View) {
    v.pc == t.pc && v.inter == t.inter && v.com == t.com
  }

  /** Later the head of the measure is no higher, and it is lower if any bit differs. */
  predicate Drifts(v: View, t: View) {
    HeadLe(RankOf(t), RankOf(v)) && (!SameBits(v, t) ==> HeadLess(RankOf(t), RankOf(v)))
  }

  lemma InterFlips(v: View, a: Act)
    requires Possible(v, a) && a != FlipPc && Step(v, a).inter != v.inter
    ensures HeadLess(RankOf(Step(v, a)), RankOf(v))
  {
    CountAfter(v, a, Packet(P, I, !v.pc));
  }

  lemma ComFlips(v: View, a: Act)
    requires Possible(v, a) && Step(v, a).com != v.com
    ensures HeadLess(RankOf(Step(v, a)), RankOf(v))
  {
    CountAfter(v, a, Packet(P, I, !v.pc));
    StaleCommands(v, a, |v.com|);
    if a.p.alarm == v.inter {
      DissentDrops(v.com, a.p.to.k, v.inter);
    }
  }

  /** Every change of a bit other than the P&C device's own lowers the head of the measure,
      and no step but a change of that bit ever raises it. */
  lemma StepDrifts(v: View, a: Act)
    requires Possible(v, a) && a != FlipPc
    ensures Step(v, a).pc == v.pc && Drifts(v, Step(v, a))
  {
    CountAfter(v, a, Packet(P, I, !v.pc));
    if Step(v, a).inter != v.inter {
      InterFlips(v, a);
    } else if Step(v, a).com != v.com {
      ComFlips(v, a);
    } else {
      StaleCommands(v, a, |v.com|);
    }
  }

  lemma QuietDeliveryTail(v: View, p: Packet)
    requires Shaped(v) && Possible(v, Arrive(p)) && SameBits(v, Step(v, Arrive(p)))
    ensures var r, q := RankOf(Step(v, Arrive(p))), RankOf(v);
            r.e < q.e || (r.e == q.e && (r.f < q.f || (r.f == q.f && r.g < q.g)))
  {
    var a := Arrive(p);
    StaleFeedback(v, a, |v.com|);
    CountAfter(v, a, Packet(I, P, true));
    CountAfter(v, a, Packet(I, P, false));
    assert v.net == (v.net - multiset{p}) + multiset{p};
  }

  /** Delivering a frame always lowers the measure, although it may add any number of frames. */
  lemma DeliveryLowersRank(v: View, p: Packet)
    requires Shaped(v) && Possible(v, Arrive(p))
    ensures Less(RankOf(Step(v, Arrive(p))), RankOf(v))
  {
    StepDrifts(v, Arrive(p));
    if SameBits(v, Step(v, Arrive(p))) {
      QuietDeliveryTail(v, p);
    }
  }

  // ---------------------------------------------------------------------------------
  // The cascade of corrections

  predicate StepsBy(v: View, t: View, a: Act) {
    Possible(v, a) && t == Step(v, a)
  }

  /** Some frame in flight is delivered, if there is one. */
  ghost predicate CascadeAt(run: nat -> View, k: nat) {
    run(k).net != multiset{} ==> exists p :: StepsBy(run(k), run(k + 1), Arrive(p))
  }

  /** Let devices only react to frames from some moment on. In whatever order the network
      delivers, after finitely many deliveries no frame is left, and then every device
      has the alarm bit that the P&C device had at that moment. */
  lemma {:induction false} CascadeIsFinite(run: nat -> View, from: nat) returns (m: nat)
    requires Inv(run(from)) && forall k: nat :: k >= from ==> CascadeAt(run, k)
    ensures m >= from && run(m).net == multiset{} && AllHold(run(m), run(from).pc)
    decreases RankOf(run(from)).a, RankOf(run(from)).b, RankOf(run(from)).c, RankOf(run(from)).d,
              RankOf(run(from)).e, RankOf(run(from)).f, RankOf(run(from)).g
  {
    if run(from).net == multiset{} {
      RestMeansAgreement(run(from));
      m := from;
    } else {
      assert CascadeAt(run, from);
      var p :| StepsBy(run(from), run(from + 1), Arrive(p));
      StepKeepsInv(run(from), Arrive(p));
      StepDrifts(run(from), Arrive(p));
      DeliveryLowersRank(run(from), p);
      m := CascadeIsFinite(run, from + 1);
    }
  }

  // ---------------------------------------------------------------------------------
  // Endless runs with retransmissions

  predicate SteadyBy(v: View, t: View, a: Act) {
    a != FlipPc && StepsBy(v, t, a)
  }

  /** Any step but a change of the P&C device's own alarm. */
  ghost predicate SteadyAt(run: nat -> View, k: nat) {
    SteadyStep(run(k), run(k + 1))
  }

  ghost predicate SteadyStep(v: View, t: View) {
    exists a: Act :: SteadyBy(v, t, a)
  }

  ghost predicate DeliveredSomeDay(run: nat -> View, k: nat, p: Packet) {
    exists m: nat :: m >= k && StepsBy(run(m), run(m + 1), Arrive(p))
  }

  ghost predicate FairAt(run: nat -> View, k: nat) {
    forall p :: p in run(k).net ==> DeliveredSomeDay(run, k, p)
  }

  /** A run without changes of the P&C device's alarm that loses no frame: every frame in
      flight is delivered some day. */
  ghost predicate FairSteadyRun(run: nat -> View) {
    Inv(run(0)) && forall k: nat :: SteadyAt(run, k) && FairAt(run, k)
  }

  lemma DriftsTransitive(v: View, t: View, u: View)
    requires Drifts(v, t) && Drifts(t, u)
    ensures Drifts(v, u)
  {
  }

  lemma DriftOneStep(run: nat -> View, k: nat)
    requires SteadyAt(run, k) && Inv(run(k))
    ensures Inv(run(k + 1)) && run(k + 1).pc == run(k).pc && Drifts(run(k), run(k + 1))
  {
    var a: Act :| SteadyBy(run(k), run(k + 1), a);
    StepKeepsInv(run(k), a);
    StepDrifts(run(k), a);
  }

  lemma {:induction false} DriftsAlong(run: nat -> View, from: nat, k: nat)
    requires FairSteadyRun(run) && Inv(run(from)) && from <= k
    ensures Inv(run(k)) && run(k).pc == run(from).pc && Drifts(run(from), run(k))
    decreases k - from
  {
    if from < k {
      DriftOneStep(run, from);
      DriftsAlong(run, from + 1, k);
      DriftsTransitive(run(from), run(from + 1), run(k));
    }
  }

  predicate SameAt(run: nat -> View, m: nat, k: nat) {
    SameBits(run(m), run(k))
  }

  ghost predicate Frozen(run: nat -> View, m: nat) {
    forall k: nat :: k >= m ==> SameAt(run, m, k)
  }

  lemma StaysSame(run: nat -> View, m: nat, k: nat)
    requires Frozen(run, m) && m <= k
    ensures SameBits(run(m), run(k))
  {
    assert SameAt(run, m, k);
  }

  /** Only finitely many alarm bits ever change. */
  lemma {:induction false} BitsFreeze(run: nat -> View, from: nat) returns (m: nat)
    requires FairSteadyRun(run) && Inv(run(from))
    ensures m >= from && Frozen(run, m)
    decreases RankOf(run(from)).a, RankOf(run(from)).b, RankOf(run(from)).c, RankOf(run(from)).d
  {
    if Frozen(run, from) {
      m := from;
    } else {
      var k: nat :| k >= from && !SameAt(run, from, k);
      DriftsAlong(run, from, k);
      m := BitsFreeze(run, k);
    }
  }

  lemma ArrivalFlips(v: View, t: View, p: Packet)
    requires StepsBy(v, t, Arrive(p)) && Follows(v, p.from, p.to)
    ensures |t.com| == |v.com| && Bit(t, p.to) == p.alarm
  {
  }

  lemma AnswerSent(v: View, t: View, p: Packet)
    requires StepsBy(v, t, Arrive(p)) && Follows(v, p.to, p.from) && p.alarm != Bit(v, p.to)
    ensures Packet(p.to, p.from, Bit(v, p.to)) in t.net
  {
    CountAfter(v, Arrive(p), Packet(p.to, p.from, Bit(v, p.to)));
  }

  lemma DeliveryMoment(run: nat -> View, k: nat, p: Packet) returns (j: nat)
    requires FairSteadyRun(run) && p in run(k).net
    ensures j >= k && StepsBy(run(j), run(j + 1), Arrive(p))
  {
    assert FairAt(run, k);
    assert DeliveredSomeDay(run, k, p);
    j :| j >= k && StepsBy(run(j), run(j + 1), Arrive(p));
  }

  /** Once the bits are frozen, a frame that would flip its receiver cannot be in flight. */
  lemma NoFlippingFrame(run: nat -> View, m: nat, k: nat, p: Packet)
    requires FairSteadyRun(run) && Frozen(run, m) && m <= k
    requires Follows(run(m), p.from, p.to) && p in run(k).net
    ensures p.alarm == Bit(run(m), p.to)
  {
    var j := DeliveryMoment(run, k, p);
    assert SameAt(run, m, j) && SameAt(run, m, j + 1);
    ArrivalFlips(run(j), run(j + 1), p);
  }

  /** A frame by which a follower contradicts its leader makes the leader send such a frame. */
  lemma NoContradictingFrame(run: nat -> View, m: nat, p: Packet)
    requires FairSteadyRun(run) && Frozen(run, m)
    requires Follows(run(m), p.to, p.from) && p in run(m).net
    requires p.alarm == Bit(run(m), p.from)
    ensures p.alarm == Bit(run(m), p.to)
  {
    hide Step, Frozen, FairSteadyRun;
    if p.alarm != Bit(run(m), p.to) {
      var answer := Packet(p.to, p.from, Bit(run(m), p.to));
      var j := DeliveryMoment(run, m, p);
      StaysSame(run, m, j);
      AnswerSent(run(j), run(j + 1), p);
      NoFlippingFrame(run, m, j + 1, answer);
    }
  }

  lemma FrozenFollowerAgrees(run: nat -> View, m: nat, lead: Id, follow: Id)
    requires FairSteadyRun(run) && Inv(run(m)) && Frozen(run, m) && Follows(run(m), lead, follow)
    ensures Bit(run(m), follow) == Bit(run(m), lead)
  {
    assert RepairOnItsWay(run(m), lead, follow);
    if Bit(run(m), follow) != Bit(run(m), lead) {
      if Packet(lead, follow, Bit(run(m), lead)) in run(m).net {
        NoFlippingFrame(run, m, m, Packet(lead, follow, Bit(run(m), lead)));
      } else {
        NoContradictingFrame(run, m, Packet(follow, lead, Bit(run(m), follow)));
      }
    }
  }

  /** Convergence: from some moment on, and for ever, every device has the alarm bit of the
      P&C device, although retransmissions never stop. */
  lemma EventuallyAllFollow(run: nat -> View) returns (m: nat)
    requires FairSteadyRun(run)
    ensures forall k: nat :: k >= m ==> AllHold(run(k), run(0).pc)
  {
    m := BitsFreeze(run, 0);
    DriftsAlong(run, 0, m);
    FrozenFollowerAgrees(run, m, P, I);
    forall k | 0 <= k < |run(m).com| ensures run(m).com[k] == run(m).pc {
      FrozenFollowerAgrees(run, m, I, C(k));
    }
    forall k: nat | k >= m ensures AllHold(run(k), run(0).pc) {
      assert SameAt(run, m, k);
    }
  }
}
