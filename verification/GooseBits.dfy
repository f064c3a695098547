/** The interlocking scheme reduced to what decides who follows whom: the alarm bits of one
    P&C device, one interlocking device and any number of command devices, and the frames in
    flight between them. Nothing is lost; delivery may happen in any order. */
module GooseBits {
  import opened GooseIed

  datatype Id = P | I | C(k: nat)

  /** A frame on its way to one receiver. */
  datatype Packet = Packet(from: Id, to: Id, alarm: bool)

  datatype View = View(pc: bool, inter: bool, com: seq<bool>, net: multiset<Packet>)

  predicate Known(n: nat, d: Id) {
    d.C? ==> d.k < n
  }

  predicate Shaped(v: View) {
    forall p <- v.net :: Known(|v.com|, p.from) && Known(|v.com|, p.to) && p.from != p.to
  }

  function Bit(v: View, d: Id): bool
    requires Known(|v.com|, d)
  {
    match d case P => v.pc case I => v.inter case C(k) => v.com[k]
  }

  function SetBit(v: View, d: Id, b: bool): (t: View)
    requires Known(|v.com|, d)
    ensures |t.com| == |v.com|
  {
    match d
    case P => v.(pc := b)
    case I => v.(inter := b)
    case C(k) => v.(com := v.com[k := b])
  }

  /** The reaction to a frame, by the roles of receiver and sender. */
  function RoleReaction(to: Id, from: Id, mismatch: bool): Reaction {
    if !mismatch then Ignore
    else match to
      case I => if from == P then Toggle else Resend
      case C(_) => if from == I then Toggle else Ignore
      case P => if from == I then Resend else Ignore
  }

  function Ids(n: nat): set<Id> {
    {P, I} + set k | 0 <= k < n :: C(k)
  }

  function Broadcast(n: nat, from: Id, alarm: bool): multiset<Packet> {
    multiset(set to | to in Ids(n) && to != from :: Packet(from, to, alarm))
  }

  lemma BroadcastCount(n: nat, from: Id, alarm: bool, q: Packet)
    ensures Broadcast(n, from, alarm)[q] ==
              if q.from == from && q.alarm == alarm && Known(n, q.to) && q.to != from then 1 else 0
  {
    var all := set to | to in Ids(n) && to != from :: Packet(from, to, alarm);
    assert q in all <==> q.from == from && q.alarm == alarm && q.to in Ids(n) && q.to != from;
  }

  function Say(v: View, d: Id): View
    requires Known(|v.com|, d)
  {
    v.(net := v.net + Broadcast(|v.com|, d, Bit(v, d)))
  }

  datatype Act =
    | Arrive(p: Packet)   // a frame in flight is delivered
    | Repeat(d: Id)       // a device retransmits
    | FlipPc              // the P&C device's alarm changes
    | Rest                // nothing visible happens

  predicate Possible(v: View, a: Act) {
    match a
    case Arrive(p) => p in v.net && Known(|v.com|, p.to)
    case Repeat(d) => Known(|v.com|, d)
    case _ => true
  }

  /** Whether the step makes device `d` send. */
  predicate Speaks(v: View, a: Act, d: Id)
    requires Possible(v, a)
  {
    match a
    case Arrive(p) => d == p.to && RoleReaction(p.to, p.from, p.alarm != Bit(v, p.to)) != Ignore
    case Repeat(r) => d == r
    case FlipPc => d == P
    case Rest => false
  }

  /** The view just before the receiver of `p` speaks, if it does. */
  function Absorb(v: View, p: Packet): (t: View)
    requires Possible(v, Arrive(p))
    ensures |t.com| == |v.com|
  {
    var u := v.(net := v.net - multiset{p});
    if RoleReaction(p.to, p.from, p.alarm != Bit(v, p.to)) == Toggle then SetBit(u, p.to, p.alarm) else u
  }

  function Step(v: View, a: Act): (t: View)
    requires Possible(v, a)
    ensures |t.com| == |v.com|
  {
    match a
    case Arrive(p) =>
      if Speaks(v, a, p.to) then Say(Absorb(v, p), p.to) else Absorb(v, p)
    case Repeat(d) => Say(v, d)
    case FlipPc => Say(v.(pc := !v.pc), P)
    case Rest => v
  }

  // ---------------------------------------------------------------------------------
  // The counts after a step

  function Copies(v: View, d: Id, q: Packet): nat
    requires Known(|v.com|, d)
  {
    if q.from == d && Known(|v.com|, q.to) && q.to != d && q.alarm == Bit(v, d) then 1 else 0
  }

  lemma SayCount(v: View, d: Id, q: Packet)
    requires Known(|v.com|, d)
    ensures Say(v, d).net[q] == v.net[q] + Copies(Say(v, d), d, q)
  {
    BroadcastCount(|v.com|, d, Bit(v, d), q);
  }

  lemma AbsorbCount(v: View, p: Packet, q: Packet)
    requires Possible(v, Arrive(p))
    ensures Absorb(v, p).net[q] == v.net[q] - (if p == q then 1 else 0)
    ensures |Absorb(v, p).com| == |v.com|
  {
  }

  lemma ArriveCount(v: View, p: Packet, q: Packet)
    requires Possible(v, Arrive(p))
    ensures var t := Step(v, Arrive(p));
            t.net[q] == v.net[q] - (if p == q then 1 else 0)
                        + if Speaks(v, Arrive(p), p.to) then Copies(t, p.to, q) else 0
  {
    AbsorbCount(v, p, q);
    if Speaks(v, Arrive(p), p.to) {
      SayCount(Absorb(v, p), p.to, q);
    }
  }

  /** A step consumes the frame it delivers and adds one copy of the speaker's new bit for
      every other device. */
  lemma CountAfter(v: View, a: Act, q: Packet)
    requires Possible(v, a)
    ensures var t := Step(v, a);
            && |t.com| == |v.com|
            && t.net[q] == v.net[q] - (if a == Arrive(q) then 1 else 0)
               + if Known(|v.com|, q.from) && Speaks(v, a, q.from) then Copies(t, q.from, q) else 0
  {
    match a
    case Arrive(p) => ArriveCount(v, p, q);
    case Repeat(d) => SayCount(v, d, q);
    case FlipPc => SayCount(v.(pc := !v.pc), P, q);
    case Rest =>
  }

  lemma StepShaped(v: View, a: Act)
    requires Shaped(v) && Possible(v, a)
    ensures Shaped(Step(v, a))
  {
    var t := Step(v, a);
    forall q | q in t.net ensures Known(|t.com|, q.from) && Known(|t.com|, q.to) && q.from != q.to {
      CountAfter(v, a, q);
    }
  }
}
