/** What every run of the state machine engine keeps: the entered states are the current one
    and its superstates, boxes live with their states, and history is what was last left. */
module MachoRuns {
  import opened Basics
  import opened Macho

  // ---------------------------------------------------------------------------------
  // What the log says, read without the engine

  /** The states entered and not left. */
  function Active(log: seq<Note>): set<State> {
    if log == [] then {}
    else
      var before := Active(log[..|log| - 1]);
      match log[|log| - 1]
      case Enter(s) => before + {s}
      case Leave(s) => before - {s}
      case _ => before
  }

  predicate Innermost(active: set<State>, s: State) {
    (s == ROOT || s in active) && forall t <- active :: t != ROOT ==> Parent(t) != s
  }

  /** A state is entered only while inactive and inside its superstate, left only while active and
      with no substate active, and initialized only as the innermost active state. */
  predicate Allowed(active: set<State>, note: Note) {
    match note
    case Enter(s) => s != ROOT && s !in active && (Parent(s) == ROOT || Parent(s) in active)
    case Leave(s) => s in active && Innermost(active, s)
    case Init(s) => Innermost(active, s)
    case _ => true
  }

  predicate Disciplined(log: seq<Note>) {
    log == [] || (Disciplined(log[..|log| - 1]) && Allowed(Active(log[..|log| - 1]), log[|log| - 1]))
  }

  /** The last strict substate of the owner to stop being current since its history was last used up. */
  function LastBelow(log: seq<Note>, owner: State): Option<State> {
    if log == [] then None
    else
      var before := LastBelow(log[..|log| - 1], owner);
      match log[|log| - 1]
      case Quit(c) => if owner < c then Some(c) else before
      case Init(s) => if s == owner then None else before
      case Forget(s) => if s == owner then None else before
      case ForgetDeep(s) => if s <= owner then None else before
      case _ => before
  }

  /** A state and all its superstates but Root. */
  function Chain(s: State): set<State>
    decreases |s|
  {
    if s == ROOT then {} else Chain(Parent(s)) + {s}
  }

  lemma {:induction false} ChainIsSuperstates(s: State, t: State)
    ensures t in Chain(s) <==> t != ROOT && t <= s
    decreases |s|
  {
    if s != ROOT {
      assert t <= s && t != s ==> t <= Parent(s);
      ChainIsSuperstates(Parent(s), t);
    }
  }

  // ---------------------------------------------------------------------------------
  // The invariant

  predicate BoxesOk(ch: Chart, boxes: set<State>, log: seq<Note>) {
    && (forall s <- boxes :: if ch.box(s) == Own then s in Active(log) else Enter(s) in log)
    && (forall s <- Active(log) :: s in boxes)
    && (forall n <- log :: n.Enter? && ch.box(n.s) != Own ==> n.s in boxes)
  }

  function Slot(h: map<State, State>, s: State): Option<State> {
    if s in h then Some(h[s]) else None
  }

  /** The whole of it for deep history, the first step on the way for shallow history. */
  function Due(strategy: Strategy, owner: State, last: Option<State>): Option<State> {
    if last == None || !(owner < last.value) then None
    else match strategy
      case NoHistory => None
      case Shallow => Some(last.value[..|owner| + 1])
      case Deep => last
  }

  ghost predicate HistoryOk(ch: Chart, h: map<State, State>, log: seq<Note>) {
    forall s: State :: Slot(h, s) == Due(ch.strategy(s), s, LastBelow(log, s))
  }

  /** While a transition is under way, `top` is the innermost active state. */
  ghost predicate Good(ch: Chart, m: Config, top: State) {
    Disciplined(m.log) && Active(m.log) == Chain(top) && BoxesOk(ch, m.boxes, m.log) && HistoryOk(ch, m.history, m.log)
  }

  ghost predicate Inv(ch: Chart, m: Config) {
    Sane(ch, m) && Good(ch, m, m.current)
  }

  lemma LastOf(log: seq<Note>, n: Note)
    ensures (log + [n])[..|log + [n]| - 1] == log && (log + [n])[|log + [n]| - 1] == n
  {
  }

  lemma ChainTop(s: State)
    ensures Innermost(Chain(s), s)
    ensures s != ROOT ==> s !in Chain(Parent(s)) && Chain(s) - {s} == Chain(Parent(s)) && (Parent(s) == ROOT || Parent(s) in Chain(Parent(s)))
  {
    forall t | t in Chain(s) ensures t != ROOT && t <= s {
      ChainIsSuperstates(s, t);
    }
    ChainIsSuperstates(s, s);
    if s != ROOT {
      ChainIsSuperstates(Parent(s), s);
      ChainIsSuperstates(Parent(s), Parent(s));
    }
  }

  lemma EnterStep(ch: Chart, m: Config, s: State)
    requires s != ROOT && Good(ch, m, Parent(s))
    ensures Good(ch, Entered(m, s), s)
  {
    LastOf(m.log, Enter(s));
    ChainTop(s);
    NeutralNote(ch, m.history, m.log, Enter(s));
    hide HistoryOk, Chain;
  }

  lemma LeaveStep(ch: Chart, m: Config, s: State)
    requires s != ROOT && Good(ch, m, s)
    ensures Good(ch, Left(ch, m, s), Parent(s))
  {
    LastOf(m.log, Leave(s));
    ChainTop(s);
    NeutralNote(ch, m.history, m.log, Leave(s));
    hide HistoryOk, Chain;
  }

  lemma NeutralNote(ch: Chart, h: map<State, State>, log: seq<Note>, n: Note)
    requires HistoryOk(ch, h, log) && (n.Enter? || n.Leave?)
    ensures HistoryOk(ch, h, log + [n])
  {
    LastOf(log, n);
  }

  // ---------------------------------------------------------------------------------
  // One transition

  /** Where the exits stop: the innermost state that stays active. */
  function Stop(s: State, next: State): State
    decreases |s|
  {
    if s != ROOT && (s == next || !IsChild(next, s)) then Stop(Parent(s), next) else s
  }

  lemma {:induction false} StopIsCommon(s: State, next: State)
    ensures Stop(s, next) <= s
    ensures next == ROOT ==> Stop(s, next) == ROOT
    ensures next != ROOT ==> Stop(s, next) <= Parent(next) && forall p: State :: |Stop(s, next)| < |p| && p <= Parent(next) ==> !(p <= s)
    decreases |s|
  {
    IsChildIsPrefix(next, s);
    if s != ROOT && (s == next || !IsChild(next, s)) {
      StopIsCommon(Parent(s), next);
      if next != ROOT {
        forall p: State | |Stop(s, next)| < |p| && p <= Parent(next) ensures !(p <= s) {
          assert !(p <= Parent(s));
          assert p <= s ==> p == s;
        }
      }
    }
  }

  lemma {:induction false} ExitLeavesBottomUp(ch: Chart, m: Config, s: State, next: State)
    requires Good(ch, m, s)
    ensures Good(ch, Exit(ch, m, s, next), Stop(s, next))
    decreases |s|
  {
    if s != ROOT && (s == next || !IsChild(next, s)) {
      LeaveStep(ch, m, s);
      ExitLeavesBottomUp(ch, Left(ch, m, s), Parent(s), next);
    }
  }

  /** From the stop on, everything down to s is entered, superstates first. */
  lemma {:induction false} EntryEntersTopDown(ch: Chart, m: Config, s: State, previous: State, stop: State)
    requires Good(ch, m, stop) && stop <= s && stop <= previous
    requires forall p: State :: |stop| < |p| && p <= s ==> !(p <= previous)
    ensures Good(ch, Entry(m, s, previous, false), s)
    decreases |s|
  {
    IsChildIsPrefix(previous, s);
    if s != stop {
      assert stop <= Parent(s);
      EntryEntersTopDown(ch, m, Parent(s), previous, stop);
      EnterStep(ch, Entry(m, Parent(s), previous, false), s);
    }
  }

  // The exact path of a transition

  /** The innermost strict superstate of next that is s or a superstate of s. */
  ghost predicate IsMeeting(a: State, s: State, next: State) {
    && a <= s && (if next == ROOT then a == ROOT else a < next)
    && forall p: State :: p < next && p <= s ==> |p| <= |a|
  }

  function Leaves(s: State, a: State): seq<Note>
    requires a <= s
    decreases |s|
  {
    if s == a then [] else [Leave(s)] + Leaves(Parent(s), a)
  }

  function Enters(a: State, s: State): seq<Note>
    requires a <= s
    decreases |s|
  {
    if s == a then [] else Enters(a, Parent(s)) + [Enter(s)]
  }

  lemma {:induction false} ExitPath(ch: Chart, m: Config, s: State, next: State)
    requires Stop(s, next) <= s
    ensures Exit(ch, m, s, next).log == m.log + Leaves(s, Stop(s, next))
    decreases |s|
  {
    StopIsCommon(s, next);
    if s != ROOT && (s == next || !IsChild(next, s)) {
      StopIsCommon(Parent(s), next);
      ExitPath(ch, Left(ch, m, s), Parent(s), next);
      assert m.log + ([Leave(s)] + Leaves(Parent(s), Stop(s, next))) == (m.log + [Leave(s)]) + Leaves(Parent(s), Stop(s, next));
    } else {
      assert Stop(s, next) == s;
    }
  }

  lemma {:induction false} EntryPath(m: Config, s: State, previous: State, stop: State)
    requires stop <= s && stop <= previous
    requires forall p: State :: |stop| < |p| && p <= s ==> !(p <= previous)
    ensures Entry(m, s, previous, false).log == m.log + Enters(stop, s)
    decreases |s|
  {
    IsChildIsPrefix(previous, s);
    if s != stop {
      EntryPath(m, Parent(s), previous, stop);
    }
  }

  lemma StopIsMeeting(s: State, next: State)
    ensures IsMeeting(Stop(s, next), s, next) && Stop(s, next) <= next
  {
    StopIsCommon(s, next);
    forall p: State | p < next && p <= s ensures |p| <= |Stop(s, next)| {
      assert p <= Parent(next);
    }
  }

  lemma TargetPath(m: Config, target: State, previous: State)
    ensures Stop(previous, target) <= target
            && Entry(m, target, previous, true).log == m.log + Enters(Stop(previous, target), target)
  {
    StopIsCommon(previous, target);
    if target != ROOT {
      EntryPath(m, Parent(target), previous, Stop(previous, target));
    }
  }

  /** A transition leaves the current state and its superstates bottom-up as far as the meeting
      point, and from there enters the target top-down. The meeting point lies strictly above the
      target, so that a transition to the state itself or to a superstate leaves it and enters it
      again. */
  lemma TransitionPath(ch: Chart, m: Config, r: Request) returns (a: State)
    ensures IsMeeting(a, m.current, r.target)
    ensures a <= m.current && a <= r.target
    ensures Moved(ch, m, r).0.log == m.log + Leaves(m.current, a) + [Quit(m.current)] + Enters(a, r.target) + [Init(r.target)]
  {
    a := Stop(m.current, r.target);
    StopIsMeeting(m.current, r.target);
    ExitPath(ch, m, m.current, r.target);
    var m1 := Exit(ch, m, m.current, r.target);
    var m2 := m1.(history := HistorySuper(ch, m1.history, m.current), current := r.target, log := m1.log + [Quit(m.current)]);
    TargetPath(m2, r.target, m.current);
    hide Exit, Entry, HistorySuper, Stop, Leaves, Enters, IsMeeting;
    assert Entry(m2, r.target, m.current, true).current == r.target;
  }

  lemma {:induction false} NoneAbove(ch: Chart, owner: State, s: State)
    requires !HistoryAbove(ch, owner) && s < owner
    ensures ch.strategy(s) == NoHistory
    decreases |owner|
  {
    if s != Parent(owner) {
      NoneAbove(ch, Parent(owner), s);
    }
  }

  /** Every superstate that keeps a history gets its slot set, by its own strategy. */
  lemma {:induction false} BubblingSetsSlots(ch: Chart, h: map<State, State>, owner: State, shallow: State, deep: State, s: State)
    requires shallow != ROOT && owner == Parent(shallow) && shallow <= deep
    ensures Slot(SaveHistory(ch, h, owner, shallow, deep), s)
         == if s <= owner && ch.strategy(s) != NoHistory then Due(ch.strategy(s), s, Some(deep)) else Slot(h, s)
    decreases |owner|
  {
    assert s == owner ==> s < deep && deep[..|s| + 1] == shallow;
    assert s <= owner ==> s == owner || s < owner;
    var h1 := Recorded(ch, h, owner, shallow, deep);
    if HistoryAbove(ch, owner) {
      assert s < owner <==> s <= Parent(owner);
      BubblingSetsSlots(ch, h1, Parent(owner), owner, deep, s);
    } else if s < owner {
      NoneAbove(ch, owner, s);
    }
  }

  lemma QuitStep(ch: Chart, m: Config, next: State)
    requires Good(ch, m, Stop(m.current, next)) && ch.strategy(ROOT) == NoHistory
    ensures Good(ch, m.(history := HistorySuper(ch, m.history, m.current), current := next, log := m.log + [Quit(m.current)]),
                 Stop(m.current, next))
  {
    var cur := m.current;
    LastOf(m.log, Quit(cur));
    var h := HistorySuper(ch, m.history, cur);
    forall s: State ensures Slot(h, s) == Due(ch.strategy(s), s, LastBelow(m.log + [Quit(cur)], s)) {
      if cur != ROOT {
        BubblingSetsSlots(ch, m.history, Parent(cur), cur, cur, s);
        assert s < cur <==> s <= Parent(cur);
      }
      assert Slot(m.history, s) == Due(ch.strategy(s), s, LastBelow(m.log, s));
    }
  }

  lemma InitStep(ch: Chart, m: Config, useHistory: bool)
    requires Good(ch, m, m.current)
    ensures Good(ch, Initialized(ch, m, useHistory).0, m.current)
  {
    LastOf(m.log, Init(m.current));
    ChainTop(m.current);
  }

  /** Just before the init action of the target everything is in order, the history included. */
  lemma BeforeInit(ch: Chart, m: Config, r: Request) returns (m3: Config)
    requires ChartOk(ch) && Inv(ch, m) && |r.target| <= ch.depth
    ensures Good(ch, m3, r.target) && m3.current == r.target && Moved(ch, m, r) == Initialized(ch, m3, r.useHistory)
  {
    var stop := Stop(m.current, r.target);
    ExitLeavesBottomUp(ch, m, m.current, r.target);
    var m1 := Exit(ch, m, m.current, r.target);
    QuitStep(ch, m1, r.target);
    var m2 := m1.(history := HistorySuper(ch, m1.history, m.current), current := r.target, log := m1.log + [Quit(m.current)]);
    StopIsCommon(m.current, r.target);
    hide Good, Sane, Exit, HistorySuper, Stop;
    if r.target != ROOT {
      EntryEntersTopDown(ch, m2, Parent(r.target), m.current, stop);
      EnterStep(ch, Entry(m2, Parent(r.target), m.current, false), r.target);
    }
    m3 := Entry(m2, r.target, m.current, true);
  }

  lemma MoveKeepsInv(ch: Chart, m: Config, r: Request)
    requires ChartOk(ch) && Inv(ch, m) && |r.target| <= ch.depth
    ensures Inv(ch, Moved(ch, m, r).0)
  {
    MoveIsSane(ch, m, r);
    var m3 := BeforeInit(ch, m, r);
    InitStep(ch, m3, r.useHistory);
  }

  // ---------------------------------------------------------------------------------
  // Where a request leads, read from the log

  /** What the init at position n of the log requests: with history what the owner remembers by
      its strategy, if anything, and otherwise what its init action says. */
  function Asked(ch: Chart, log: seq<Note>, n: nat, s: State, useHistory: bool): Option<Request>
    requires n <= |log|
  {
    match if useHistory then Due(ch.strategy(s), s, LastBelow(log[..n], s)) else None
    case Some(d) => Some(Request(d, false))
    case None => ch.init(s, n)
  }

  /** From position `from` on, the first init in the log, at position n, is that of the target. */
  predicate FirstInit(log: seq<Note>, from: nat, n: nat, s: State) {
    from <= n < |log| && log[n] == Init(s) && forall k: nat | from <= k < n :: !log[k].Init?
  }

  /** The part of the log from `from` on carries out the request: the target is initialized, then
      what that asks for, and so on; the end is the state that asks for nothing more. */
  ghost predicate CarriedOut(ch: Chart, log: seq<Note>, from: nat, r: Request, end: State)
    decreases |log| - from
  {
    exists n: nat :: FirstInit(log, from, n, r.target) && CarriedOn(ch, log, from, n, r, end)
  }

  ghost predicate CarriedOn(ch: Chart, log: seq<Note>, from: nat, n: nat, r: Request, end: State)
    requires FirstInit(log, from, n, r.target)
    decreases |log| - from, 0
  {
    match Asked(ch, log, n, r.target, r.useHistory)
    case None => n + 1 == |log| && end == r.target
    case Some(q) => CarriedOut(ch, log, n + 1, q, end)
  }

  predicate OnlyPassing(notes: seq<Note>) {
    forall n <- notes :: n.Enter? || n.Leave?
  }

  lemma {:induction false} LeavesPass(s: State, a: State)
    requires a <= s
    ensures OnlyPassing(Leaves(s, a))
    decreases |s|
  {
    if s != a {
      LeavesPass(Parent(s), a);
    }
  }

  lemma {:induction false} EntersPass(a: State, s: State)
    requires a <= s
    ensures OnlyPassing(Enters(a, s))
    decreases |s|
  {
    if s != a {
      EntersPass(a, Parent(s));
    }
  }

  lemma {:induction false} PassingIsForgotten(log: seq<Note>, notes: seq<Note>, s: State)
    requires OnlyPassing(notes)
    ensures LastBelow(log + notes, s) == LastBelow(log, s)
    decreases |notes|
  {
    if notes == [] {
      assert log + notes == log;
    } else {
      var before := notes[..|notes| - 1];
      assert log + notes == (log + before) + [notes[|notes| - 1]];
      LastOf(log + before, notes[|notes| - 1]);
      assert notes[|notes| - 1] in notes;
      PassingIsForgotten(log, before, s);
    }
  }

  /** The last strict substate of the owner to be current, the present one included. */
  function LastCurrent(m: Config, s: State): Option<State> {
    if s < m.current then Some(m.current) else LastBelow(m.log, s)
  }

  /** A transition adds to the log some exits and entries and then the init of its target, and the
      next request is what that asks for. What the target remembers is the last strict substate to
      be current. */
  lemma MoveAsks(ch: Chart, m: Config, r: Request)
    requires ChartOk(ch) && Inv(ch, m) && |r.target| <= ch.depth
    ensures var (m1, next) := Moved(ch, m, r); var n := |m1.log| - 1;
            && |m.log| <= n && m1.log[..|m.log|] == m.log && FirstInit(m1.log, |m.log|, n, r.target)
            && next == Asked(ch, m1.log, n, r.target, r.useHistory)
            && LastBelow(m1.log[..n], r.target) == LastCurrent(m, r.target)
  {
    hide Moved, Initialized, LastBelow, Inv, Leaves, Enters, Good, IsMeeting, Asked, ChartOk, FirstInit;
    var m3 := BeforeInit(ch, m, r);
    var a := TransitionPath(ch, m, r);
    LeavesPass(m.current, a);
    EntersPass(a, r.target);
    InitNoted(ch, m3, r.useHistory);
    var m1 := Moved(ch, m, r).0;
    var way := Leaves(m.current, a) + [Quit(m.current)] + Enters(a, r.target);
    assert m1.log == (m.log + way) + [Init(r.target)];
    assert m3.log == m1.log[..|m1.log| - 1] == m.log + way;
    PathForgotten(m.log, Leaves(m.current, a), m.current, Enters(a, r.target), r.target);
    assert m.log + way == m.log + Leaves(m.current, a) + [Quit(m.current)] + Enters(a, r.target);
    InitComesLast(m.log, way, r.target);
    SlotIsDue(ch, m3, r.target, r.target);
    NextIsAsked(ch, m3, m1.log, r);
  }

  lemma InitNoted(ch: Chart, m: Config, useHistory: bool)
    ensures Initialized(ch, m, useHistory).0.log == m.log + [Init(m.current)]
  {
  }

  lemma SlotIsDue(ch: Chart, m: Config, top: State, s: State)
    requires Good(ch, m, top)
    ensures Slot(m.history, s) == Due(ch.strategy(s), s, LastBelow(m.log, s))
  {
  }

  lemma InitComesLast(log: seq<Note>, way: seq<Note>, s: State)
    requires forall n <- way :: !n.Init?
    ensures var all := (log + way) + [Init(s)]; FirstInit(all, |log|, |all| - 1, s) && all[..|log|] == log
  {
    var all := (log + way) + [Init(s)];
    forall k: nat | |log| <= k < |all| - 1 ensures !all[k].Init? {
      assert all[k] == way[k - |log|];
    }
  }

  lemma PathForgotten(log: seq<Note>, leaves: seq<Note>, c: State, enters: seq<Note>, s: State)
    requires OnlyPassing(leaves) && OnlyPassing(enters)
    ensures LastBelow(log + leaves + [Quit(c)] + enters, s) == if s < c then Some(c) else LastBelow(log, s)
  {
    PassingIsForgotten(log, leaves, s);
    LastOf(log + leaves, Quit(c));
    PassingIsForgotten(log + leaves + [Quit(c)], enters, s);
  }

  lemma NextIsAsked(ch: Chart, m: Config, log: seq<Note>, r: Request)
    requires m.current == r.target && log == m.log + [Init(r.target)]
    requires Slot(m.history, r.target) == Due(ch.strategy(r.target), r.target, LastBelow(m.log, r.target))
    ensures Initialized(ch, m, r.useHistory).1 == Asked(ch, log, |log| - 1, r.target, r.useHistory)
  {
    assert log[..|log| - 1] == m.log;
  }

  /** Every request is carried out: the log goes on with it up to the state the machine ends in. */
  lemma {:induction false} SettledCarriesOut(ch: Chart, m: Config, r: Request)
    requires ChartOk(ch) && Inv(ch, m) && |r.target| <= ch.depth
    ensures var m' := Settled(ch, m, r);
            |m.log| <= |m'.log| && m'.log[..|m.log|] == m.log && CarriedOut(ch, m'.log, |m.log|, r, m'.current)
    decreases ch.depth - |r.target|
  {
    assert Sane(ch, m);
    hide Inv, Moved, Asked, LastBelow, FirstInit, CarriedOut, Sane, ChartOk;
    MoveIsSane(ch, m, r);
    MoveKeepsInv(ch, m, r);
    MoveAsks(ch, m, r);
    var (m1, next) := Moved(ch, m, r);
    var n := |m1.log| - 1;
    var log := Settled(ch, m, r).log;
    if next == None {
      InitIsCarriedOut(ch, log, |m.log|, n, r, r.target);
    } else {
      SettledCarriesOut(ch, m1, next.value);
      LongerLog(log, m1.log, |m.log|, n, r.target);
      SamePrefixAsks(ch, log, m1.log, n, r);
      InitIsCarriedOut(ch, log, |m.log|, n, r, Settled(ch, m, r).current);
    }
  }

  lemma InitIsCarriedOut(ch: Chart, log: seq<Note>, from: nat, n: nat, r: Request, end: State)
    requires FirstInit(log, from, n, r.target) && CarriedOn(ch, log, from, n, r, end)
    ensures CarriedOut(ch, log, from, r, end)
  {
  }

  lemma LongerLog(log: seq<Note>, log1: seq<Note>, from: nat, n: nat, s: State)
    requires FirstInit(log1, from, n, s) && |log1| <= |log| && log[..|log1|] == log1
    ensures FirstInit(log, from, n, s) && log[..n] == log1[..n] && log[..from] == log1[..from]
  {
    assert forall k: nat :: k < |log1| ==> log[k] == log[..|log1|][k];
  }

  lemma SamePrefixAsks(ch: Chart, log: seq<Note>, log1: seq<Note>, n: nat, r: Request)
    requires n <= |log| && n <= |log1| && log[..n] == log1[..n]
    ensures Asked(ch, log, n, r.target, r.useHistory) == Asked(ch, log1, n, r.target, r.useHistory)
  {
  }

  /** A transition to the history of a state leads back to what it remembers: by its strategy, the
      last strict substate to be current or the first state on the way to it; in that state the
      machine stays unless its init action requests another one. Without memory, or without asking
      for history, the machine goes where the init action of the state says. */
  lemma HistoryLeadsBack(ch: Chart, m: Config, r: Request)
    requires ChartOk(ch) && Inv(ch, m) && |r.target| <= ch.depth
    ensures var end := Settled(ch, m, r).current;
            match if r.useHistory then Due(ch.strategy(r.target), r.target, LastCurrent(m, r.target)) else None
            case Some(d) => d <= end && ((forall n: nat :: ch.init(d, n) == None) ==> end == d)
            case None => exists n: nat :: match ch.init(r.target, n) case None => end == r.target case Some(q) => q.target <= end
  {
    assert Sane(ch, m);
    hide Inv, Moved, LastBelow, LastCurrent;
    MoveIsSane(ch, m, r);
    MoveKeepsInv(ch, m, r);
    MoveAsks(ch, m, r);
    var (m1, next) := Moved(ch, m, r);
    var n := |m1.log| - 1;
    match if r.useHistory then Due(ch.strategy(r.target), r.target, LastCurrent(m, r.target)) else None
    case Some(d) =>
      MoveAsks(ch, m1, Request(d, false));
      hide Due;
      assert Settled(ch, m, r) == Settled(ch, m1, Request(d, false));
    case None =>
      hide Due;
      assert next == ch.init(r.target, n);
  }

  /** From position `from` to `to` the log carries out the pending request, if there is one, and
      the machine comes from one state to the other. */
  ghost predicate WorkedTo(ch: Chart, log: seq<Note>, from: nat, at: State, pending: Option<Request>, to: nat, end: State) {
    && from <= to <= |log|
    && match pending
       case None => to == from && end == at
       case Some(r) => CarriedOut(ch, log[..to], from, r, end)
  }

  /** The log carries out the pending request, then those of the handlers of the events, one after
      the other, and that is all. */
  ghost predicate WorkedOff(
    ch: Chart, log: seq<Note>, from: nat, at: State, pending: Option<Request>, event: bool, script: seq<Reaction>, end: State)
    decreases |script|
  {
    exists to: nat, mid: State ::
      && WorkedTo(ch, log, from, at, pending, to, mid)
      && if event && script != [] then WorkedOff(ch, log, to, mid, script[0].request, script[0].again, script[1..], end)
         else to == |log| && end == mid
  }

  ghost function Advanced(ch: Chart, m: Config, pending: Option<Request>): Config
    requires ChartOk(ch) && Sane(ch, m) && Valid(ch, pending)
  {
    if pending.Some? then Settled(ch, m, pending.value) else m
  }

  predicate Extends(log: seq<Note>, start: seq<Note>) {
    |start| <= |log| && log[..|start|] == start
  }

  lemma ExtendsOn(log: seq<Note>, mid: seq<Note>, start: seq<Note>)
    requires Extends(log, mid) && Extends(mid, start)
    ensures Extends(log, start)
  {
    assert log[..|start|] == log[..|mid|][..|start|];
  }

  lemma PendingIsWorkedOff(ch: Chart, m: Config, pending: Option<Request>, log: seq<Note>)
    requires ChartOk(ch) && Inv(ch, m) && Valid(ch, pending)
    ensures var m1 := Advanced(ch, m, pending);
            && Extends(m1.log, m.log) && Inv(ch, m1)
            && (Extends(log, m1.log) ==> WorkedTo(ch, log, |m.log|, m.current, pending, |m1.log|, m1.current))
  {
    if pending.Some? {
      SettledCarriesOut(ch, m, pending.value);
      SettlingKeepsInv(ch, m, pending.value);
    }
    hide CarriedOut, Settled, Inv;
  }

  lemma {:induction false} RattledWorksOff(ch: Chart, m: Config, pending: Option<Request>, event: bool, script: seq<Reaction>)
    requires ChartOk(ch) && Inv(ch, m) && Valid(ch, pending) && AllValid(ch, script)
    ensures var m' := Rattled(ch, m, pending, event, script);
            Extends(m'.log, m.log) && WorkedOff(ch, m'.log, |m.log|, m.current, pending, event, script, m'.current)
    decreases |script|
  {
    assert Sane(ch, m);
    hide Inv, Settled, WorkedTo, WorkedOff, Sane, ChartOk, CarriedOut, Extends;
    var m1, m' := Advanced(ch, m, pending), Rattled(ch, m, pending, event, script);
    PendingIsWorkedOff(ch, m, pending, m'.log);
    if event && script != [] {
      RattledWorksOff(ch, m1, script[0].request, script[0].again, script[1..]);
      ExtendsOn(m'.log, m1.log, m.log);
    } else {
      ExtendsItself(m1.log);
    }
    ThenWorkedOff(ch, m'.log, |m.log|, m.current, pending, |m1.log|, m1.current, event, script, m'.current);
  }

  lemma ExtendsItself(log: seq<Note>)
    ensures Extends(log, log)
  {
  }

  lemma ThenWorkedOff(
    ch: Chart, log: seq<Note>, from: nat, at: State, pending: Option<Request>, to: nat, mid: State,
    event: bool, script: seq<Reaction>, end: State)
    requires WorkedTo(ch, log, from, at, pending, to, mid)
    requires if event && script != [] then WorkedOff(ch, log, to, mid, script[0].request, script[0].again, script[1..], end)
             else to == |log| && end == mid
    ensures WorkedOff(ch, log, from, at, pending, event, script, end)
  {
    hide WorkedTo;
  }

  // ---------------------------------------------------------------------------------
  // Whole runs

  lemma {:induction false} SettlingKeepsInv(ch: Chart, m: Config, r: Request)
    requires ChartOk(ch) && Inv(ch, m) && |r.target| <= ch.depth
    ensures Inv(ch, Settled(ch, m, r))
    decreases ch.depth - |r.target|
  {
    MoveIsSane(ch, m, r);
    MoveKeepsInv(ch, m, r);
    hide Inv, Moved;
    var (m1, next) := Moved(ch, m, r);
    if next.Some? {
      SettlingKeepsInv(ch, m1, next.value);
    }
  }

  lemma {:induction false} RattlingKeepsInv(ch: Chart, m: Config, pending: Option<Request>, event: bool, script: seq<Reaction>)
    requires ChartOk(ch) && Inv(ch, m) && Valid(ch, pending) && AllValid(ch, script)
    ensures Inv(ch, Rattled(ch, m, pending, event, script))
    decreases |script|
  {
    if pending.Some? {
      SettlingKeepsInv(ch, m, pending.value);
    }
    var m1 := if pending.Some? then Settled(ch, m, pending.value) else m;
    if event && script != [] {
      RattlingKeepsInv(ch, m1, script[0].request, script[0].again, script[1..]);
    }
  }

  lemma ForgettingKeepsInv(ch: Chart, m: Config, s: State)
    requires Inv(ch, m)
    ensures Inv(ch, Forgotten(m, s)) && Inv(ch, ForgottenDeep(m, s))
  {
    LastOf(m.log, Forget(s));
    LastOf(m.log, ForgetDeep(s));
    forall t: State ensures IsChild(t, s) <==> s <= t {
      IsChildIsPrefix(t, s);
    }
  }

  datatype Call = Event(reaction: Reaction, script: seq<Reaction>) | Clear(s: State) | ClearDeep(s: State) | Goto(r: Request)

  predicate Proper(ch: Chart, c: Call) {
    match c
    case Event(reaction, script) => Valid(ch, reaction.request) && AllValid(ch, script)
    case Goto(r) => Valid(ch, Some(r))
    case _ => true
  }

  ghost function After(ch: Chart, start: State, calls: seq<Call>): (m: Config)
    requires ChartOk(ch) && |start| <= ch.depth && forall c <- calls :: Proper(ch, c)
    ensures Sane(ch, m)
    decreases |calls|
  {
    if calls == [] then Settled(ch, Config(ROOT, map[], {}, []), Request(start, false))
    else
      var m := After(ch, start, calls[..|calls| - 1]);
      assert Proper(ch, calls[|calls| - 1]);
      match calls[|calls| - 1]
      case Event(reaction, script) => Rattled(ch, m, reaction.request, reaction.again, script)
      case Clear(s) => Forgotten(m, s)
      case ClearDeep(s) => ForgottenDeep(m, s)
      case Goto(r) => Settled(ch, m, r)
  }

  lemma {:induction false} InvAfterEveryRun(ch: Chart, start: State, calls: seq<Call>)
    requires ChartOk(ch) && |start| <= ch.depth && forall c <- calls :: Proper(ch, c)
    ensures Inv(ch, After(ch, start, calls))
    decreases |calls|
  {
    if calls == [] {
      SettlingKeepsInv(ch, Config(ROOT, map[], {}, []), Request(start, false));
    } else {
      var before := calls[..|calls| - 1];
      InvAfterEveryRun(ch, start, before);
      var m := After(ch, start, before);
      assert Proper(ch, calls[|calls| - 1]);
      hide Inv;
      match calls[|calls| - 1]
      case Event(reaction, script) => RattlingKeepsInv(ch, m, reaction.request, reaction.again, script);
      case Clear(s) => ForgettingKeepsInv(ch, m, s);
      case ClearDeep(s) => ForgettingKeepsInv(ch, m, s);
      case Goto(r) => SettlingKeepsInv(ch, m, r);
    }
  }

  /** After any run: the states entered and not left are the current one and its superstates,
      and at no time was a state entered, left or initialized out of order. */
  lemma EnteredAreCurrentAndAbove(ch: Chart, start: State, calls: seq<Call>, s: State)
    requires ChartOk(ch) && |start| <= ch.depth && forall c <- calls :: Proper(ch, c)
    ensures var m := After(ch, start, calls);
            Disciplined(m.log) && (s in Active(m.log) <==> s != ROOT && s <= m.current)
  {
    InvAfterEveryRun(ch, start, calls);
    ChainIsSuperstates(After(ch, start, calls).current, s);
  }

  /** After any run: a box of its own lives exactly while its state is active, the others from
      the first entry on. */
  lemma BoxesLiveWithTheirStates(ch: Chart, start: State, calls: seq<Call>, s: State)
    requires ChartOk(ch) && |start| <= ch.depth && forall c <- calls :: Proper(ch, c)
    ensures var m := After(ch, start, calls);
            s in m.boxes <==> if ch.box(s) == Own then s != ROOT && s <= m.current else Enter(s) in m.log
  {
    InvAfterEveryRun(ch, start, calls);
    EnteredAreCurrentAndAbove(ch, start, calls, s);
  }

  /** After any run: a history slot is empty or holds a proper substate: with deep history the
      last strict substate to stop being current since the slot was used or cleared, with shallow
      history the first state on the way to it. */
  lemma HistoryIsWhatWasLastLeft(ch: Chart, start: State, calls: seq<Call>, s: State)
    requires ChartOk(ch) && |start| <= ch.depth && forall c <- calls :: Proper(ch, c)
    ensures var m := After(ch, start, calls);
            && Slot(m.history, s) == Due(ch.strategy(s), s, LastBelow(m.log, s))
            && (s in m.history ==> s < m.history[s])
  {
    InvAfterEveryRun(ch, start, calls);
  }

  /** A transition ends in the requested state or below it. */
  lemma TransitionsArrive(ch: Chart, m: Config, r: Request)
    requires ChartOk(ch) && Sane(ch, m) && |r.target| <= ch.depth
    ensures IsChild(Settled(ch, m, r).current, r.target)
  {
    IsChildIsPrefix(Settled(ch, m, r).current, r.target);
  }

  lemma RootIsFinal(ch: Chart, m: Config)
    requires ChartOk(ch) && Sane(ch, m)
    ensures Settled(ch, m, Request(ROOT, false)) == Moved(ch, m, Request(ROOT, false)).0
    ensures Moved(ch, m, Request(ROOT, false)).0.current == ROOT
  {
    MoveIsSane(ch, m, Request(ROOT, false));
    hide Exit, HistorySuper, Entry;
  }

  lemma LeavingEverything(ch: Chart, m: Config)
    requires ChartOk(ch) && Inv(ch, m)
    ensures var r := Settled(ch, m, Request(ROOT, false));
            r.current == ROOT && Active(r.log) == {} && forall s <- r.boxes :: ch.box(s) != Own
  {
    MoveIsSane(ch, m, Request(ROOT, false));
    MoveKeepsInv(ch, m, Request(ROOT, false));
    RootIsFinal(ch, m);
    hide Settled, Moved, Sane, HistoryOk;
  }

  /** After a shutdown every state has been left, and only boxes that are not the states' own remain. */
  lemma ShutdownLeavesEverything(ch: Chart, start: State, calls: seq<Call>)
    requires ChartOk(ch) && |start| <= ch.depth && forall c <- calls :: Proper(ch, c)
    ensures var m := Settled(ch, After(ch, start, calls), Request(ROOT, false));
            m.current == ROOT && Active(m.log) == {} && forall s <- m.boxes :: ch.box(s) != Own
  {
    InvAfterEveryRun(ch, start, calls);
    hide Inv, After, Settled;
    LeavingEverything(ch, After(ch, start, calls));
  }
}
