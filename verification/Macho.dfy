/** What a hierarchical state machine engine does: entry and exit along the state tree, pending
    transitions, init chaining and history, as functions on its state. */
module Macho {
  import opened Basics

  /** A state is named by the path that leads to it from Root. */
  type State = seq<nat>

  const ROOT: State := []

  function Parent(s: State): State
    requires s != ROOT
  {
    s[..|s| - 1]
  }

  /** Whether t is s or a superstate of s. */
  predicate IsChild(s: State, t: State)
    decreases |s|
  {
    s == t || (s != ROOT && IsChild(Parent(s), t))
  }

  lemma {:induction false} IsChildIsPrefix(s: State, t: State)
    ensures IsChild(s, t) <==> t <= s
    decreases |s|
  {
    if s != t && s != ROOT {
      IsChildIsPrefix(Parent(s), t);
    }
  }

  datatype Strategy = NoHistory | Shallow | Deep

  datatype BoxKind = Empty | Own | Persistent

  /** A requested transition, to the state or to its history. */
  datatype Request = Request(target: State, useHistory: bool)

  /** What the user's state classes say: the strategies, the boxes, and what the init action of a
      state requests, which may differ from one time to the next. */
  datatype Chart = Chart(depth: nat, strategy: State -> Strategy, box: State -> BoxKind, init: (State, nat) -> Option<Request>)

  /** States are at most `depth` deep, and inits request only proper substates. */
  ghost predicate ChartOk(ch: Chart) {
    && ch.strategy(ROOT) == NoHistory
    && (forall n: nat :: ch.init(ROOT, n) == None)
    && forall s: State, n: nat :: ch.init(s, n).Some? ==> s < ch.init(s, n).value.target && |ch.init(s, n).value.target| <= ch.depth
  }

  /** What happens, in order: a state's entry, exit or init action runs, a state stops being the
      current one, the user clears the history of a
      state, or of a state and all its substates. */
  datatype Note = Enter(s: State) | Leave(s: State) | Init(s: State) | Quit(s: State) | Forget(s: State) | ForgetDeep(s: State)

  /** What an event handler does: it may request a transition and dispatch another event. */
  datatype Reaction = Reaction(request: Option<Request>, again: bool)

  datatype Config = Config(current: State, history: map<State, State>, boxes: set<State>, log: seq<Note>)

  ghost predicate AllBelow(ch: Chart, h: map<State, State>) {
    forall s <- h.Keys :: s < h[s] && |h[s]| <= ch.depth
  }

  ghost predicate Sane(ch: Chart, m: Config) {
    |m.current| <= ch.depth && AllBelow(ch, m.history)
  }

  predicate Valid(ch: Chart, r: Option<Request>) {
    r.Some? ==> |r.value.target| <= ch.depth
  }

  predicate AllValid(ch: Chart, script: seq<Reaction>) {
    forall r <- script :: Valid(ch, r.request)
  }

  // ---------------------------------------------------------------------------------
  // What the engine does, as functions on its state

  function Left(ch: Chart, m: Config, s: State): Config {
    m.(log := m.log + [Leave(s)], boxes := if ch.box(s) == Own then m.boxes - {s} else m.boxes)
  }

  function Entered(m: Config, s: State): Config {
    m.(boxes := m.boxes + {s}, log := m.log + [Enter(s)])
  }

  function Exit(ch: Chart, m: Config, s: State, next: State): (r: Config)
    ensures r.history == m.history && r.current == m.current
    decreases |s|
  {
    if s != ROOT && (s == next || !IsChild(next, s)) then Exit(ch, Left(ch, m, s), Parent(s), next) else m
  }

  function Entry(m: Config, s: State, previous: State, first: bool): (r: Config)
    ensures r.history == m.history && r.current == m.current
    decreases |s|
  {
    if s != ROOT && (first || !IsChild(previous, s)) then Entered(Entry(m, Parent(s), previous, false), s) else m
  }

  predicate HistoryAbove(ch: Chart, s: State)
    decreases |s|
  {
    s != ROOT && (ch.strategy(Parent(s)) != NoHistory || HistoryAbove(ch, Parent(s)))
  }

  function Recorded(ch: Chart, h: map<State, State>, owner: State, shallow: State, deep: State): map<State, State> {
    match ch.strategy(owner)
    case NoHistory => h
    case Shallow => h[owner := shallow]
    case Deep => h[owner := deep]
  }

  /** Bubbles up as long as some superstate keeps a history. */
  function SaveHistory(ch: Chart, h: map<State, State>, owner: State, shallow: State, deep: State): map<State, State>
    decreases |owner|
  {
    var h1 := Recorded(ch, h, owner, shallow, deep);
    if HistoryAbove(ch, owner) then SaveHistory(ch, h1, Parent(owner), owner, deep) else h1
  }

  function HistorySuper(ch: Chart, h: map<State, State>, s: State): map<State, State> {
    if s == ROOT then h else SaveHistory(ch, h, Parent(s), s, s)
  }

  /** The state after the init action, and the transition it requests. */
  function Initialized(ch: Chart, m: Config, useHistory: bool): (Config, Option<Request>) {
    var s := m.current;
    (m.(history := m.history - {s}, log := m.log + [Init(s)]),
     if useHistory && s in m.history then Some(Request(m.history[s], false)) else ch.init(s, |m.log|))
  }

  /** One transition up to and including the init action of its target. */
  function Moved(ch: Chart, m: Config, r: Request): (Config, Option<Request>) {
    var m1 := Exit(ch, m, m.current, r.target);
    var m2 := m1.(history := HistorySuper(ch, m1.history, m.current), current := r.target, log := m1.log + [Quit(m.current)]);
    Initialized(ch, Entry(m2, r.target, m.current, true), r.useHistory)
  }

  lemma {:induction false} SaveHistoryStaysBelow(ch: Chart, h: map<State, State>, owner: State, shallow: State, deep: State)
    requires owner < shallow <= deep && |deep| <= ch.depth
    requires AllBelow(ch, h)
    ensures AllBelow(ch, SaveHistory(ch, h, owner, shallow, deep))
    decreases |owner|
  {
    assert owner < deep && |shallow| <= |deep|;
    if HistoryAbove(ch, owner) {
      var h1 := Recorded(ch, h, owner, shallow, deep);
      assert Parent(owner) < owner;
      SaveHistoryStaysBelow(ch, h1, Parent(owner), owner, deep);
      assert SaveHistory(ch, h, owner, shallow, deep) == SaveHistory(ch, h1, Parent(owner), owner, deep);
    }
  }

  lemma MoveIsSane(ch: Chart, m: Config, r: Request)
    requires ChartOk(ch) && Sane(ch, m) && |r.target| <= ch.depth
    ensures var (m', next) := Moved(ch, m, r);
            && m'.current == r.target && Sane(ch, m')
            && (next.Some? ==> r.target < next.value.target && |next.value.target| <= ch.depth)
  {
    hide Exit, Entry;
    if m.current != ROOT {
      assert Parent(m.current) < m.current;
      SaveHistoryStaysBelow(ch, m.history, Parent(m.current), m.current, m.current);
    }
    var h := HistorySuper(ch, m.history, m.current);
    var m1 := Exit(ch, m, m.current, r.target);
    var m2 := m1.(history := h, current := r.target, log := m1.log + [Quit(m.current)]);
    var m3 := Entry(m2, r.target, m.current, true);
    assert Moved(ch, m, r) == Initialized(ch, m3, r.useHistory);
  }

  /** Transitions until no init requests another one: each goes deeper, so this ends. */
  ghost function Settled(ch: Chart, m: Config, r: Request): (m': Config)
    requires ChartOk(ch) && Sane(ch, m) && |r.target| <= ch.depth
    ensures Sane(ch, m') && r.target <= m'.current
    decreases ch.depth - |r.target|
  {
    MoveIsSane(ch, m, r);
    var (m1, next) := Moved(ch, m, r);
    if next == None then m1 else Settled(ch, m1, next.value)
  }

  /** Pending transitions and events, one after the other; `script` says how the handlers react. */
  ghost function Rattled(ch: Chart, m: Config, pending: Option<Request>, event: bool, script: seq<Reaction>): (m': Config)
    requires ChartOk(ch) && Sane(ch, m) && Valid(ch, pending) && AllValid(ch, script)
    ensures Sane(ch, m')
    decreases |script|
  {
    var m1 := if pending.Some? then Settled(ch, m, pending.value) else m;
    if event && script != [] then Rattled(ch, m1, script[0].request, script[0].again, script[1..]) else m1
  }

  function Forgotten(m: Config, s: State): Config {
    m.(history := m.history - {s}, log := m.log + [Forget(s)])
  }

  ghost function ForgottenDeep(m: Config, s: State): Config {
    m.(history := map t <- m.history | !IsChild(t, s) :: m.history[t], log := m.log + [ForgetDeep(s)])
  }
}
