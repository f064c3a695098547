/** The engine itself, with its pending transition and event. */
module MachoEngine {
  import opened Basics
  import opened Macho
  import opened MachoRuns

  lemma {:induction false} ExitBoxes(ch: Chart, m: Config, s: State, next: State, x: State)
    requires Stop(s, next) <= s
    ensures x in Exit(ch, m, s, next).boxes <==> x in m.boxes && !(ch.box(x) == Own && Leave(x) in Leaves(s, Stop(s, next)))
    decreases |s|
  {
    StopIsCommon(s, next);
    if s != ROOT && (s == next || !IsChild(next, s)) {
      StopIsCommon(Parent(s), next);
      ExitBoxes(ch, Left(ch, m, s), Parent(s), next, x);
    } else {
      assert Stop(s, next) == s;
    }
  }

  lemma ExitMeans(ch: Chart, m: Config, s: State, next: State)
    ensures var m' := Exit(ch, m, s, next);
            exists a: State :: IsMeeting(a, s, next) && a <= s && m'.log == m.log + Leaves(s, a)
                               && forall x :: x in m'.boxes <==> x in m.boxes && !(ch.box(x) == Own && Leave(x) in Leaves(s, a))
  {
    var a := Stop(s, next);
    StopIsMeeting(s, next);
    StopIsCommon(s, next);
    ExitPath(ch, m, s, next);
    var m' := Exit(ch, m, s, next);
    forall x ensures x in m'.boxes <==> x in m.boxes && !(ch.box(x) == Own && Leave(x) in Leaves(s, a)) {
      ExitBoxes(ch, m, s, next, x);
    }
    hide Exit, Leaves, IsMeeting, Stop;
  }

  lemma EntryMeans(m: Config, s: State, previous: State)
    ensures exists a: State :: IsMeeting(a, previous, s) && a <= s && Entry(m, s, previous, true).log == m.log + Enters(a, s)
  {
    StopIsMeeting(previous, s);
    TargetPath(m, s, previous);
  }

  lemma SlotsSaved(ch: Chart, h: map<State, State>, owner: State, shallow: State, deep: State)
    ensures shallow != ROOT && owner == Parent(shallow) && shallow <= deep ==>
              forall x :: Slot(SaveHistory(ch, h, owner, shallow, deep), x)
                          == if x < shallow && ch.strategy(x) != NoHistory then Due(ch.strategy(x), x, Some(deep)) else Slot(h, x)
  {
    if shallow != ROOT && owner == Parent(shallow) && shallow <= deep {
      forall x: State
        ensures Slot(SaveHistory(ch, h, owner, shallow, deep), x)
             == if x < shallow && ch.strategy(x) != NoHistory then Due(ch.strategy(x), x, Some(deep)) else Slot(h, x)
      {
        assert x < shallow <==> x <= owner;
        BubblingSetsSlots(ch, h, owner, shallow, deep, x);
      }
    }
  }

  class Machine {
    const chart: Chart
    var currentState: State
    var running: bool
    var pendingState: Option<Request>
    var pendingEvent: bool
    var history: map<State, State>
    var boxes: set<State>
    var log: seq<Note>

    ghost function View(): Config
      reads this
    {
      Config(currentState, history, boxes, log)
    }

    /** Between calls: entry and exit order, boxes and history are right, and nothing is pending. */
    ghost predicate Ready()
      reads this
    {
      ChartOk(chart) && Inv(chart, View()) && running && pendingState == None && !pendingEvent
    }

    constructor (chart: Chart, start: State)
      requires ChartOk(chart) && |start| <= chart.depth
      ensures this.chart == chart && Ready() && start <= currentState
      ensures CarriedOut(chart, log, 0, Request(start, false), currentState)
      ensures View() == Settled(chart, Config(ROOT, map[], {}, []), Request(start, false))
    {
      this.chart, currentState, running, pendingState, pendingEvent := chart, ROOT, true, None, false;
      history, boxes, log := map[], {}, [];
      new;
      assert Inv(chart, Config(ROOT, map[], {}, []));
      SetState(Request(start, false));
    }

    /** Leaves s and its superstates bottom-up as far as the innermost strict superstate of the
        target; their own boxes go. */
    method ExitState(s: State, next: State)
      modifies this`log, this`boxes
      ensures exists a: State :: IsMeeting(a, s, next) && a <= s && log == old(log) + Leaves(s, a)
                                 && forall x :: x in boxes <==> x in old(boxes) && !(chart.box(x) == Own && Leave(x) in Leaves(s, a))
      ensures View() == Exit(chart, old(View()), s, next)
      decreases |s|
    {
      ExitMeans(chart, View(), s, next);
      if s == ROOT {
        return;
      }
      if s == next || !IsChild(next, s) {
        log := log + [Leave(s)];
        if chart.box(s) == Own {
          boxes := boxes - {s};
        }
        ExitState(Parent(s), next);
      }
    }

    /** For a target: enters it and its superstates top-down from where the exits stopped. */
    method EnterState(s: State, previous: State, first: bool)
      modifies this`log, this`boxes
      ensures first ==> exists a: State :: IsMeeting(a, previous, s) && a <= s && log == old(log) + Enters(a, s)
      ensures View() == Entry(old(View()), s, previous, first)
      decreases |s|
    {
      EntryMeans(View(), s, previous);
      if s == ROOT {
        return;
      }
      if first || !IsChild(previous, s) {
        EnterState(Parent(s), previous, false);
        if s !in boxes {
          boxes := boxes + {s};
        }
        log := log + [Enter(s)];
      }
    }

    /** Every superstate of `shallow` that keeps a history gets its slot by its own strategy, and
        no other slot changes. */
    method SaveHistoryOf(owner: State, shallow: State, deep: State)
      modifies this`history
      ensures shallow != ROOT && owner == Parent(shallow) && shallow <= deep ==>
                forall x :: Slot(history, x) == if x < shallow && chart.strategy(x) != NoHistory
                                                then Due(chart.strategy(x), x, Some(deep)) else Slot(old(history), x)
      ensures history == SaveHistory(chart, old(history), owner, shallow, deep)
      decreases |owner|
    {
      SlotsSaved(chart, history, owner, shallow, deep);
      match chart.strategy(owner) {
        case NoHistory =>
        case Shallow => history := history[owner := shallow];
        case Deep => history := history[owner := deep];
      }
      if HistoryAbove(chart, owner) {
        SaveHistoryOf(Parent(owner), owner, deep);
      }
    }

    method InitState(useHistory: bool)
      modifies this`history, this`log, this`pendingState
      ensures Initialized(chart, old(View()), useHistory) == (View(), pendingState)
    {
      var s := currentState;
      if useHistory && s in history {
        pendingState := Some(Request(history[s], false));
      } else {
        pendingState := chart.init(s, |log|);
      }
      log := log + [Init(s)];
      history := history - {s};
    }

    /** The body of the inner loop: one transition up to and including the init of its target. */
    method Transition(r: Request)
      modifies this`currentState, this`pendingState, this`history, this`boxes, this`log
      ensures Moved(chart, old(View()), r) == (View(), pendingState)
    {
      hide Inv, Settled, Exit, Entry, SaveHistory, IsMeeting, Leaves, Enters;
      ExitState(currentState, r.target);
      if currentState != ROOT {
        SaveHistoryOf(Parent(currentState), currentState, currentState);
      }
      log := log + [Quit(currentState)];
      var previous := currentState;
      currentState := r.target;
      EnterState(currentState, previous, true);
      pendingState := None;
      InitState(r.useHistory);
    }

    /** The inner loop: ends in the target or below it, and carries out the request and what the
        inits and the history then ask for. */
    method PerformTransitions()
      requires ChartOk(chart) && Sane(chart, View()) && Valid(chart, pendingState)
      modifies this`currentState, this`pendingState, this`history, this`boxes, this`log
      ensures pendingState == None && Sane(chart, View())
      ensures old(Inv(chart, View())) ==> Inv(chart, View())
      ensures old(pendingState).Some? ==> old(pendingState).value.target <= currentState
      ensures old(Inv(chart, View())) && old(pendingState).Some? ==>
                old(log) <= log && CarriedOut(chart, log, old(|log|), old(pendingState).value, currentState)
      ensures View() == if old(pendingState).Some? then Settled(chart, old(View()), old(pendingState).value) else old(View())
    {
      hide Inv, Moved, CarriedOut;
      if pendingState.Some? && Inv(chart, View()) {
        SettlingKeepsInv(chart, View(), pendingState.value);
        SettledCarriesOut(chart, View(), pendingState.value);
      }
      while pendingState.Some?
        invariant Sane(chart, View()) && Valid(chart, pendingState)
        invariant (if pendingState.Some? then Settled(chart, View(), pendingState.value) else View())
               == (if old(pendingState).Some? then Settled(chart, old(View()), old(pendingState).value) else old(View()))
        decreases pendingState.Some?, if pendingState.Some? then chart.depth - |pendingState.value.target| else 0
      {
        MoveIsSane(chart, View(), pendingState.value);
        Transition(pendingState.value);
      }
    }

    /** The outer loop: carries out the pending request and then what the handlers request. */
    method RattleOn(script: seq<Reaction>)
      requires ChartOk(chart) && Sane(chart, View()) && Valid(chart, pendingState) && AllValid(chart, script)
      modifies this`currentState, this`pendingState, this`pendingEvent, this`history, this`boxes, this`log
      ensures pendingState == None && !pendingEvent && Sane(chart, View())
      ensures old(Inv(chart, View())) ==> Inv(chart, View())
      ensures old(Inv(chart, View())) ==>
                old(log) <= log &&
                WorkedOff(chart, log, old(|log|), old(currentState), old(pendingState), old(pendingEvent), script, currentState)
      ensures View() == Rattled(chart, old(View()), old(pendingState), old(pendingEvent), script)
    {
      hide WorkedOff, Inv;
      if Inv(chart, View()) {
        RattlingKeepsInv(chart, View(), pendingState, pendingEvent, script);
        RattledWorksOff(chart, View(), pendingState, pendingEvent, script);
      }
      var rest := script;
      while pendingState.Some? || pendingEvent
        invariant Sane(chart, View()) && Valid(chart, pendingState) && AllValid(chart, rest)
        invariant Rattled(chart, View(), pendingState, pendingEvent, rest)
               == Rattled(chart, old(View()), old(pendingState), old(pendingEvent), script)
        decreases |rest|, pendingEvent, pendingState.Some?
      {
        PerformTransitions();
        if pendingEvent {
          pendingEvent := false;
          if rest != [] {
            pendingState, pendingEvent := rest[0].request, rest[0].again;
            rest := rest[1..];
          }
        }
      }
    }

    /** Goes to the target, or to what it remembers, and on where the inits say. */
    method SetState(r: Request)
      requires Ready() && |r.target| <= chart.depth
      modifies this`currentState, this`pendingState, this`pendingEvent, this`history, this`boxes, this`log
      ensures Ready() && r.target <= currentState && View() == Settled(chart, old(View()), r)
      ensures old(log) <= log && CarriedOut(chart, log, old(|log|), r, currentState)
      ensures match if r.useHistory then Due(chart.strategy(r.target), r.target, LastCurrent(old(View()), r.target)) else None
              case Some(d) => d <= currentState && ((forall n: nat :: chart.init(d, n) == None) ==> currentState == d)
              case None => exists n: nat :: match chart.init(r.target, n) case None => currentState == r.target
                                                                          case Some(q) => q.target <= currentState
    {
      HistoryLeadsBack(chart, View(), r);
      SettledCarriesOut(chart, View(), r);
      hide Inv, Settled, CarriedOut, WorkedOff, LastCurrent, Due;
      pendingState := Some(r);
      RattleOn([]);
    }

    /** An event arrives; the first reaction is that of its handler. What it requests is carried
        out, and then what the handlers of further events request. */
    method Dispatch(first: Reaction, script: seq<Reaction>)
      requires Ready() && Valid(chart, first.request) && AllValid(chart, script)
      modifies this`currentState, this`pendingState, this`pendingEvent, this`history, this`boxes, this`log
      ensures Ready() && View() == Rattled(chart, old(View()), first.request, first.again, script)
      ensures old(log) <= log
      ensures WorkedOff(chart, log, old(|log|), old(currentState), first.request, first.again, script, currentState)
    {
      assert Sane(chart, View());
      hide Inv, WorkedOff, Rattled;
      pendingState, pendingEvent := first.request, first.again;
      RattleOn(script);
    }

    method ClearHistory(s: State)
      requires Ready()
      modifies this`history, this`log
      ensures Ready() && View() == Forgotten(old(View()), s)
    {
      ForgettingKeepsInv(chart, View(), s);
      history := history - {s};
      log := log + [Forget(s)];
    }

    /** Goes through all slots. */
    method ClearHistoryDeep(s: State)
      requires Ready()
      modifies this`history, this`log
      ensures Ready() && View() == ForgottenDeep(old(View()), s)
    {
      ForgettingKeepsInv(chart, View(), s);
      var rest := history.Keys;
      while rest != {}
        invariant log == old(log) && rest <= old(history).Keys && history.Keys <= old(history).Keys
        invariant forall t <- old(history) :: t in history <==> (t in rest || !IsChild(t, s))
        invariant forall t <- history :: history[t] == old(history)[t]
        decreases rest
      {
        var t :| t in rest;
        if IsChild(t, s) {
          history := history - {t};
        }
        rest := rest - {t};
      }
      assert history == ForgottenDeep(old(View()), s).history;
      log := log + [ForgetDeep(s)];
    }

    /** Leaves every state; no own box is live any more. */
    method Shutdown()
      requires Ready()
      modifies this
      ensures currentState == ROOT && Active(log) == {} && forall s <- boxes :: chart.box(s) != Own
      ensures !running && View() == Settled(chart, old(View()), Request(ROOT, false))
    {
      LeavingEverything(chart, View());
      SetState(Request(ROOT, false));
      running := false;
    }
  }
}
