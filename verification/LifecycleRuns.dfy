/** The barrier of a staged operation, for every module tree and every order of callbacks. */
module LifecycleRuns {
  import opened Basics
  import opened Lifecycle

  // ---------------------------------------------------------------------------------
  // What the log should say

  /** The participants in the order of the traversal. */
  function Participants(m: Module): seq<nat>
    decreases m, 1
  {
    (if m.participates then [m.id] else []) + AllParticipants(m.submodules)
  }

  function AllParticipants(ms: seq<Module>): seq<nat>
    decreases ms, 0
  {
    if ms == [] then [] else Participants(ms[0]) + AllParticipants(ms[1..])
  }

  function Asks(ids: seq<nat>, stage: nat): seq<Note> {
    seq(|ids|, i requires 0 <= i < |ids| => Asked(ids[i], stage))
  }

  /** The first k stages, each asking each participant once. */
  function Rounds(su: Setup, k: nat): seq<Note> {
    if k == 0 then [] else Rounds(su, k - 1) + Asks(Participants(su.root), k - 1)
  }

  function NotDone(su: Setup, ids: seq<nat>, stage: nat): seq<nat> {
    if ids == [] then [] else (if su.doneAtOnce(ids[0], stage) then [] else [ids[0]]) + NotDone(su, ids[1..], stage)
  }

  /** The modules that owe a callback for a stage. */
  function Owing(su: Setup, stage: nat): multiset<nat> {
    multiset(NotDone(su, Participants(su.root), stage))
  }

  function AsksIn(log: seq<Note>): seq<Note> {
    if log == [] then []
    else AsksIn(log[..|log| - 1]) + if log[|log| - 1].Asked? then [log[|log| - 1]] else []
  }

  /** The modules that have called back for a stage. */
  function ReturnsIn(log: seq<Note>, stage: nat): multiset<nat> {
    if log == [] then multiset{}
    else
      var last := log[|log| - 1];
      ReturnsIn(log[..|log| - 1], stage) + if last.Returned? && last.stage == stage then multiset{last.id} else multiset{}
  }

  /** All modules have been asked for the first k stages, and all that were not done at once have
      called back. */
  ghost predicate Finished(su: Setup, log: seq<Note>, k: nat) {
    Rounds(su, k) <= AsksIn(log) && forall j: nat :: j < k ==> ReturnsIn(log, j) == Owing(su, j)
  }

  /** The barrier: a module is asked for a stage only after all earlier stages are finished
      everywhere, and the notice comes after all stages, once. */
  ghost predicate Barrier(su: Setup, log: seq<Note>) {
    log == [] ||
    (var before := log[..|log| - 1];
     && Barrier(su, before)
     && match log[|log| - 1]
        case Asked(_, stage) => stage < su.numStages && Finished(su, before, stage)
        case Returned(_, _) => true
        case Completed => Finished(su, before, su.numStages) && Completed !in before)
  }

  lemma LastOf(log: seq<Note>, n: Note)
    ensures (log + [n])[..|log + [n]| - 1] == log && (log + [n])[|log + [n]| - 1] == n
  {
  }

  lemma {:induction false} NotDoneConcat(su: Setup, a: seq<nat>, b: seq<nat>, stage: nat)
    ensures NotDone(su, a + b, stage) == NotDone(su, a, stage) + NotDone(su, b, stage)
  {
    if a == [] {
      assert a + b == b;
    } else {
      assert (a + b)[1..] == a[1..] + b;
      NotDoneConcat(su, a[1..], b, stage);
    }
  }

  function Modules(pending: seq<Callback>): seq<nat> {
    seq(|pending|, i requires 0 <= i < |pending| => pending[i].module_)
  }

  // ---------------------------------------------------------------------------------
  // One stage

  /** `next` is `op` after the given modules have been asked. */
  ghost predicate HasAsked(su: Setup, op: Operation, next: Operation, ids: seq<nat>) {
    && next.stage == op.stage && next.insideInitiate == op.insideInitiate
    && next.log == op.log + Asks(ids, op.stage)
    && Modules(next.pending) == Modules(op.pending) + NotDone(su, ids, op.stage)
  }

  lemma HasAskedBoth(su: Setup, op: Operation, mid: Operation, next: Operation, a: seq<nat>, b: seq<nat>)
    requires HasAsked(su, op, mid, a) && HasAsked(su, mid, next, b)
    ensures HasAsked(su, op, next, a + b)
  {
    NotDoneConcat(su, a, b, op.stage);
    AsksConcat(op.log, a, b, op.stage);
    hide NotDone, Asks, Modules;
  }

  lemma AsksConcat(log: seq<Note>, a: seq<nat>, b: seq<nat>, stage: nat)
    ensures log + Asks(a + b, stage) == log + Asks(a, stage) + Asks(b, stage)
  {
  }

  /** The traversal asks exactly the participants, each once. */
  lemma {:induction false} StageAsks(su: Setup, op: Operation, m: Module)
    ensures HasAsked(su, op, OneStage(su, op, m), Participants(m))
    decreases m, 1
  {
    var own := if m.participates then [m.id] else [];
    var asked := if m.participates then Asking(su, op, m.id) else op;
    assert Asks(own, op.stage) == if m.participates then [Asked(m.id, op.stage)] else [];
    if m.participates {
      assert own[1..] == [] && NotDone(su, own, op.stage) == if su.doneAtOnce(m.id, op.stage) then [] else [m.id];
    }
    assert HasAsked(su, op, asked, own);
    AllAsk(su, asked, m.submodules);
    HasAskedBoth(su, op, asked, OneStage(su, op, m), own, AllParticipants(m.submodules));
  }

  lemma {:induction false} AllAsk(su: Setup, op: Operation, ms: seq<Module>)
    ensures HasAsked(su, op, AllOf(su, op, ms), AllParticipants(ms))
    decreases ms, 0
  {
    if ms != [] {
      StageAsks(su, op, ms[0]);
      var mid := OneStage(su, op, ms[0]);
      AllAsk(su, mid, ms[1..]);
      HasAskedBoth(su, op, mid, AllOf(su, op, ms), Participants(ms[0]), AllParticipants(ms[1..]));
    }
  }

  /** A longer log with the same callbacks has no fewer stages finished. */
  lemma StaysFinished(su: Setup, log: seq<Note>, log': seq<Note>, k: nat)
    requires Finished(su, log, k) && AsksIn(log) <= AsksIn(log')
    requires forall j: nat :: j < k ==> ReturnsIn(log', j) == ReturnsIn(log, j)
    ensures Finished(su, log', k)
  {
  }

  lemma AskingOne(su: Setup, log: seq<Note>, id: nat, stage: nat)
    ensures var log' := log + [Asked(id, stage)];
            AsksIn(log') == AsksIn(log) + [Asked(id, stage)] && forall j: nat :: ReturnsIn(log', j) == ReturnsIn(log, j)
    ensures Barrier(su, log) && Finished(su, log, stage) && stage < su.numStages ==> Barrier(su, log + [Asked(id, stage)])
  {
    LastOf(log, Asked(id, stage));
    hide Finished;
  }

  /** Asking changes neither the callbacks seen so far nor the barrier. */
  lemma {:induction false} AskingKeepsBarrier(su: Setup, log: seq<Note>, ids: seq<nat>, stage: nat)
    requires Barrier(su, log) && Finished(su, log, stage) && stage < su.numStages
    ensures var log' := log + Asks(ids, stage);
            && Barrier(su, log') && AsksIn(log') == AsksIn(log) + Asks(ids, stage)
            && (forall j: nat :: ReturnsIn(log', j) == ReturnsIn(log, j))
            && (Completed in log' ==> Completed in log)
    decreases |ids|
  {
    AsksSnoc(log, ids, stage);
    hide Barrier, Finished, AsksIn, ReturnsIn, Asks;
    if ids != [] {
      var front, last := ids[..|ids| - 1], ids[|ids| - 1];
      AskingKeepsBarrier(su, log, front, stage);
      var log1 := log + Asks(front, stage);
      StaysFinished(su, log, log1, stage);
      AskingOne(su, log1, last, stage);
    }
  }

  lemma AsksSnoc(log: seq<Note>, ids: seq<nat>, stage: nat)
    ensures ids == [] ==> Asks(ids, stage) == [] && log + Asks(ids, stage) == log
    ensures ids != [] ==> Asks(ids, stage) == Asks(ids[..|ids| - 1], stage) + [Asked(ids[|ids| - 1], stage)]
    ensures ids != [] ==> log + Asks(ids, stage) == (log + Asks(ids[..|ids| - 1], stage)) + [Asked(ids[|ids| - 1], stage)]
  {
  }

  // ---------------------------------------------------------------------------------
  // The invariant

  /** Before stage k. */
  ghost predicate AtStage(su: Setup, op: Operation, k: nat) {
    && op.stage == k <= su.numStages && op.pending == [] && Barrier(su, op.log) && Completed !in op.log
    && AsksIn(op.log) == Rounds(su, k)
    && (forall j: nat :: ReturnsIn(op.log, j) == if j < k then Owing(su, j) else multiset{})
  }

  /** In the middle of a stage: everybody has been asked, and exactly the pending ones still owe
      their callback. */
  ghost predicate Waiting(su: Setup, op: Operation) {
    && op.stage < su.numStages && op.pending != [] && Barrier(su, op.log) && Completed !in op.log
    && AsksIn(op.log) == Rounds(su, op.stage + 1)
    && (forall j: nat :: j != op.stage ==> ReturnsIn(op.log, j) == if j < op.stage then Owing(su, j) else multiset{})
    && ReturnsIn(op.log, op.stage) + multiset(Modules(op.pending)) == Owing(su, op.stage)
  }

  ghost predicate Ended(su: Setup, op: Operation) {
    && op.stage == su.numStages && op.pending == [] && Barrier(su, op.log)
    && AsksIn(op.log) == Rounds(su, su.numStages)
    && (forall j: nat :: j < su.numStages ==> ReturnsIn(op.log, j) == Owing(su, j))
    && (Completed in op.log <==> su.wantsNotice && !op.insideInitiate)
  }

  lemma RoundsStep(su: Setup, k: nat)
    ensures Rounds(su, k + 1) == Rounds(su, k) + Asks(Participants(su.root), k)
  {
  }

  lemma NonePending(pending: seq<Callback>)
    ensures pending == [] <==> Modules(pending) == []
  {
  }

  lemma StageFromStart(su: Setup, op: Operation, k: nat)
    requires AtStage(su, op, k) && k < su.numStages
    ensures var next := OneStage(su, op, su.root);
            && next.insideInitiate == op.insideInitiate
            && if next.pending == [] then AtStage(su, next.(stage := next.stage + 1), k + 1) else Waiting(su, next)
  {
    hide OneStage, Barrier, Asks, Participants, NotDone, AsksIn, ReturnsIn, Rounds, Modules;
    StageAsks(su, op, su.root);
    AskingKeepsBarrier(su, op.log, Participants(su.root), k);
    RoundsStep(su, k);
    NonePending(op.pending);
    NonePending(OneStage(su, op, su.root).pending);
    assert Modules(op.pending) + NotDone(su, Participants(su.root), k) == NotDone(su, Participants(su.root), k);
  }

  lemma NoticeStep(su: Setup, op: Operation)
    requires AtStage(su, op, su.numStages)
    ensures Ended(su, Resumed(su, op)) && Resumed(su, op).insideInitiate == op.insideInitiate
  {
    LastOf(op.log, Completed);
  }

  lemma {:induction false} ResumingEndsOrWaits(su: Setup, op: Operation, k: nat)
    requires AtStage(su, op, k)
    ensures var r := Resumed(su, op);
            (Ended(su, r) || Waiting(su, r)) && r.insideInitiate == op.insideInitiate
    decreases su.numStages - k
  {
    hide AtStage, Ended, Waiting, OneStage, Resumed;
    AtStageIs(su, op, k);
    if k < su.numStages {
      StageFromStart(su, op, k);
      ResumedStep(su, op);
      var next := OneStage(su, op, su.root);
      if next.pending == [] {
        ResumingEndsOrWaits(su, next.(stage := next.stage + 1), k + 1);
      }
    } else {
      NoticeStep(su, op);
    }
  }

  lemma ResumedStep(su: Setup, op: Operation)
    requires op.stage < su.numStages
    ensures var next := OneStage(su, op, su.root);
            && next.stage == op.stage
            && Resumed(su, op) == if next.pending == [] then Resumed(su, next.(stage := next.stage + 1)) else next
  {
    StageStays(su, op, su.root);
    hide OneStage;
  }

  lemma AtStageIs(su: Setup, op: Operation, k: nat)
    requires AtStage(su, op, k)
    ensures op.stage == k <= su.numStages
  {
  }

  lemma ReturnedNote(su: Setup, log: seq<Note>, id: nat, stage: nat)
    requires Barrier(su, log) && Completed !in log
    ensures var log' := log + [Returned(id, stage)];
            && Barrier(su, log') && Completed !in log' && AsksIn(log') == AsksIn(log)
            && (forall j: nat :: j != stage ==> ReturnsIn(log', j) == ReturnsIn(log, j))
            && ReturnsIn(log', stage) == ReturnsIn(log, stage) + multiset{id}
  {
    LastOf(log, Returned(id, stage));
    hide Finished;
  }

  lemma OneLess(pending: seq<Callback>, i: nat)
    requires i < |pending|
    ensures multiset(Modules(pending)) == multiset(Modules(pending[..i] + pending[i + 1..])) + multiset{pending[i].module_}
  {
    var ms := Modules(pending);
    assert ms == ms[..i] + [ms[i]] + ms[i + 1..];
    assert Modules(pending[..i] + pending[i + 1..]) == ms[..i] + ms[i + 1..];
  }

  function Taken(op: Operation, i: nat): Operation
    requires i < |op.pending|
  {
    op.(pending := op.pending[..i] + op.pending[i + 1..], log := op.log + [Returned(op.pending[i].module_, op.stage)])
  }

  lemma OnlyOne(pending: seq<Callback>)
    requires |pending| == 1
    ensures multiset(Modules(pending)) == multiset{pending[0].module_}
  {
    assert Modules(pending) == [pending[0].module_];
  }

  lemma LastCallback(su: Setup, op: Operation)
    requires Waiting(su, op) && |op.pending| == 1
    ensures AtStage(su, Taken(op, 0).(stage := op.stage + 1, insideInitiate := false), op.stage + 1)
  {
    hide Barrier, AsksIn, ReturnsIn, Owing, Rounds, Modules;
    ReturnedNote(su, op.log, op.pending[0].module_, op.stage);
    OnlyOne(op.pending);
  }

  lemma EarlierCallback(su: Setup, op: Operation, i: nat)
    requires Waiting(su, op) && i < |op.pending| && |op.pending| > 1
    ensures Waiting(su, Taken(op, i))
  {
    hide Barrier, AsksIn, ReturnsIn, Owing, Rounds, Modules;
    ReturnedNote(su, op.log, op.pending[i].module_, op.stage);
    OneLess(op.pending, i);
  }

  lemma CallbackKeepsRest(su: Setup, op: Operation, i: nat)
    requires Waiting(su, op) && i < |op.pending|
    ensures Ended(su, CalledBack(su, op, i)) || Waiting(su, CalledBack(su, op, i))
    ensures Ended(su, CalledBack(su, op, i)) ==> !CalledBack(su, op, i).insideInitiate
  {
    hide AtStage, Ended, Waiting, Resumed;
    var rest := Taken(op, i);
    if |op.pending| == 1 {
      LastCallback(su, op);
      ResumingEndsOrWaits(su, rest.(stage := rest.stage + 1, insideInitiate := false), op.stage + 1);
    } else {
      EarlierCallback(su, op, i);
      EndedOrWaiting(su, rest);
    }
  }

  // ---------------------------------------------------------------------------------
  // Whole runs

  /** The operation after callbacks of the given pending modules, as long as any are pending. */
  function After(su: Setup, spare: Option<nat>, made: nat, picks: seq<nat>): Operation
    decreases |picks|
  {
    if picks == [] then Initiated(su, spare, made)
    else
      var op := After(su, spare, made, picks[..|picks| - 1]);
      if op.pending == [] then op else CalledBack(su, op, picks[|picks| - 1] % |op.pending|)
  }

  lemma {:induction false} RunsEndOrWait(su: Setup, spare: Option<nat>, made: nat, picks: seq<nat>)
    ensures var first := Initiated(su, spare, made); var op := After(su, spare, made, picks);
            && (Ended(su, op) || Waiting(su, op))
            && (Ended(su, first) ==> op == first && op.insideInitiate)
            && (Ended(su, op) && !Ended(su, first) ==> !op.insideInitiate)
    decreases |picks|
  {
    if picks == [] {
      var start := Operation(0, [], true, spare, made, []);
      assert AtStage(su, start, 0);
      ResumingEndsOrWaits(su, start, 0);
    } else {
      var before := picks[..|picks| - 1];
      RunsEndOrWait(su, spare, made, before);
      var op := After(su, spare, made, before);
      EndedOrWaiting(su, op);
      if op.pending != [] {
        CallbackKeepsRest(su, op, picks[|picks| - 1] % |op.pending|);
        hide Ended, Waiting, CalledBack;
      }
    }
  }

  lemma EndedOrWaiting(su: Setup, op: Operation)
    ensures Ended(su, op) ==> op.pending == [] && Over(su, op)
    ensures Waiting(su, op) ==> op.pending != [] && !Over(su, op)
  {
  }

  /** In every run: the asks so far are exactly one for each participant and stage begun, in
      order, and no stage was begun before the previous one was finished everywhere. */
  lemma BarrierInEveryRun(su: Setup, spare: Option<nat>, made: nat, picks: seq<nat>)
    ensures var op := After(su, spare, made, picks);
            && Barrier(su, op.log)
            && AsksIn(op.log) == Rounds(su, if Over(su, op) then su.numStages else op.stage + 1)
  {
    hide Barrier, AsksIn, ReturnsIn, Rounds, Modules, Owing, After, Initiated;
    RunsEndOrWait(su, spare, made, picks);
  }

  /** The notice is given exactly if one was asked for, the initiating call returned false, and
      every callback has come since. */
  lemma NoticeExactlyWhen(su: Setup, spare: Option<nat>, made: nat, picks: seq<nat>)
    ensures var op := After(su, spare, made, picks);
            && (Completed in op.log <==> su.wantsNotice && !Over(su, Initiated(su, spare, made)) && Over(su, op))
            && (Over(su, op) <==> forall j: nat :: j < su.numStages ==> ReturnsIn(op.log, j) == Owing(su, j))
  {
    hide Barrier, AsksIn, ReturnsIn, Rounds, Owing, Initiated;
    RunsEndOrWait(su, spare, made, picks);
    RunsEndOrWait(su, spare, made, []);
    var op := After(su, spare, made, picks);
    EndedOrWaiting(su, op);
    EndedOrWaiting(su, Initiated(su, spare, made));
    if Waiting(su, op) {
      assert |Modules(op.pending)| > 0;
      assert Modules(op.pending)[0] in multiset(Modules(op.pending));
      assert ReturnsIn(op.log, op.stage) != Owing(su, op.stage);
    }
  }

  // ---------------------------------------------------------------------------------
  // Callback objects are reused but never shared

  ghost predicate Unshared(op: Operation) {
    && (forall i, j :: 0 <= i < j < |op.pending| ==> op.pending[i].number != op.pending[j].number)
    && (forall c <- op.pending :: c.number < op.made && op.spare != Some(c.number))
    && (op.spare.Some? ==> op.spare.value < op.made)
  }

  lemma AskingUnshared(su: Setup, op: Operation, id: nat)
    requires Unshared(op)
    ensures Unshared(Asking(su, op, id))
  {
  }

  lemma {:induction false} StageUnshared(su: Setup, op: Operation, m: Module)
    requires Unshared(op)
    ensures Unshared(OneStage(su, op, m))
    decreases m, 1
  {
    if m.participates {
      AskingUnshared(su, op, m.id);
    }
    AllUnshared(su, if m.participates then Asking(su, op, m.id) else op, m.submodules);
  }

  lemma {:induction false} AllUnshared(su: Setup, op: Operation, ms: seq<Module>)
    requires Unshared(op)
    ensures Unshared(AllOf(su, op, ms))
    decreases ms, 0
  {
    if ms != [] {
      StageUnshared(su, op, ms[0]);
      AllUnshared(su, OneStage(su, op, ms[0]), ms[1..]);
    }
  }

  lemma {:induction false} ResumedUnshared(su: Setup, op: Operation)
    requires Unshared(op)
    ensures Unshared(Resumed(su, op))
    decreases su.numStages - op.stage
  {
    if op.stage < su.numStages {
      StageStays(su, op, su.root);
      StageUnshared(su, op, su.root);
      var next := OneStage(su, op, su.root);
      if next.pending == [] {
        ResumedUnshared(su, next.(stage := next.stage + 1));
      }
    }
  }

  lemma TakenUnshared(op: Operation, i: nat)
    requires Unshared(op) && i < |op.pending|
    ensures Unshared(Taken(op, i))
  {
    assert forall c <- Taken(op, i).pending :: c in op.pending;
  }

  lemma CalledBackUnshared(su: Setup, op: Operation, i: nat)
    requires Unshared(op) && i < |op.pending|
    ensures Unshared(CalledBack(su, op, i))
  {
    TakenUnshared(op, i);
    hide Unshared, Resumed;
    var rest := Taken(op, i);
    StageDoesNotMatter(rest);
    if rest.pending == [] {
      ResumedUnshared(su, rest.(stage := rest.stage + 1, insideInitiate := false));
    }
  }

  /** In every run no two pending modules hold the same callback object, and the spare one is
      held by none. */
  lemma {:induction false} CallbacksUnsharedInEveryRun(su: Setup, spare: Option<nat>, made: nat, picks: seq<nat>)
    requires spare.Some? ==> spare.value < made
    ensures Unshared(After(su, spare, made, picks))
    decreases |picks|
  {
    if picks == [] {
      ResumedUnshared(su, Operation(0, [], true, spare, made, []));
    } else {
      hide Unshared, CalledBack;
      CallbacksUnsharedInEveryRun(su, spare, made, picks[..|picks| - 1]);
      var op := After(su, spare, made, picks[..|picks| - 1]);
      if op.pending != [] {
        CalledBackUnshared(su, op, picks[|picks| - 1] % |op.pending|);
      }
    }
  }

  lemma StageDoesNotMatter(op: Operation)
    requires Unshared(op)
    ensures Unshared(op.(stage := op.stage + 1, insideInitiate := false))
  {
  }

  // ---------------------------------------------------------------------------------
  // The node status as one of the participants

  /** The status of a node after the given asks; None after an error. */
  function Status(su: Setup, k: Kind, node: nat, s0: State, asks: seq<Note>): Option<State> {
    if asks == [] then Some(s0)
    else
      var before, last := Status(su, k, node, s0, asks[..|asks| - 1]), asks[|asks| - 1];
      if before == None || !last.Asked? || last.id != node then before
      else StatusAfterStage(k, before.value, last.stage, su.numStages)
  }

  lemma {:induction false} StatusAfterRound(su: Setup, k: Kind, node: nat, s0: State, asks: seq<Note>, ids: seq<nat>, stage: nat)
    requires multiset(ids)[node] <= 1
    ensures var before := Status(su, k, node, s0, asks);
            Status(su, k, node, s0, asks + Asks(ids, stage))
            == if node !in ids || before == None then before else StatusAfterStage(k, before.value, stage, su.numStages)
    decreases |ids|
  {
    AsksSnoc(asks, ids, stage);
    if ids != [] {
      var front, last := ids[..|ids| - 1], ids[|ids| - 1];
      assert ids == front + [last];
      StatusAfterRound(su, k, node, s0, asks, front, stage);
      LastOf(asks + Asks(front, stage), Asked(last, stage));
      assert last == node ==> node !in front;
      hide Asks, StatusAfterStage;
    }
  }

  /** What the status is after k full rounds. */
  function Expected(k: Kind, rounds: nat, numStages: nat): State {
    if rounds == 0 then Before(k) else if rounds < numStages then Under(k) else Finally(k)
  }

  lemma {:induction false} StatusAfterRounds(su: Setup, k: Kind, node: nat, s0: State, rounds: nat)
    requires k != OtherOperation && multiset(Participants(su.root))[node] == 1 && rounds <= su.numStages
    ensures Status(su, k, node, s0, Rounds(su, rounds))
         == if rounds == 0 then Some(s0) else if s0 == Before(k) then Some(Expected(k, rounds, su.numStages)) else None
  {
    hide Participants, Asks, Modules;
    if rounds > 0 {
      StatusAfterRounds(su, k, node, s0, rounds - 1);
      StatusAfterRound(su, k, node, s0, Rounds(su, rounds - 1), Participants(su.root), rounds - 1);
      assert node in multiset(Participants(su.root));
    }
  }

  /** In every run of an operation that starts in the right status, the status never errs, and it
      has reached its final value exactly if the last stage has begun; by then all earlier stages
      are finished everywhere. */
  lemma StatusInEveryRun(su: Setup, k: Kind, node: nat, spare: Option<nat>, made: nat, picks: seq<nat>)
    requires k != OtherOperation && multiset(Participants(su.root))[node] == 1 && su.numStages > 0
    ensures var op := After(su, spare, made, picks); var status := Status(su, k, node, Before(k), AsksIn(op.log));
            && status.Some? && (status.value == Finally(k) <==> op.stage + 1 >= su.numStages)
            && (status.value == Finally(k) ==> forall j: nat :: j + 1 < su.numStages ==> ReturnsIn(op.log, j) == Owing(su, j))
  {
    hide Barrier, AsksIn, ReturnsIn, Rounds, Modules, Owing, After, Initiated, Status;
    RunsEndOrWait(su, spare, made, picks);
    var op := After(su, spare, made, picks);
    StatusAfterRounds(su, k, node, Before(k), if Over(su, op) then su.numStages else op.stage + 1);
  }

  /** In every run the status errs exactly if the operation starts in the wrong one: a node can only
      be started when it is down, and only be shut down or crash when it is up. Otherwise the node
      is going up or down from the first stage on, and up or down from the last one on. */
  lemma StatusErrsExactlyWhen(su: Setup, k: Kind, node: nat, s0: State, spare: Option<nat>, made: nat, picks: seq<nat>)
    requires k != OtherOperation && multiset(Participants(su.root))[node] == 1 && su.numStages > 0
    ensures var op := After(su, spare, made, picks); var status := Status(su, k, node, s0, AsksIn(op.log));
            && (status == None <==> s0 != if k == NodeStart then DOWN else UP)
            && (status.Some? ==> status.value == if op.stage + 1 < su.numStages then (if k == NodeStart then GOING_UP else GOING_DOWN)
                                                 else if k == NodeStart then UP else DOWN)
  {
    hide Barrier, AsksIn, ReturnsIn, Rounds, Modules, Owing, After, Initiated, Status;
    RunsEndOrWait(su, spare, made, picks);
    var op := After(su, spare, made, picks);
    StatusAfterRounds(su, k, node, s0, if Over(su, op) then su.numStages else op.stage + 1);
  }
}
