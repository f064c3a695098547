/** The controller of staged operations, with the operation under way. */
module LifecycleModules {
  import opened Basics
  import opened Lifecycle
  import opened LifecycleRuns

  lemma ResumingMeans(su: Setup, op: Operation)
    ensures AtStage(su, op, op.stage) ==>
              var r := Resumed(su, op);
              (if Over(su, r) then Ended(su, r) else Waiting(su, r)) && r.insideInitiate == op.insideInitiate
  {
    if AtStage(su, op, op.stage) {
      ResumingEndsOrWaits(su, op, op.stage);
      EndedOrWaiting(su, Resumed(su, op));
    }
    hide AtStage, Ended, Waiting, Resumed;
  }

  class LifecycleController {
    const setup: Setup
    var currentStage: nat
    var pendingList: seq<Callback>
    var insideInitiateOperation: bool
    var spareCallback: Option<nat>
    var made: nat
    var log: seq<Note>

    ghost function View(): Operation
      reads this
    {
      Operation(currentStage, pendingList, insideInitiateOperation, spareCallback, made, log)
    }

    constructor (setup: Setup)
      ensures this.setup == setup && spareCallback == None && made == 0 && log == []
    {
      this.setup := setup;
      currentStage, pendingList, insideInitiateOperation, spareCallback, made, log := 0, [], false, None, 0, [];
    }

    /** Afterwards either all stages are over, or exactly the pending modules still owe a callback
        for the stage that has been begun. */
    method InitiateOperation() returns (completed: bool)
      requires pendingList == [] && log == []
      modifies this
      ensures if completed then Ended(setup, View()) else Waiting(setup, View())
      ensures insideInitiateOperation
      ensures View() == Initiated(setup, old(spareCallback), old(made))
      ensures completed == Over(setup, View())
    {
      currentStage, insideInitiateOperation := 0, true;
      assert AtStage(setup, View(), 0);
      completed := ResumeOperation();
    }

    /** Goes on from stage to stage: the barrier holds before, and so it does after. */
    method ResumeOperation() returns (completed: bool)
      requires pendingList == []
      modifies this
      ensures old(AtStage(setup, View(), currentStage)) ==>
                (if completed then Ended(setup, View()) else Waiting(setup, View())) && insideInitiateOperation == old(insideInitiateOperation)
      ensures View() == Resumed(setup, old(View()))
      ensures completed == Over(setup, View())
    {
      ResumingMeans(setup, View());
      while currentStage < setup.numStages
        invariant pendingList == []
        invariant Resumed(setup, View()) == Resumed(setup, old(View()))
        decreases setup.numStages - currentStage
      {
        ghost var op := View();
        DoOneStage(setup.root);
        StageStays(setup, op, setup.root);
        if pendingList == [] {
          currentStage := currentStage + 1;
        } else {
          return false;
        }
      }
      if setup.wantsNotice && !insideInitiateOperation {
        log := log + [Completed];
      }
      completed := true;
    }

    /** Asks exactly the participants of the tree, each once; those not done at once are pending. */
    method DoOneStage(m: Module)
      modifies this
      ensures HasAsked(setup, old(View()), View(), Participants(m))
      ensures View() == OneStage(setup, old(View()), m)
      decreases m, 1
    {
      StageAsks(setup, View(), m);
      hide HasAsked, Participants;
      if m.participates {
        var number := made;
        if spareCallback.Some? {
          number := spareCallback.value;
        } else {
          made := made + 1;
        }
        log := log + [Asked(m.id, currentStage)];
        if !setup.doneAtOnce(m.id, currentStage) {
          pendingList := pendingList + [Callback(number, m.id)];
          spareCallback := None;
        } else {
          spareCallback := Some(number);
        }
      }
      label Asked:
      var i := 0;
      while i < |m.submodules|
        invariant i <= |m.submodules|
        invariant AllOf(setup, View(), m.submodules[i..]) == AllOf(setup, old@Asked(View()), m.submodules)
      {
        DoOneStage(m.submodules[i]);
        assert m.submodules[i..][1..] == m.submodules[i + 1..];
        i := i + 1;
      }
    }

    /** Called from the i-th pending callback. One module fewer owes a callback for the stage; when
        none does, the next stages are begun up to one that is pending, or all are over. */
    method ModuleOperationStageCompleted(i: nat)
      requires i < |pendingList|
      modifies this
      ensures old(Waiting(setup, View())) ==> Waiting(setup, View()) || (Ended(setup, View()) && !insideInitiateOperation)
      ensures |old(pendingList)| > 1 ==>
                currentStage == old(currentStage) && log == old(log) + [Returned(old(pendingList)[i].module_, currentStage)]
                && pendingList == old(pendingList)[..i] + old(pendingList)[i + 1..]
      ensures View() == CalledBack(setup, old(View()), i)
    {
      if Waiting(setup, View()) {
        CallbackKeepsRest(setup, View(), i);
      }
      hide Waiting, Ended, AtStage;
      log := log + [Returned(pendingList[i].module_, currentStage)];
      pendingList := pendingList[..i] + pendingList[i + 1..];
      if pendingList == [] {
        currentStage := currentStage + 1;
        insideInitiateOperation := false;
        var _ := ResumeOperation();
      }
    }
  }
}
