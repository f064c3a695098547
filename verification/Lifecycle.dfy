/** Staged operations on a module tree: what the controller does, as functions on the operation,
    and the node status as one participant. */
module Lifecycle {
  import opened Basics

  /** A module; those that participate implement the lifecycle interface. */
  datatype Module = Module(id: nat, participates: bool, submodules: seq<Module>)

  /** The operation and the modules' behaviour: whether a module is done with a stage at once or
      calls back later. */
  datatype Setup = Setup(root: Module, numStages: nat, doneAtOnce: (nat, nat) -> bool, wantsNotice: bool)

  /** A callback object and the module it was given to. */
  datatype Callback = Callback(number: nat, module_: nat)

  /** What can be observed, in order: a module is asked to do a stage, it calls back, and the
      initiator is notified of the completion. */
  datatype Note = Asked(id: nat, stage: nat) | Returned(id: nat, stage: nat) | Completed

  /** An operation under way; `made` counts the callback objects made so far. */
  datatype Operation = Operation(
    stage: nat, pending: seq<Callback>, insideInitiate: bool, spare: Option<nat>, made: nat, log: seq<Note>)

  // ---------------------------------------------------------------------------------
  // What the controller does, as functions on the operation

  function Asking(su: Setup, op: Operation, id: nat): Operation {
    var number := if op.spare.Some? then op.spare.value else op.made;
    var asked := op.(log := op.log + [Asked(id, op.stage)], made := if op.spare.Some? then op.made else op.made + 1);
    if su.doneAtOnce(id, op.stage) then asked.(spare := Some(number))
    else asked.(pending := op.pending + [Callback(number, id)], spare := None)
  }

  /** Asks the module, if it participates, and then its submodules. */
  function OneStage(su: Setup, op: Operation, m: Module): Operation
    decreases m, 1
  {
    AllOf(su, if m.participates then Asking(su, op, m.id) else op, m.submodules)
  }

  function AllOf(su: Setup, op: Operation, ms: seq<Module>): Operation
    decreases ms, 0
  {
    if ms == [] then op else AllOf(su, OneStage(su, op, ms[0]), ms[1..])
  }

  /** Stages until one is pending or all are done. */
  function Resumed(su: Setup, op: Operation): Operation
    decreases su.numStages - op.stage
  {
    if op.stage < su.numStages then
      StageStays(su, op, su.root);
      var next := OneStage(su, op, su.root);
      if next.pending == [] then Resumed(su, next.(stage := next.stage + 1)) else next
    else if su.wantsNotice && !op.insideInitiate then op.(log := op.log + [Completed])
    else op
  }

  function Initiated(su: Setup, spare: Option<nat>, made: nat): Operation {
    Resumed(su, Operation(0, [], true, spare, made, []))
  }

  function CalledBack(su: Setup, op: Operation, i: nat): Operation
    requires i < |op.pending|
  {
    var rest := op.(pending := op.pending[..i] + op.pending[i + 1..], log := op.log + [Returned(op.pending[i].module_, op.stage)]);
    if rest.pending == [] then Resumed(su, rest.(stage := rest.stage + 1, insideInitiate := false)) else rest
  }

  /** Whether all stages are over. */
  predicate Over(su: Setup, op: Operation) {
    op.stage >= su.numStages
  }

  lemma {:induction false} StageStays(su: Setup, op: Operation, m: Module)
    ensures OneStage(su, op, m).stage == op.stage && OneStage(su, op, m).insideInitiate == op.insideInitiate
    decreases m, 1
  {
    AllStay(su, if m.participates then Asking(su, op, m.id) else op, m.submodules);
  }

  lemma {:induction false} AllStay(su: Setup, op: Operation, ms: seq<Module>)
    ensures AllOf(su, op, ms).stage == op.stage && AllOf(su, op, ms).insideInitiate == op.insideInitiate
    decreases ms, 0
  {
    if ms != [] {
      StageStays(su, op, ms[0]);
      AllStay(su, OneStage(su, op, ms[0]), ms[1..]);
    }
  }

  // ---------------------------------------------------------------------------------
  // The node status

  datatype State = UP | DOWN | GOING_UP | GOING_DOWN

  datatype Kind = NodeStart | NodeShutdown | NodeCrash | OtherOperation

  function Before(k: Kind): State {
    if k == NodeStart then DOWN else UP
  }

  function Under(k: Kind): State {
    if k == NodeStart then GOING_UP else GOING_DOWN
  }

  function Finally(k: Kind): State {
    if k == NodeStart then UP else DOWN
  }

  /** None where the source throws. */
  function StatusAfterStage(k: Kind, s: State, stage: nat, numStages: nat): Option<State> {
    if k == OtherOperation then Some(s)
    else if stage == 0 && s != Before(k) then None
    else
      var t := if stage == 0 then Under(k) else s;
      if stage + 1 != numStages then Some(t) else if t != Under(k) then None else Some(Finally(k))
  }

  class NodeStatus {
    var state: State

    constructor (initial: State)
      ensures state == initial
    {
      state := initial;
    }

    /** `ok` is false where the source throws: at the first stage, unless a node that is to start is
        down and one that is to shut down or crash is up; at a last stage that is not the first,
        unless it is going up or down. */
    method HandleOperationStage(k: Kind, stage: nat, numStages: nat) returns (ok: bool)
      modifies this
      ensures k == NodeStart ==>
                && (ok <==> if stage == 0 then old(state) == DOWN else stage + 1 == numStages ==> old(state) == GOING_UP)
                && (ok ==> state == if stage + 1 == numStages then UP else if stage == 0 then GOING_UP else old(state))
      ensures k == NodeShutdown || k == NodeCrash ==>
                && (ok <==> if stage == 0 then old(state) == UP else stage + 1 == numStages ==> old(state) == GOING_DOWN)
                && (ok ==> state == if stage + 1 == numStages then DOWN else if stage == 0 then GOING_DOWN else old(state))
      ensures k == OtherOperation ==> ok && state == old(state)
      ensures StatusAfterStage(k, old(state), stage, numStages) == if ok then Some(state) else None
    {
      ok := true;
      match k {
        case NodeStart =>
          if stage == 0 {
            if state != DOWN {
              return false;
            }
            state := GOING_UP;
          }
          if stage + 1 == numStages {
            if state != GOING_UP {
              return false;
            }
            state := UP;
          }
        case NodeShutdown =>
          ok := GoDown(stage, numStages);
        case NodeCrash =>
          ok := GoDown(stage, numStages);
        case OtherOperation =>
      }
    }

    /** Shutting down and crashing are handled alike. */
    method GoDown(stage: nat, numStages: nat) returns (ok: bool)
      modifies this
      ensures StatusAfterStage(NodeShutdown, old(state), stage, numStages) == if ok then Some(state) else None
    {
      ok := true;
      if stage == 0 {
        if state != UP {
          return false;
        }
        state := GOING_DOWN;
      }
      if stage + 1 == numStages {
        if state != GOING_DOWN {
          return false;
        }
        state := DOWN;
      }
    }
  }
}
