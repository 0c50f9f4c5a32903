/** The engine's entities (the models folder) and its three error kinds
    (exceptions/workflowexception.cs), as values. */
module Models {
  import opened Seqs

  /** `DateTime` as a tick count supplied by the caller. */
  type Timestamp = int

  /** A node of a definition's graph. */
  datatype State = State(
    id: string,
    name: string,
    isInitial: bool,
    isFinal: bool,
    enabled: bool)

  /** A named transition from any of `fromStates` to `toState`. */
  datatype Action = Action(
    id: string,
    name: string,
    enabled: bool,
    fromStates: seq<string>,
    toState: string,
    description: Option<string>)

  /** One executed transition, recorded when it happened. */
  datatype HistoryEntry = HistoryEntry(
    actionId: string,
    actionName: string,
    fromStateId: string,
    toStateId: string,
    timestamp: Timestamp)

  datatype WorkflowDefinition = WorkflowDefinition(
    id: string,
    name: string,
    states: seq<State>,
    actions: seq<Action>,
    createdAt: Timestamp,
    description: Option<string>)

  datatype WorkflowInstance = WorkflowInstance(
    id: string,
    workflowDefinitionId: string,
    currentStateId: string,
    history: seq<HistoryEntry>,
    createdAt: Timestamp,
    isCompleted: bool)

  /** The request body of "create definition". */
  datatype CreateDefinitionRequest = CreateDefinitionRequest(
    name: string,
    description: Option<string>,
    states: seq<State>,
    actions: seq<Action>)

  datatype EntityKind = DefinitionEntity | InstanceEntity

  /** What a `WorkflowValidationException` reports. */
  datatype ValidationReason =
    | NameRequired
    | NoStates
    | DuplicateStateIds(ids: seq<string>)
    | NoInitialState
    | MultipleInitialStates
    | StateIdRequired
    | StateNameRequired(stateId: string)
    | DuplicateActionIds(ids: seq<string>)
    | ActionIdRequired
    | ActionNameRequired(actionId: string)
    | NoSourceStates(actionId: string)
    | InvalidSourceStates(actionId: string, invalid: seq<string>)
    | TargetRequired(actionId: string)
    | InvalidTargetState(actionId: string, target: string)
    | ActionNotFound(actionId: string)
    | CurrentStateNotFound(stateId: string)
    | TargetStateNotFound(stateId: string)
    | ActiveInstances(definitionId: string)

  /** What an `InvalidStateTransitionException` reports. */
  datatype TransitionReason =
    | ActionDisabled(actionId: string)
    | FinalState
    | NotFromCurrentState(actionId: string, stateId: string)
    | TargetDisabled(stateId: string)

  /** The three exception kinds the engine raises. */
  datatype WorkflowError =
    | NotFound(kind: EntityKind, id: string)
    | Validation(reason: ValidationReason)
    | InvalidTransition(transition: TransitionReason)

  function StateIds(states: seq<State>): (ids: seq<string>)
    ensures |ids| == |states|
    ensures forall i :: 0 <= i < |states| ==> ids[i] == states[i].id
  {
    seq(|states|, i requires 0 <= i < |states| => states[i].id)
  }

  function ActionIds(actions: seq<Action>): (ids: seq<string>)
    ensures |ids| == |actions|
    ensures forall i :: 0 <= i < |actions| ==> ids[i] == actions[i].id
  {
    seq(|actions|, i requires 0 <= i < |actions| => actions[i].id)
  }

  /** `states.First(s => s.Id == id)`, or nothing. */
  function FindState(states: seq<State>, id: string): (r: Option<State>)
    ensures r.Some? ==> r.value in states && r.value.id == id
    ensures r.None? <==> forall s :: s in states ==> s.id != id
  {
    FirstWhere(states, (s: State) => s.id == id)
  }

  /** `actions.First(a => a.Id == id)`, or nothing. */
  function FindAction(actions: seq<Action>, id: string): (r: Option<Action>)
    ensures r.Some? ==> r.value in actions && r.value.id == id
    ensures r.None? <==> forall a :: a in actions ==> a.id != id
  {
    FirstWhere(actions, (a: Action) => a.id == id)
  }

  /** No two states share an id. */
  predicate UniqueStateIds(states: seq<State>) {
    forall i, j :: 0 <= i < j < |states| ==> states[i].id != states[j].id
  }

  /** No two actions share an id. */
  predicate UniqueActionIds(actions: seq<Action>) {
    forall i, j :: 0 <= i < j < |actions| ==> actions[i].id != actions[j].id
  }

  /** With unique ids, a lookup by id finds the state that carries it. */
  lemma FindStateUnique(states: seq<State>, s: State)
    requires UniqueStateIds(states) && s in states
    ensures FindState(states, s.id) == Some(s)
  {
    forall t | t in states && t.id == s.id ensures t == s {
      var i :| 0 <= i < |states| && states[i] == s;
      var j :| 0 <= j < |states| && states[j] == t;
      assert i == j;
    }
    FirstWhereUnique(states, (x: State) => x.id == s.id, s);
  }

  /** With unique ids, a lookup by id finds the action that carries it. */
  lemma FindActionUnique(actions: seq<Action>, a: Action)
    requires UniqueActionIds(actions) && a in actions
    ensures FindAction(actions, a.id) == Some(a)
  {
    forall b | b in actions && b.id == a.id ensures b == a {
      var i :| 0 <= i < |actions| && actions[i] == a;
      var j :| 0 <= j < |actions| && actions[j] == b;
      assert i == j;
    }
    FirstWhereUnique(actions, (x: Action) => x.id == a.id, a);
  }
}
