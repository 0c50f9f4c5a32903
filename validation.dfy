/** The definition validator and the transition guard
    (validation/workflowValidator.cs): total, side-effect-free checks that
    report the first rule they find broken. */
module Validation {
  import opened Seqs
  import opened Text
  import opened Models

  predicate IsInitialState(s: State) { s.isInitial }

  // ---------------------------------------------------------------------------
  // Definition validation, in the source's order of checks

  /** `ValidateDefinition`: name, then a non-empty state list, then the states,
      then the actions. */
  function ValidateDefinition(d: WorkflowDefinition): (r: Outcome<WorkflowError>)
    ensures r.Fail? ==> r.error.Validation?
  {
    if IsBlank(d.name) then Fail(Validation(NameRequired))
    else if |d.states| == 0 then Fail(Validation(NoStates))
    else
      match ValidateStates(d.states)
      case Fail(e) => Fail(e)
      case Pass => ValidateActions(d.actions, d.states)
  }

  /** `ValidateStates`: duplicate ids, then the initial-state count, then each
      state's id and name. */
  function ValidateStates(states: seq<State>): (r: Outcome<WorkflowError>)
    ensures r.Fail? ==> r.error.Validation?
  {
    var duplicates := DuplicateKeys(StateIds(states));
    if |duplicates| > 0 then Fail(Validation(DuplicateStateIds(duplicates)))
    else
      var initialStates := Filter(states, IsInitialState);
      if |initialStates| == 0 then Fail(Validation(NoInitialState))
      else if |initialStates| > 1 then Fail(Validation(MultipleInitialStates))
      else FirstFailure(states, CheckState)
  }

  /** The body of the `foreach` over the states. */
  function CheckState(s: State): (r: Outcome<WorkflowError>)
    ensures r.Pass? <==> !IsBlank(s.id) && !IsBlank(s.name)
    ensures r.Fail? ==> r.error.Validation?
  {
    if IsBlank(s.id) then Fail(Validation(StateIdRequired))
    else if IsBlank(s.name) then Fail(Validation(StateNameRequired(s.id)))
    else Pass
  }

  /** `states.Select(s => s.Id).ToHashSet()`. */
  function StateIdSet(states: seq<State>): (ids: set<string>)
    ensures forall id :: id in ids <==> exists s :: s in states && s.id == id
  {
    set s | s in states :: s.id
  }

  /** `ValidateActions`: duplicate ids, then each action in turn. */
  function ValidateActions(actions: seq<Action>, states: seq<State>): (r: Outcome<WorkflowError>)
    ensures r.Fail? ==> r.error.Validation?
  {
    var stateIds := StateIdSet(states);
    var duplicates := DuplicateKeys(ActionIds(actions));
    if |duplicates| > 0 then Fail(Validation(DuplicateActionIds(duplicates)))
    else FirstFailure(actions, (a: Action) => CheckAction(a, stateIds))
  }

  /** The source states of `a` that are not state ids, in their listed order. */
  function InvalidSources(a: Action, stateIds: set<string>): (r: seq<string>)
    ensures forall f :: f in r <==> f in a.fromStates && f !in stateIds
  {
    Filter(a.fromStates, (f: string) => f !in stateIds)
  }

  /** The body of the `foreach` over the actions. */
  function CheckAction(a: Action, stateIds: set<string>): (r: Outcome<WorkflowError>)
    ensures r.Fail? ==> r.error.Validation?
  {
    if IsBlank(a.id) then Fail(Validation(ActionIdRequired))
    else if IsBlank(a.name) then Fail(Validation(ActionNameRequired(a.id)))
    else if |a.fromStates| == 0 then Fail(Validation(NoSourceStates(a.id)))
    else if |InvalidSources(a, stateIds)| > 0 then
      Fail(Validation(InvalidSourceStates(a.id, InvalidSources(a, stateIds))))
    else if IsBlank(a.toState) then Fail(Validation(TargetRequired(a.id)))
    else if a.toState !in stateIds then Fail(Validation(InvalidTargetState(a.id, a.toState)))
    else Pass
  }

  // ---------------------------------------------------------------------------
  // What an accepted definition looks like, stated without the order of checks

  ghost predicate HasState(states: seq<State>, id: string) {
    exists s :: s in states && s.id == id
  }

  ghost predicate ExactlyOneInitial(states: seq<State>) {
    exists i :: OnlyMatch(states, IsInitialState, i)
  }

  ghost predicate ActionWellFormed(a: Action, states: seq<State>) {
    && !IsBlank(a.id)
    && !IsBlank(a.name)
    && |a.fromStates| > 0
    && (forall f :: f in a.fromStates ==> HasState(states, f))
    && !IsBlank(a.toState)
    && HasState(states, a.toState)
  }

  /** A well-formed definition: named, with uniquely identified and named
      states, exactly one of them initial, and uniquely identified, named
      actions whose sources and target are states of the definition. */
  ghost predicate WellFormed(d: WorkflowDefinition) {
    && !IsBlank(d.name)
    && |d.states| > 0
    && UniqueStateIds(d.states)
    && ExactlyOneInitial(d.states)
    && (forall s :: s in d.states ==> !IsBlank(s.id) && !IsBlank(s.name))
    && UniqueActionIds(d.actions)
    && (forall a :: a in d.actions ==> ActionWellFormed(a, d.states))
  }

  lemma UniqueStateIdsDistinct(states: seq<State>)
    ensures Distinct(StateIds(states)) <==> UniqueStateIds(states)
  {
    DuplicateKeysEmpty(StateIds(states));
  }

  lemma CheckActionAccepts(a: Action, states: seq<State>)
    ensures CheckAction(a, StateIdSet(states)).Pass? <==> ActionWellFormed(a, states)
  {
    var stateIds := StateIdSet(states);
    forall f ensures f in stateIds <==> HasState(states, f) {
      if HasState(states, f) {
        var s :| s in states && s.id == f;
        assert f in stateIds;
      }
    }
    if |InvalidSources(a, stateIds)| > 0 {
      assert InvalidSources(a, stateIds)[0] in InvalidSources(a, stateIds);
    }
  }

  /** The state checks pass exactly when ids are unique, exactly one state is
      initial and every state has an id and a name. */
  lemma ValidateStatesAccepts(states: seq<State>)
    ensures ValidateStates(states).Pass? <==>
      && UniqueStateIds(states)
      && ExactlyOneInitial(states)
      && (forall s :: s in states ==> !IsBlank(s.id) && !IsBlank(s.name))
  {
    DuplicateKeysEmpty(StateIds(states));
    assert Distinct(StateIds(states)) <==> UniqueStateIds(states);
    FilterSingle(states, IsInitialState);
    assert (forall i :: 0 <= i < |states| ==> CheckState(states[i]).Pass?)
       <==> (forall s :: s in states ==> !IsBlank(s.id) && !IsBlank(s.name));
  }

  /** The action checks pass exactly when action ids are unique and every
      action is well-formed against the states. */
  lemma ValidateActionsAccepts(actions: seq<Action>, states: seq<State>)
    ensures ValidateActions(actions, states).Pass? <==>
      UniqueActionIds(actions) && forall a :: a in actions ==> ActionWellFormed(a, states)
  {
    var stateIds := StateIdSet(states);
    DuplicateKeysEmpty(ActionIds(actions));
    assert Distinct(ActionIds(actions)) <==> UniqueActionIds(actions);
    forall a | a in actions {
      CheckActionAccepts(a, states);
    }
    assert (forall i :: 0 <= i < |actions| ==> CheckAction(actions[i], stateIds).Pass?)
       <==> (forall a :: a in actions ==> ActionWellFormed(a, states));
  }

  /** The validator accepts a definition exactly when it is well-formed. */
  lemma ValidateDefinitionAccepts(d: WorkflowDefinition)
    ensures ValidateDefinition(d).Pass? <==> WellFormed(d)
  {
    ValidateStatesAccepts(d.states);
    ValidateActionsAccepts(d.actions, d.states);
  }

  /** A blank name is reported before anything else; an empty state list next. */
  lemma NameAndStatesCheckedFirst(d: WorkflowDefinition)
    ensures IsBlank(d.name) ==> ValidateDefinition(d) == Fail(Validation(NameRequired))
    ensures !IsBlank(d.name) && |d.states| == 0 ==> ValidateDefinition(d) == Fail(Validation(NoStates))
  {
  }

  /** Two states sharing an id are reported as duplicates, naming that id,
      before the initial-state check. */
  lemma DuplicateStateIdsRejected(d: WorkflowDefinition, i: int, j: int)
    requires !IsBlank(d.name)
    requires 0 <= i < j < |d.states| && d.states[i].id == d.states[j].id
    ensures var r := ValidateDefinition(d);
      r.Fail? && r.error.reason.DuplicateStateIds? && d.states[i].id in r.error.reason.ids
  {
    var ks := StateIds(d.states);
    assert ks == ks[..j] + ks[j..];
    assert ks[i] in ks[..j];
    assert ks[j] in ks[j..];
    assert multiset(ks)[ks[i]] == multiset(ks[..j])[ks[i]] + multiset(ks[j..])[ks[i]];
  }

  /** With distinct state ids, zero initial states and two or more initial
      states are both rejected, each with its own reason. */
  lemma InitialStateCountChecked(d: WorkflowDefinition)
    requires !IsBlank(d.name) && |d.states| > 0 && UniqueStateIds(d.states)
    ensures (forall s :: s in d.states ==> !s.isInitial) ==>
      ValidateDefinition(d) == Fail(Validation(NoInitialState))
    ensures (exists i, j :: 0 <= i < j < |d.states| && d.states[i].isInitial && d.states[j].isInitial) ==>
      ValidateDefinition(d) == Fail(Validation(MultipleInitialStates))
  {
    UniqueStateIdsDistinct(d.states);
    DuplicateKeysEmpty(StateIds(d.states));
    if forall s :: s in d.states ==> !s.isInitial {
      if |Filter(d.states, IsInitialState)| > 0 {
        assert Filter(d.states, IsInitialState)[0] in Filter(d.states, IsInitialState);
      }
    }
    if i, j :| 0 <= i < j < |d.states| && d.states[i].isInitial && d.states[j].isInitial {
      FilterTwo(d.states, IsInitialState, i, j);
    }
  }

  // ---------------------------------------------------------------------------
  // The transition guard

  /** `ValidateActionExecution`: seven checks in a fixed order; a structural
      defect is a validation error, a guard that does not hold right now is an
      invalid transition. */
  function ValidateActionExecution(instance: WorkflowInstance, definition: WorkflowDefinition, actionId: string)
    : (r: Outcome<WorkflowError>)
    ensures r.Fail? ==> r.error.Validation? || r.error.InvalidTransition?
  {
    match FindAction(definition.actions, actionId)
    case None => Fail(Validation(ActionNotFound(actionId)))
    case Some(action) =>
      if !action.enabled then Fail(InvalidTransition(ActionDisabled(actionId)))
      else
        match FindState(definition.states, instance.currentStateId)
        case None => Fail(Validation(CurrentStateNotFound(instance.currentStateId)))
        case Some(current) =>
          if current.isFinal then Fail(InvalidTransition(FinalState))
          else if instance.currentStateId !in action.fromStates then
            Fail(InvalidTransition(NotFromCurrentState(actionId, instance.currentStateId)))
          else
            match FindState(definition.states, action.toState)
            case None => Fail(Validation(TargetStateNotFound(action.toState)))
            case Some(target) =>
              if !target.enabled then Fail(InvalidTransition(TargetDisabled(action.toState)))
              else Pass
  }

  /** Action `a` may fire from the instance's current state: it is enabled,
      the current state exists and is not final, `a` lists it as a source,
      and `a`'s target exists and is enabled. */
  ghost predicate CanFire(instance: WorkflowInstance, definition: WorkflowDefinition, a: Action) {
    && a.enabled
    && (exists c :: c in definition.states && c.id == instance.currentStateId && !c.isFinal)
    && instance.currentStateId in a.fromStates
    && (exists t :: t in definition.states && t.id == a.toState && t.enabled)
  }

  /** For a definition with unique ids, the guard passes exactly when the
      named action exists and can fire. */
  lemma GuardAcceptsIff(instance: WorkflowInstance, definition: WorkflowDefinition, actionId: string)
    requires UniqueStateIds(definition.states) && UniqueActionIds(definition.actions)
    ensures ValidateActionExecution(instance, definition, actionId).Pass? <==>
      exists a :: a in definition.actions && a.id == actionId && CanFire(instance, definition, a)
  {
    if a :| a in definition.actions && a.id == actionId && CanFire(instance, definition, a) {
      FindActionUnique(definition.actions, a);
      var c :| c in definition.states && c.id == instance.currentStateId && !c.isFinal;
      FindStateUnique(definition.states, c);
      var t :| t in definition.states && t.id == a.toState && t.enabled;
      FindStateUnique(definition.states, t);
    }
  }

  /** An action id the definition does not have is reported first. */
  lemma UnknownActionRejected(instance: WorkflowInstance, definition: WorkflowDefinition, actionId: string)
    requires forall a :: a in definition.actions ==> a.id != actionId
    ensures ValidateActionExecution(instance, definition, actionId) == Fail(Validation(ActionNotFound(actionId)))
  {
  }

  /** For a definition with unique ids and an action `a` of it, the guard
      reports the first failing check in the source's order. */
  lemma GuardOrder(instance: WorkflowInstance, definition: WorkflowDefinition, a: Action)
    requires UniqueStateIds(definition.states) && UniqueActionIds(definition.actions)
    requires a in definition.actions
    ensures var r := ValidateActionExecution(instance, definition, a.id);
      var cur := instance.currentStateId;
      && (!a.enabled ==> r == Fail(InvalidTransition(ActionDisabled(a.id))))
      && (a.enabled && (forall s :: s in definition.states ==> s.id != cur) ==>
            r == Fail(Validation(CurrentStateNotFound(cur))))
      && (a.enabled && (exists c :: c in definition.states && c.id == cur && c.isFinal) ==>
            r == Fail(InvalidTransition(FinalState)))
      && (a.enabled && (exists c :: c in definition.states && c.id == cur && !c.isFinal) ==>
            && (cur !in a.fromStates ==>
                  r == Fail(InvalidTransition(NotFromCurrentState(a.id, cur))))
            && (cur in a.fromStates && (forall t :: t in definition.states ==> t.id != a.toState) ==>
                  r == Fail(Validation(TargetStateNotFound(a.toState))))
            && (cur in a.fromStates && (exists t :: t in definition.states && t.id == a.toState && !t.enabled) ==>
                  r == Fail(InvalidTransition(TargetDisabled(a.toState)))))
  {
    FindActionUnique(definition.actions, a);
    if c :| c in definition.states && c.id == instance.currentStateId {
      FindStateUnique(definition.states, c);
    }
    if t :| t in definition.states && t.id == a.toState {
      FindStateUnique(definition.states, t);
    }
  }

  /** In an accepted definition every target exists, so the guard's
      "target state not found" branch is never taken. */
  lemma TargetAlwaysFound(instance: WorkflowInstance, definition: WorkflowDefinition, actionId: string)
    requires WellFormed(definition)
    ensures var r := ValidateActionExecution(instance, definition, actionId);
      !(r.Fail? && r.error.Validation? && r.error.reason.TargetStateNotFound?)
  {
    match FindAction(definition.actions, actionId)
    case None =>
    case Some(a) =>
      assert ActionWellFormed(a, definition.states);
      var t :| t in definition.states && t.id == a.toState;
  }
}
