/** The engine (services/workflowService.cs): definition and instance
    operations over the store, with the instance lifecycle they maintain. */
module Services {
  import opened Seqs
  import opened Models
  import opened Validation
  import opened Storage
  import opened Text

  // ---------------------------------------------------------------------------
  // What the engine keeps true of every stored instance

  /** Each history entry starts where the previous one ended, and the last one
      ends at the current state. */
  ghost predicate HistoryChained(instance: WorkflowInstance) {
    var h := instance.history;
    && (forall k :: 0 < k < |h| ==> h[k - 1].toStateId == h[k].fromStateId)
    && (|h| > 0 ==> h[|h| - 1].toStateId == instance.currentStateId)
  }

  /** The state the instance was started in, as its history records it. */
  ghost function StartStateId(instance: WorkflowInstance): string {
    if |instance.history| == 0 then instance.currentStateId else instance.history[0].fromStateId
  }

  /** The instance agrees with its definition: the current state is a state
      of the definition whose `isFinal` is the instance's `isCompleted`, and
      the history is a path from the initial state to the current one. */
  ghost predicate InstanceConsistent(instance: WorkflowInstance, definition: WorkflowDefinition) {
    && (exists s :: s in definition.states && s.id == instance.currentStateId
                    && s.isFinal == instance.isCompleted)
    && HistoryChained(instance)
    && (exists s :: s in definition.states && s.id == StartStateId(instance) && s.isInitial)
  }

  /** Every stored definition is well-formed, and every stored instance whose
      definition is still stored is consistent with it. */
  ghost predicate EngineInvariant(
    definitions: map<string, WorkflowDefinition>, instances: map<string, WorkflowInstance>)
  {
    && (forall id :: id in definitions ==> WellFormed(definitions[id]))
    && (forall id :: id in instances && instances[id].workflowDefinitionId in definitions ==>
          InstanceConsistent(instances[id], definitions[instances[id].workflowDefinitionId]))
  }

  /** Some stored instance of the definition has not completed. */
  ghost predicate HasActiveInstance(instances: map<string, WorkflowInstance>, definitionId: string) {
    exists id :: id in instances && instances[id].workflowDefinitionId == definitionId
                 && !instances[id].isCompleted
  }

  // ---------------------------------------------------------------------------
  // The engine's computations on values

  /** The instance `StartInstanceAsync` creates: at the first initial state,
      with an empty history, completed iff that state is final. */
  function NewInstance(definition: WorkflowDefinition, definitionId: string, id: string, now: Timestamp)
    : (r: WorkflowInstance)
    requires exists s :: s in definition.states && s.isInitial
    ensures r.id == id && r.workflowDefinitionId == definitionId && r.createdAt == now
    ensures r.history == []
    ensures exists i ::
      && 0 <= i < |definition.states| && definition.states[i].isInitial
      && (forall j :: 0 <= j < i ==> !definition.states[j].isInitial)
      && r.currentStateId == definition.states[i].id
      && r.isCompleted == definition.states[i].isFinal
    ensures WellFormed(definition) ==> InstanceConsistent(r, definition)
  {
    var initial := FirstWhere(definition.states, IsInitialState);
    WorkflowInstance(id, definitionId, initial.value.id, [], now, initial.value.isFinal)
  }

  /** One execution of `actionId`: the guard, then one appended history entry,
      the move to the action's target and `isCompleted` recomputed from it. */
  function Transition(instance: WorkflowInstance, definition: WorkflowDefinition, actionId: string, now: Timestamp)
    : (r: Result<WorkflowInstance, WorkflowError>)
    ensures r.Err? <==> ValidateActionExecution(instance, definition, actionId).Fail?
    ensures r.Err? ==> r.error == ValidateActionExecution(instance, definition, actionId).error
    ensures r.Ok? ==>
      var next := r.value;
      && next.id == instance.id
      && next.workflowDefinitionId == instance.workflowDefinitionId
      && next.createdAt == instance.createdAt
      && |next.history| == |instance.history| + 1
      && next.history[..|instance.history|] == instance.history
      && exists a, t ::
           && a in definition.actions && a.id == actionId
           && t in definition.states && t.id == a.toState
           && next.history[|instance.history|]
                == HistoryEntry(actionId, a.name, instance.currentStateId, a.toState, now)
           && next.currentStateId == t.id
           && next.isCompleted == t.isFinal
  {
    match ValidateActionExecution(instance, definition, actionId)
    case Fail(e) => Err(e)
    case Pass =>
      var action := FindAction(definition.actions, actionId).value;
      var target := FindState(definition.states, action.toState).value;
      var entry := HistoryEntry(actionId, action.name, instance.currentStateId, action.toState, now);
      var next := instance.(currentStateId := action.toState,
                            history := instance.history + [entry],
                            isCompleted := target.isFinal);
      assert next.history[..|instance.history|] == instance.history;
      Ok(next)
  }

  /** The actions offered to a caller (`GetAvailableActionsAsync`): none once
      completed, otherwise the enabled actions that list the current state as
      a source, in definition order. The target's `enabled` flag is not
      consulted. */
  function AvailableActions(instance: WorkflowInstance, definition: WorkflowDefinition): (r: seq<Action>)
    ensures instance.isCompleted ==> r == []
    ensures |r| <= |definition.actions|
    ensures forall a :: a in r <==>
      !instance.isCompleted && a in definition.actions && a.enabled && instance.currentStateId in a.fromStates
  {
    if instance.isCompleted then []
    else Filter(definition.actions, (a: Action) => a.enabled && instance.currentStateId in a.fromStates)
  }

  // ---------------------------------------------------------------------------
  // Lemmas about single steps

  /** A successful execution keeps the instance consistent with a well-formed
      definition. */
  lemma TransitionPreservesConsistency(
    instance: WorkflowInstance, definition: WorkflowDefinition, actionId: string, now: Timestamp)
    requires WellFormed(definition) && InstanceConsistent(instance, definition)
    requires Transition(instance, definition, actionId, now).Ok?
    ensures InstanceConsistent(Transition(instance, definition, actionId, now).value, definition)
  {
    var next := Transition(instance, definition, actionId, now).value;
    var h, h' := instance.history, next.history;
    assert h' == h + [h'[|h|]];
    assert StartStateId(next) == StartStateId(instance);
    forall k | 0 < k < |h'| ensures h'[k - 1].toStateId == h'[k].fromStateId {
      if k < |h| {
        assert h'[k - 1] == h[k - 1] && h'[k] == h[k];
      } else {
        assert h'[k].fromStateId == instance.currentStateId;
      }
    }
  }

  /** A completed, consistent instance sits in a final state. */
  lemma CompletedMeansFinal(instance: WorkflowInstance, definition: WorkflowDefinition)
    requires UniqueStateIds(definition.states) && InstanceConsistent(instance, definition)
    requires instance.isCompleted
    ensures FindState(definition.states, instance.currentStateId).Some?
    ensures FindState(definition.states, instance.currentStateId).value.isFinal
  {
    var s :| s in definition.states && s.id == instance.currentStateId && s.isFinal == instance.isCompleted;
    FindStateUnique(definition.states, s);
  }

  /** A final state is absorbing: once completed, executing any action the
      definition has fails as an invalid transition (disabled action or final
      state), and the instance does not move. */
  lemma CompletedIsAbsorbing(
    instance: WorkflowInstance, definition: WorkflowDefinition, actionId: string, now: Timestamp)
    requires WellFormed(definition) && InstanceConsistent(instance, definition)
    requires instance.isCompleted
    requires exists a :: a in definition.actions && a.id == actionId
    ensures var r := Transition(instance, definition, actionId, now);
      r.Err? && r.error.InvalidTransition?
      && (r.error.transition.FinalState? || r.error.transition.ActionDisabled?)
  {
    var a :| a in definition.actions && a.id == actionId;
    CompletedMeansFinal(instance, definition);
    GuardOrder(instance, definition, a);
  }

  /** A consistent instance always finds its current state, so the guard's
      "current state not found" branch is never taken. */
  lemma CurrentStateAlwaysFound(instance: WorkflowInstance, definition: WorkflowDefinition, actionId: string)
    requires InstanceConsistent(instance, definition)
    ensures var r := ValidateActionExecution(instance, definition, actionId);
      !(r.Fail? && r.error.Validation? && r.error.reason.CurrentStateNotFound?)
  {
    var s :| s in definition.states && s.id == instance.currentStateId && s.isFinal == instance.isCompleted;
    assert FindState(definition.states, instance.currentStateId).Some?;
  }

  /** What the guard lets through is on offer: if an uncompleted instance may
      execute `actionId`, that action is among the available actions. */
  lemma ExecutableIsAvailable(instance: WorkflowInstance, definition: WorkflowDefinition, actionId: string)
    requires !instance.isCompleted
    requires ValidateActionExecution(instance, definition, actionId).Pass?
    ensures FindAction(definition.actions, actionId).Some?
    ensures FindAction(definition.actions, actionId).value in AvailableActions(instance, definition)
  {
  }

  /** The converse fails: an action whose target state is disabled is on offer
      but cannot be executed. */
  lemma AvailableNotAlwaysExecutable()
    ensures exists instance: WorkflowInstance, definition: WorkflowDefinition, a: Action ::
      && WellFormed(definition) && InstanceConsistent(instance, definition)
      && a in AvailableActions(instance, definition)
      && ValidateActionExecution(instance, definition, a.id) == Fail(InvalidTransition(TargetDisabled(a.toState)))
  {
    var start := State("start", "Start", true, false, true);
    var closed := State("closed", "Closed", false, true, false);
    var close := Action("close", "Close", true, ["start"], "closed", None);
    var definition := WorkflowDefinition("d", "Flow", [start, closed], [close], 0, None);
    NotBlank("start"); NotBlank("Start"); NotBlank("closed"); NotBlank("Closed");
    NotBlank("close"); NotBlank("Close"); NotBlank("Flow");
    var instance := WorkflowInstance("i", "d", "start", [], 0, false);
    assert ExactlyOneInitial(definition.states) by {
      assert OnlyMatch(definition.states, IsInitialState, 0);
    }
    assert HasState(definition.states, "start") by { assert definition.states[0] == start; }
    assert HasState(definition.states, "closed") by { assert definition.states[1] == closed; }
    assert ActionWellFormed(close, definition.states);
    assert UniqueStateIds(definition.states);
    assert WellFormed(definition);
    assert InstanceConsistent(instance, definition) by {
      assert start in definition.states;
      assert StartStateId(instance) == "start";
    }
    assert close in AvailableActions(instance, definition);
    assert FindAction(definition.actions, "close") == Some(close);
    assert FindState(definition.states, "start") == Some(start);
    assert FindState(definition.states, "closed") == Some(closed);
  }

  /** The offered actions keep the definition's order: splitting the action
      list splits the offer the same way. */
  lemma AvailableActionsInOrder(
    instance: WorkflowInstance, definition: WorkflowDefinition, front: seq<Action>, back: seq<Action>)
    requires definition.actions == front + back
    ensures AvailableActions(instance, definition) ==
      AvailableActions(instance, definition.(actions := front)) + AvailableActions(instance, definition.(actions := back))
  {
    if !instance.isCompleted {
      FilterAppend(front, back, (a: Action) => a.enabled && instance.currentStateId in a.fromStates);
    }
  }

  /** On a one-action definition the offer is that action or nothing, so each
      qualifying action is offered exactly once. With `AvailableActionsInOrder`
      this fixes the whole offer. */
  lemma AvailableActionsSingle(instance: WorkflowInstance, definition: WorkflowDefinition, a: Action)
    ensures AvailableActions(instance, definition.(actions := [a])) ==
      if !instance.isCompleted && a.enabled && instance.currentStateId in a.fromStates then [a] else []
  {
    var r := AvailableActions(instance, definition.(actions := [a]));
    if |r| == 1 {
      assert r[0] in r;
    }
  }

  /** Saving an instance that is consistent with its stored definition keeps
      the engine invariant. */
  lemma SaveKeepsInvariant(
    definitions: map<string, WorkflowDefinition>, instances: map<string, WorkflowInstance>,
    instance: WorkflowInstance)
    requires EngineInvariant(definitions, instances)
    requires instance.workflowDefinitionId in definitions ==>
      InstanceConsistent(instance, definitions[instance.workflowDefinitionId])
    ensures EngineInvariant(definitions, instances[instance.id := instance])
  {
  }

  // ---------------------------------------------------------------------------
  // The engine over its store

  class WorkflowService {
    const repository: InMemoryWorkflowRepository

    ghost predicate Valid()
      reads repository
    {
      repository.Valid() && EngineInvariant(repository.definitions, repository.instances)
    }

    constructor (repository: InMemoryWorkflowRepository)
      requires repository.Valid() && EngineInvariant(repository.definitions, repository.instances)
      ensures this.repository == repository && Valid()
    {
      this.repository := repository;
    }

    /** `CreateDefinitionAsync`: validate, and save only what passes. The fresh
        id is a new GUID: no stored definition or instance mentions it. */
    method CreateDefinition(request: CreateDefinitionRequest, newId: string, now: Timestamp)
      returns (r: Result<WorkflowDefinition, WorkflowError>)
      requires Valid()
      requires newId !in repository.definitions
      requires forall id :: id in repository.instances ==> repository.instances[id].workflowDefinitionId != newId
      modifies repository
      ensures Valid()
      ensures var d := WorkflowDefinition(newId, request.name, request.states, request.actions, now, request.description);
        && (r.Ok? <==> WellFormed(d))
        && (r.Ok? ==> r.value == d && repository.definitions == old(repository.definitions)[newId := d])
        && (r.Err? ==> ValidateDefinition(d).Fail? && r.error == ValidateDefinition(d).error && r.error.Validation?
                       && repository.definitions == old(repository.definitions))
      ensures repository.instances == old(repository.instances)
    {
      var definition := WorkflowDefinition(newId, request.name, request.states, request.actions, now, request.description);
      ValidateDefinitionAccepts(definition);
      var check := ValidateDefinition(definition);
      if check.Fail? {
        return Err(check.error);
      }
      var saved := repository.SaveDefinition(definition);
      r := Ok(saved);
    }

    /** `GetDefinitionAsync`: the stored definition, or not-found. */
    method GetDefinition(id: string) returns (r: Result<WorkflowDefinition, WorkflowError>)
      ensures id in repository.definitions ==> r == Ok(repository.definitions[id])
      ensures id !in repository.definitions ==> r == Err(NotFound(DefinitionEntity, id))
    {
      var found := repository.GetDefinition(id);
      if found.None? {
        return Err(NotFound(DefinitionEntity, id));
      }
      r := Ok(found.value);
    }

    /** `GetAllDefinitionsAsync`. */
    method GetAllDefinitions() returns (r: seq<WorkflowDefinition>)
      requires Valid()
      ensures multiset(r) == multiset(repository.definitions.Values)
    {
      r := repository.GetAllDefinitions();
    }

    /** `DeleteDefinitionAsync`: not-found if absent; refused while any of its
        instances is still running; otherwise removed, its instances kept. */
    method DeleteDefinition(id: string) returns (r: Result<bool, WorkflowError>)
      requires Valid()
      modifies repository
      ensures Valid()
      ensures repository.instances == old(repository.instances)
      ensures id !in old(repository.definitions) ==>
        r == Err(NotFound(DefinitionEntity, id)) && repository.definitions == old(repository.definitions)
      ensures id in old(repository.definitions) && HasActiveInstance(old(repository.instances), id) ==>
        r == Err(Validation(ActiveInstances(id))) && repository.definitions == old(repository.definitions)
      ensures id in old(repository.definitions) && !HasActiveInstance(old(repository.instances), id) ==>
        r == Ok(true) && repository.definitions == old(repository.definitions) - {id}
    {
      var definition :- GetDefinition(id);
      var instances := repository.GetInstancesByDefinitionId(id);
      if exists i | i in instances :: !i.isCompleted {
        ghost var i :| i in instances && !i.isCompleted;
        assert i in multiset(instances);
        return Err(Validation(ActiveInstances(id)));
      }
      assert !HasActiveInstance(repository.instances, id) by {
        forall k | k in repository.instances && repository.instances[k].workflowDefinitionId == id
          ensures repository.instances[k].isCompleted
        {
          assert repository.instances[k] in multiset(instances);
        }
      }
      var removed := repository.DeleteDefinition(id);
      r := Ok(removed);
    }

    /** `StartInstanceAsync`: a new instance of a stored definition, at its
        initial state. The fresh id is a new GUID. */
    method StartInstance(definitionId: string, newId: string, now: Timestamp)
      returns (r: Result<WorkflowInstance, WorkflowError>)
      requires Valid()
      requires newId !in repository.instances
      modifies repository
      ensures Valid()
      ensures repository.definitions == old(repository.definitions)
      ensures definitionId !in old(repository.definitions) ==>
        r == Err(NotFound(DefinitionEntity, definitionId)) && repository.instances == old(repository.instances)
      ensures definitionId in old(repository.definitions) ==>
        && r == Ok(NewInstance(old(repository.definitions)[definitionId], definitionId, newId, now))
        && repository.instances == old(repository.instances)[newId := r.value]
    {
      var definition :- GetDefinition(definitionId);
      assert WellFormed(definition);
      ghost var i :| OnlyMatch(definition.states, IsInitialState, i);
      assert definition.states[i] in definition.states;
      var instance := NewInstance(definition, definitionId, newId, now);
      SaveKeepsInvariant(repository.definitions, repository.instances, instance);
      var saved := repository.SaveInstance(instance);
      r := Ok(saved);
    }

    /** `GetInstanceAsync`: the stored instance, or not-found. */
    method GetInstance(id: string) returns (r: Result<WorkflowInstance, WorkflowError>)
      ensures id in repository.instances ==> r == Ok(repository.instances[id])
      ensures id !in repository.instances ==> r == Err(NotFound(InstanceEntity, id))
    {
      var found := repository.GetInstance(id);
      if found.None? {
        return Err(NotFound(InstanceEntity, id));
      }
      r := Ok(found.value);
    }

    /** `GetAllInstancesAsync`. */
    method GetAllInstances() returns (r: seq<WorkflowInstance>)
      requires Valid()
      ensures multiset(r) == multiset(repository.instances.Values)
    {
      r := repository.GetAllInstances();
    }

    /** `GetInstancesByDefinitionIdAsync`. */
    method GetInstancesByDefinitionId(definitionId: string) returns (r: seq<WorkflowInstance>)
      requires Valid()
      ensures forall i :: i in r <==> i in repository.instances.Values && i.workflowDefinitionId == definitionId
      ensures multiset(r) == multiset(repository.InstancesOf(definitionId))
    {
      r := repository.GetInstancesByDefinitionId(definitionId);
      forall i ensures i in r <==> i in repository.instances.Values && i.workflowDefinitionId == definitionId {
        assert i in r <==> i in multiset(r);
      }
    }

    /** `ExecuteActionAsync`: look up the instance and its definition, run the
        guard, then record the step and move the instance, and save it. A
        rejected step changes nothing. */
    method ExecuteAction(instanceId: string, actionId: string, now: Timestamp)
      returns (r: Result<WorkflowInstance, WorkflowError>)
      requires Valid()
      modifies repository
      ensures Valid()
      ensures repository.definitions == old(repository.definitions)
      ensures instanceId !in old(repository.instances) ==>
        r == Err(NotFound(InstanceEntity, instanceId)) && repository.instances == old(repository.instances)
      ensures instanceId in old(repository.instances) ==>
        var instance := old(repository.instances)[instanceId];
        var definitionId := instance.workflowDefinitionId;
        && (definitionId !in old(repository.definitions) ==>
              r == Err(NotFound(DefinitionEntity, definitionId))
              && repository.instances == old(repository.instances))
        && (definitionId in old(repository.definitions) ==>
              && r == Transition(instance, old(repository.definitions)[definitionId], actionId, now)
              && repository.instances ==
                   if r.Ok? then old(repository.instances)[instanceId := r.value] else old(repository.instances))
    {
      var instance :- GetInstance(instanceId);
      var definition :- GetDefinition(instance.workflowDefinitionId);

      var check := ValidateActionExecution(instance, definition, actionId);
      if check.Fail? {
        return Err(check.error);
      }

      var action := FindAction(definition.actions, actionId).value;
      var targetState := FindState(definition.states, action.toState).value;

      var historyEntry := HistoryEntry(actionId, action.name, instance.currentStateId, action.toState, now);

      ghost var before := instance;
      instance := instance.(currentStateId := action.toState);
      instance := instance.(history := instance.history + [historyEntry]);
      instance := instance.(isCompleted := targetState.isFinal);
      assert Transition(before, definition, actionId, now) == Ok(instance);
      TransitionPreservesConsistency(before, definition, actionId, now);
      SaveKeepsInvariant(repository.definitions, repository.instances, instance);

      var saved := repository.SaveInstance(instance);
      r := Ok(saved);
    }

    /** `GetAvailableActionsAsync`. */
    method GetAvailableActions(instanceId: string) returns (r: Result<seq<Action>, WorkflowError>)
      ensures instanceId !in repository.instances ==> r == Err(NotFound(InstanceEntity, instanceId))
      ensures instanceId in repository.instances ==>
        var instance := repository.instances[instanceId];
        var definitionId := instance.workflowDefinitionId;
        && (definitionId !in repository.definitions ==> r == Err(NotFound(DefinitionEntity, definitionId)))
        && (definitionId in repository.definitions ==>
              r == Ok(AvailableActions(instance, repository.definitions[definitionId])))
    {
      var instance :- GetInstance(instanceId);
      var definition :- GetDefinition(instance.workflowDefinitionId);
      r := Ok(AvailableActions(instance, definition));
    }

    /** `GetCurrentStateAsync`: the state the instance is in; its `isFinal` is
        the instance's `isCompleted`. */
    method GetCurrentState(instanceId: string) returns (r: Result<State, WorkflowError>)
      requires Valid()
      ensures instanceId !in repository.instances ==> r == Err(NotFound(InstanceEntity, instanceId))
      ensures instanceId in repository.instances ==>
        var instance := repository.instances[instanceId];
        var definitionId := instance.workflowDefinitionId;
        && (definitionId !in repository.definitions ==> r == Err(NotFound(DefinitionEntity, definitionId)))
        && (definitionId in repository.definitions ==>
              && r.Ok?
              && r.value in repository.definitions[definitionId].states
              && r.value.id == instance.currentStateId
              && r.value.isFinal == instance.isCompleted)
    {
      var instance :- GetInstance(instanceId);
      var definition :- GetDefinition(instance.workflowDefinitionId);
      assert InstanceConsistent(instance, definition);
      var s :| s in definition.states && s.id == instance.currentStateId && s.isFinal == instance.isCompleted;
      FindStateUnique(definition.states, s);
      r := Ok(FindState(definition.states, instance.currentStateId).value);
    }
  }
}
