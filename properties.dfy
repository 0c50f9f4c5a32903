/** Properties of runs of several executions on one instance, and the
    engine's worked scenarios. */
module EngineProperties {
  import opened Seqs
  import opened Text
  import opened Models
  import opened Validation
  import opened Services

  /** One call of "execute action": which action, and when. */
  datatype Step = Step(actionId: string, at: Timestamp)

  /** Successive executions on one instance, stopping at the first rejection. */
  function Run(instance: WorkflowInstance, definition: WorkflowDefinition, steps: seq<Step>)
    : (r: Result<WorkflowInstance, WorkflowError>)
    ensures r.Ok? ==> r.value.id == instance.id && r.value.workflowDefinitionId == instance.workflowDefinitionId
    decreases |steps|
  {
    if |steps| == 0 then Ok(instance)
    else
      match Transition(instance, definition, steps[0].actionId, steps[0].at)
      case Err(e) => Err(e)
      case Ok(next) => Run(next, definition, steps[1..])
  }

  /** A successful non-empty run is one successful execution followed by a
      successful run of the remaining steps. */
  lemma RunStep(instance: WorkflowInstance, definition: WorkflowDefinition, steps: seq<Step>)
    requires |steps| > 0 && Run(instance, definition, steps).Ok?
    ensures Transition(instance, definition, steps[0].actionId, steps[0].at).Ok?
    ensures var next := Transition(instance, definition, steps[0].actionId, steps[0].at).value;
      Run(next, definition, steps[1..]) == Run(instance, definition, steps)
  {
  }

  /** One successful execution appends one entry recording the action and
      the time of the call. */
  lemma TransitionRecords(instance: WorkflowInstance, definition: WorkflowDefinition, step: Step)
    requires Transition(instance, definition, step.actionId, step.at).Ok?
    ensures var next := Transition(instance, definition, step.actionId, step.at).value;
      && |next.history| == |instance.history| + 1
      && next.history[..|instance.history|] == instance.history
      && next.history[|instance.history|].actionId == step.actionId
      && next.history[|instance.history|].timestamp == step.at
  {
  }

  /** History is append-only: each successful execution adds exactly one entry,
      in call order, and earlier entries are never altered. */
  lemma {:induction false} RunAppendsHistory(
    instance: WorkflowInstance, definition: WorkflowDefinition, steps: seq<Step>, final: WorkflowInstance)
    requires Run(instance, definition, steps) == Ok(final)
    decreases |steps|
    ensures |final.history| == |instance.history| + |steps|
    ensures final.history[..|instance.history|] == instance.history
    ensures RecordsSteps(final.history, |instance.history|, steps)
  {
    var n := |instance.history|;
    if |steps| == 0 {
      assert final == instance;
    } else {
      RunStep(instance, definition, steps);
      TransitionRecords(instance, definition, steps[0]);
      var next := Transition(instance, definition, steps[0].actionId, steps[0].at).value;
      var rest := steps[1..];
      RunAppendsHistory(next, definition, rest, final);
      ExtendRecorded(instance.history, next.history, final.history, steps);
    }
  }

  /** `h`, from position `n` on, records `steps` in order. */
  ghost predicate RecordsSteps(h: seq<HistoryEntry>, n: nat, steps: seq<Step>) {
    && n + |steps| <= |h|
    && forall k :: 0 <= k < |steps| ==>
         && h[n + k].actionId == steps[k].actionId
         && h[n + k].timestamp == steps[k].at
  }

  /** The bookkeeping behind one induction step: a history that records
      `steps[0]` after `h0` and is then extended by a record of `steps[1..]`
      records all of `steps` after `h0`. */
  lemma ExtendRecorded(h0: seq<HistoryEntry>, h1: seq<HistoryEntry>, h2: seq<HistoryEntry>, steps: seq<Step>)
    requires |steps| > 0
    requires |h1| == |h0| + 1 && h1[..|h0|] == h0
    requires h1[|h0|].actionId == steps[0].actionId && h1[|h0|].timestamp == steps[0].at
    requires |h2| == |h1| + |steps| - 1 && h2[..|h1|] == h1
    requires RecordsSteps(h2, |h1|, steps[1..])
    ensures h2[..|h0|] == h0
    ensures RecordsSteps(h2, |h0|, steps)
  {
    var n := |h0|;
    PrefixOfPrefix(h2, n, n + 1);
    forall k | 0 <= k < |steps|
      ensures h2[n + k].actionId == steps[k].actionId
      ensures h2[n + k].timestamp == steps[k].at
    {
      if k == 0 {
        assert h2[..n + 1][n] == h2[n];
      } else {
        assert steps[1..][k - 1] == steps[k];
        assert n + k == |h1| + (k - 1);
      }
    }
  }

  lemma PrefixOfPrefix<T>(s: seq<T>, m: nat, n: nat)
    requires m <= n <= |s|
    ensures s[..n][..m] == s[..m]
  {
  }

  /** Every run of successful executions keeps an instance consistent with its
      well-formed definition: its current state is a state of the definition
      and its history is a path from the initial state. */
  lemma {:induction false} RunPreservesConsistency(
    instance: WorkflowInstance, definition: WorkflowDefinition, steps: seq<Step>)
    requires WellFormed(definition) && InstanceConsistent(instance, definition)
    requires Run(instance, definition, steps).Ok?
    ensures InstanceConsistent(Run(instance, definition, steps).value, definition)
    decreases |steps|
  {
    if |steps| > 0 {
      RunStep(instance, definition, steps);
      TransitionPreservesConsistency(instance, definition, steps[0].actionId, steps[0].at);
      var next := Transition(instance, definition, steps[0].actionId, steps[0].at).value;
      RunPreservesConsistency(next, definition, steps[1..]);
    }
  }

  /** The guard never lets a completed, consistent instance move. */
  lemma CompletedNeverPasses(instance: WorkflowInstance, definition: WorkflowDefinition, actionId: string)
    requires WellFormed(definition) && InstanceConsistent(instance, definition)
    requires instance.isCompleted
    ensures ValidateActionExecution(instance, definition, actionId).Fail?
  {
    GuardAcceptsIff(instance, definition, actionId);
    var s :| s in definition.states && s.id == instance.currentStateId && s.isFinal == instance.isCompleted;
    forall a | a in definition.actions && a.id == actionId ensures !CanFire(instance, definition, a) {
      forall c | c in definition.states && c.id == instance.currentStateId ensures c.isFinal {
        FindStateUnique(definition.states, c);
        FindStateUnique(definition.states, s);
      }
    }
  }

  /** There is no way back from completion: the only successful run of a
      completed instance is the empty one. */
  lemma CompletedIsTerminal(instance: WorkflowInstance, definition: WorkflowDefinition, steps: seq<Step>)
    requires WellFormed(definition) && InstanceConsistent(instance, definition)
    requires instance.isCompleted
    requires Run(instance, definition, steps).Ok?
    ensures steps == [] && Run(instance, definition, steps) == Ok(instance)
  {
    if |steps| > 0 {
      CompletedNeverPasses(instance, definition, steps[0].actionId);
    }
  }

  // ---------------------------------------------------------------------------
  // Worked scenarios

  function DraftState(): State { State("draft", "Draft", true, false, true) }
  function PublishedState(): State { State("published", "Published", false, true, true) }
  function PublishAction(): Action { Action("publish", "Publish", true, ["draft"], "published", None) }

  function PublishingFlow(): WorkflowDefinition {
    WorkflowDefinition("flow", "Publishing", [DraftState(), PublishedState()], [PublishAction()], 0, None)
  }

  /** Draft-to-published: the flow is accepted; a new instance starts in
      "draft", not completed; publishing moves it to "published", completed,
      with one history entry; publishing again is refused as a move out of a
      final state. */
  lemma PublishingScenario()
    ensures ValidateDefinition(PublishingFlow()).Pass?
    ensures var started := NewInstance(PublishingFlow(), "flow", "i1", 1);
      && started.currentStateId == "draft" && !started.isCompleted
      && var published := Transition(started, PublishingFlow(), "publish", 2);
      && published.Ok?
      && published.value.currentStateId == "published"
      && published.value.isCompleted
      && |published.value.history| == 1
      && Transition(published.value, PublishingFlow(), "publish", 3) == Err(InvalidTransition(FinalState))
  {
    var d := PublishingFlow();
    NotBlank("draft"); NotBlank("Draft"); NotBlank("published"); NotBlank("Published");
    NotBlank("publish"); NotBlank("Publish"); NotBlank("Publishing");
    assert ExactlyOneInitial(d.states) by {
      assert OnlyMatch(d.states, IsInitialState, 0);
    }
    assert HasState(d.states, "draft") by { assert d.states[0] == DraftState(); }
    assert HasState(d.states, "published") by { assert d.states[1] == PublishedState(); }
    assert ActionWellFormed(PublishAction(), d.states);
    assert WellFormed(d);
    ValidateDefinitionAccepts(d);

    var started := NewInstance(d, "flow", "i1", 1);
    assert started.currentStateId == "draft";
    assert FindAction(d.actions, "publish") == Some(PublishAction());
    FindStateUnique(d.states, DraftState());
    FindStateUnique(d.states, PublishedState());
    var published := Transition(started, d, "publish", 2);
    assert published.Ok?;
    assert published.value.currentStateId == "published";
  }

  /** Two states marked initial: rejected as "multiple initial states". */
  lemma TwoInitialStatesScenario()
    ensures var d := PublishingFlow().(states := [DraftState(), PublishedState().(isInitial := true)]);
      ValidateDefinition(d) == Fail(Validation(MultipleInitialStates))
  {
    var d := PublishingFlow().(states := [DraftState(), PublishedState().(isInitial := true)]);
    NotBlank("Publishing");
    assert UniqueStateIds(d.states);
    InitialStateCountChecked(d);
  }

  /** An action aimed at a state the definition lacks: rejected, naming the
      action and the missing target. */
  lemma MissingTargetScenario()
    ensures var d := PublishingFlow().(actions := [PublishAction().(toState := "nonexistent")]);
      ValidateDefinition(d) == Fail(Validation(InvalidTargetState("publish", "nonexistent")))
  {
    var d := PublishingFlow().(actions := [PublishAction().(toState := "nonexistent")]);
    var a := d.actions[0];
    NotBlank("draft"); NotBlank("Draft"); NotBlank("published"); NotBlank("Published");
    NotBlank("publish"); NotBlank("Publish"); NotBlank("Publishing"); NotBlank("nonexistent");
    assert ValidateStates(d.states) == Pass by {
      assert ExactlyOneInitial(d.states) by {
        assert OnlyMatch(d.states, IsInitialState, 0);
      }
      ValidateStatesAccepts(d.states);
    }
    assert DuplicateKeys(ActionIds(d.actions)) == [] by {
      DuplicateKeysEmpty(ActionIds(d.actions));
    }
    var ids := StateIdSet(d.states);
    assert "draft" in ids by { assert d.states[0].id == "draft"; }
    assert "nonexistent" !in ids;
    assert InvalidSources(a, ids) == [] by {
      assert a.fromStates == ["draft"];
      assert a.fromStates[1..] == [];
    }
    assert CheckAction(a, ids) == Fail(Validation(InvalidTargetState("publish", "nonexistent")));
    assert ValidateActions(d.actions, d.states) == FirstFailure(d.actions, (x: Action) => CheckAction(x, ids));
  }
}
