# Workflow engine, modelled in Dafny

This project models the core of a single-current-state workflow engine. A
**workflow definition** is a list of states and a list of actions. Each action
moves an instance from one of its source states to one target state. A
**workflow instance** records its current state, whether it has completed and
the history of the actions it has executed. The core has three parts:

- **The definition validator** (`validation.dfy`). It checks a definition's
  state/action graph in a fixed order and reports the first broken rule.
- **The transition guard** (`validation.dfy`). It is an ordered seven-step
  check that decides whether an action may fire. A structural defect gives a
  validation error; a guard that does not hold right now gives an
  invalid-transition error.
- **The engine** (`services.dfy`), running over an **in-memory store**
  (`storage.dfy`). The store is a class with two maps keyed by id, updated in
  place.

Files:

| file | contents |
|---|---|
| `seqs.dfy` | `Option`, `Result`, `Outcome`; the list operations the validator uses (filter, first match, first failure, duplicate keys); `Text`, the whitespace test behind "blank" |
| `models.dfy` | the entities as datatypes; the three error kinds; lookup by id |
| `validation.dfy` | the validator and the guard, with what "accepted" means stated independently of the order of checks |
| `storage.dfy` | `InMemoryWorkflowRepository`: two `map` fields and methods that `modifies this` |
| `services.dfy` | the pure transition, instance creation and available-actions functions; the instance invariant; `WorkflowService` over the store |
| `properties.dfy` | runs of several executions (history is append-only, consistency is kept, completion is terminal) and worked scenarios |

Errors are thrown as exceptions in the engine. Here they are a
`Result`/`Outcome` value whose error is `NotFound(kind, id)`,
`Validation(reason)` or `InvalidTransition(reason)`. Each reason is a tagged
value that carries the ids the exception message names.

Proved properties:

- **The validator accepts exactly the well-formed definitions**
  (`ValidateDefinitionAccepts`). A definition is well-formed when it has a
  non-blank name, at least one state, unique state ids, exactly one initial
  state, a non-blank id and name on every state, unique action ids, and
  actions that are named and whose sources and target are states of the
  definition.
- **The validator checks in its order.** The name and an empty state list
  are checked first. Duplicate state ids come next and name the shared id.
  Zero and several initial states then get distinct errors.
- **For a definition with unique state and action ids (as every stored
  definition has), the guard passes exactly when the named action exists and
  can fire** (`GuardAcceptsIff`). For such a definition, when the guard
  fails, it reports the first failing check in order (`GuardOrder`). For an
  accepted definition, its "target not found" branch is unreachable.
- **The engine keeps an invariant over the store** (`WorkflowService.Valid`):
  - every stored definition is well-formed;
  - the current state of every instance whose definition is still stored
    is a state of that definition (completed instances left behind by a
    deleted definition are not constrained);
  - that state's `isFinal` equals the instance's `isCompleted`;
  - the history is a chained path from the initial state.
- **The final state is absorbing**, and no run leaves a completed instance.
- **Every successful execution appends exactly one history entry** and
  leaves the earlier entries alone.

## Model

| member | source | states |
|---|---|---|
| `Seqs.DuplicateKeys` | validation/workflowValidator.cs:23-25 | the result holds exactly the keys that occur more than once, each once |
| `Seqs.DuplicateKeysEmpty` | validation/workflowValidator.cs:27-28 | no duplicate is reported iff the keys are pairwise distinct |
| `Seqs.Filter` | validation/workflowValidator.cs:31 | LINQ `Where`: an element is kept iff it is in the list and satisfies the predicate, and the result is no longer than the list; order is kept (see `Seqs.FilterAppend`) |
| `Seqs.FilterAppend` | services/workflowService.cs:141-143 | filtering a concatenation is the concatenation of the filtered parts, so the kept elements stay in their original order |
| `Seqs.FirstWhere` | validation/workflowValidator.cs:85 | `FirstOrDefault`: none iff nothing matches; otherwise an element that matches, at the first matching index |
| `Seqs.FilterSingle` | validation/workflowValidator.cs:31-35 | the `Where(...)` list has exactly one element iff exactly one element satisfies the predicate |
| `Seqs.FirstFailure` | validation/workflowValidator.cs:38-44 | a `foreach` that throws: passes iff every element passes, otherwise reports the first failing element's error |
| `Text.IsBlank` | validation/workflowValidator.cs:10 | `string.IsNullOrWhiteSpace` on a non-null string: empty, or every character is .NET white space (`Text.IsWhiteSpace`, the `char.IsWhiteSpace` set); used at lines 10, 40, 42, 62, 64 and 76 |
| `Text.BlankConcat` | validation/workflowValidator.cs:10 | the empty string is blank, and a concatenation is blank iff both parts are |
| `Text.NotBlank` | validation/workflowValidator.cs:10 | a string whose first character is not white space is not blank for `IsNullOrWhiteSpace` |
| `Models.FindState` | validation/workflowValidator.cs:92 | none iff no state has the id; otherwise a state of the list with that id |
| `Models.FindAction` | validation/workflowValidator.cs:85 | none iff no action has the id; otherwise an action of the list with that id |
| `Models.FindStateUnique` | services/workflowService.cs:107 | with unique state ids, a lookup by id finds the one state that carries it |
| `Models.FindActionUnique` | services/workflowService.cs:106 | with unique action ids, a lookup by id finds the one action that carries it |
| `Validation.ValidateDefinition` | validation/workflowValidator.cs:8-18 | every rejection is a validation error |
| `Validation.ValidateStates` | validation/workflowValidator.cs:20-45 | every rejection of the state list is a validation error |
| `Validation.CheckState` | validation/workflowValidator.cs:38-44 | a state passes iff its id and its name are both non-blank; a failure is a validation error |
| `Validation.StateIdSet` | validation/workflowValidator.cs:49 | an id is in the set iff some state carries it |
| `Validation.ValidateActions` | validation/workflowValidator.cs:47-81 | every rejection of the action list is a validation error |
| `Validation.InvalidSources` | validation/workflowValidator.cs:71 | a source is reported iff the action lists it and it is not a state id |
| `Validation.CheckAction` | validation/workflowValidator.cs:60-80 | every rejection of one action is a validation error |
| `Validation.UniqueStateIdsDistinct` | validation/workflowValidator.cs:23-27 | the list of state ids is duplicate-free iff no two states share an id |
| `Validation.CheckActionAccepts` | validation/workflowValidator.cs:60-80 | one action passes iff it has a non-blank id and name, at least one source, every source a state, and a non-blank target that is a state |
| `Validation.ValidateStatesAccepts` | validation/workflowValidator.cs:20-45 | the state checks pass iff state ids are unique, exactly one state is initial, and every state has a non-blank id and name |
| `Validation.ValidateActionsAccepts` | validation/workflowValidator.cs:47-81 | the action checks pass iff action ids are unique and every action is well-formed against the states |
| `Validation.ValidateDefinitionAccepts` | validation/workflowValidator.cs:8-18 | a definition is accepted iff it is well-formed (both directions) |
| `Validation.NameAndStatesCheckedFirst` | validation/workflowValidator.cs:10-14 | a blank name is reported first; with a name, an empty state list is reported next |
| `Validation.DuplicateStateIdsRejected` | validation/workflowValidator.cs:23-28 | two states sharing an id are rejected as duplicates naming that id, before any initial-state check |
| `Validation.InitialStateCountChecked` | validation/workflowValidator.cs:31-35 | with distinct ids, no initial state and two or more initial states are rejected with two distinct reasons |
| `Validation.ValidateActionExecution` | validation/workflowValidator.cs:83-108 | every rejection by the guard is either a validation error or an invalid transition |
| `Validation.GuardAcceptsIff` | validation/workflowValidator.cs:83-108 | with unique ids, the guard passes iff the action exists, is enabled, the current state exists and is not final, the action lists it as a source, and the target exists and is enabled |
| `Validation.UnknownActionRejected` | validation/workflowValidator.cs:85-87 | an action id the definition lacks is a validation error naming it |
| `Validation.GuardOrder` | validation/workflowValidator.cs:89-107 | with unique ids, for an action of the definition, the guard reports disabled action, unknown current state, final state, wrong source, unknown target and disabled target, in that order of precedence |
| `Validation.TargetAlwaysFound` | validation/workflowValidator.cs:102-104 | for an accepted definition, the guard never reports "target state not found" |
| `Storage.InMemoryWorkflowRepository.constructor` | storage/InmemoryWorkflowRepository.cs:8-9 | both maps start empty |
| `Storage.InMemoryWorkflowRepository.SaveDefinition` | storage/InmemoryWorkflowRepository.cs:12-16 | inserts or overwrites the entry under the definition's id and returns the argument; other keys and the instance map are unchanged |
| `Storage.InMemoryWorkflowRepository.GetDefinition` | storage/InmemoryWorkflowRepository.cs:18-22 | the stored definition if the id is a key, otherwise nothing |
| `Storage.InMemoryWorkflowRepository.GetAllDefinitions` | storage/InmemoryWorkflowRepository.cs:24-27 | the result, as a multiset, is exactly the stored definitions |
| `Storage.InMemoryWorkflowRepository.DeleteDefinition` | storage/InmemoryWorkflowRepository.cs:29-32 | returns true iff the key was present; afterwards the key is absent, other keys are kept and no instance is touched |
| `Storage.InMemoryWorkflowRepository.SaveInstance` | storage/InmemoryWorkflowRepository.cs:35-39 | inserts or overwrites the entry under the instance's id and returns the argument; other keys and the definition map are unchanged |
| `Storage.InMemoryWorkflowRepository.GetInstance` | storage/InmemoryWorkflowRepository.cs:41-45 | the stored instance if the id is a key, otherwise nothing |
| `Storage.InMemoryWorkflowRepository.GetAllInstances` | storage/InmemoryWorkflowRepository.cs:47-50 | the result, as a multiset, is exactly the stored instances |
| `Storage.InMemoryWorkflowRepository.GetInstancesByDefinitionId` | storage/InmemoryWorkflowRepository.cs:52-58 | the result, as a multiset, is exactly the stored instances whose definition id is the argument |
| `Storage.InMemoryWorkflowRepository.DeleteInstance` | storage/InmemoryWorkflowRepository.cs:60-63 | returns true iff the key was present; afterwards the key is absent and the definition map is unchanged |
| `Services.NewInstance` | services/workflowService.cs:69-79 | the new instance is at the first initial state, with an empty history, completed iff that state is final, under the requested definition id; it is consistent with a well-formed definition |
| `Services.Transition` | services/workflowService.cs:104-122 | fails iff the guard fails, with the guard's error; on success exactly one entry (action id, action name, old state, target, time) is appended, earlier entries are kept, and the instance moves to the target with `isCompleted` equal to the target's `isFinal` |
| `Services.AvailableActions` | services/workflowService.cs:138-143 | empty once completed; never longer than the action list; otherwise an action is offered iff it is an enabled action of the definition listing the current state as a source |
| `Services.AvailableActionsSingle` | services/workflowService.cs:141-143 | on a one-action list the offer is that action if it is enabled and lists the current state (and the instance is not completed), otherwise nothing; with `Services.AvailableActionsInOrder` this fixes the whole offer: each qualifying entry of the action list is offered once, in order |
| `Services.TransitionPreservesConsistency` | services/workflowService.cs:120-122 | a successful execution keeps the instance consistent with a well-formed definition |
| `Services.CompletedMeansFinal` | services/workflowService.cs:122 | a completed, consistent instance sits in a final state |
| `Services.CompletedIsAbsorbing` | validation/workflowValidator.cs:96-97 | executing any action of the definition on a completed instance fails as an invalid transition (final state or disabled action) |
| `Services.CurrentStateAlwaysFound` | validation/workflowValidator.cs:92-94 | for a consistent instance, the guard never reports "current state not found" |
| `Services.ExecutableIsAvailable` | services/workflowService.cs:141-143 | an action the guard lets an uncompleted instance execute is among the available actions |
| `Services.AvailableNotAlwaysExecutable` | validation/workflowValidator.cs:106-107 | the converse fails: some offered action has a disabled target and is refused |
| `Services.AvailableActionsInOrder` | services/workflowService.cs:141-143 | the offer keeps the definition's action order: splitting the action list splits the offer the same way |
| `Services.SaveKeepsInvariant` | services/workflowService.cs:124 | saving an instance consistent with its stored definition keeps the engine invariant |
| `Services.WorkflowService.constructor` | services/workflowService.cs:14-18 | the service wraps the given store, whose invariant holds |
| `Services.WorkflowService.CreateDefinition` | services/workflowService.cs:21-35 | succeeds iff the definition is well-formed; a success saves it under the fresh id; a rejection is the validator's error and leaves the store unchanged; instances are never touched |
| `Services.WorkflowService.GetDefinition` | services/workflowService.cs:37-44 | the stored definition, or not-found exactly when the id is not a key |
| `Services.WorkflowService.GetAllDefinitions` | services/workflowService.cs:46-49 | as a multiset, exactly the stored definitions |
| `Services.WorkflowService.DeleteDefinition` | services/workflowService.cs:51-63 | not-found if absent; a validation error, with the definition kept, if an uncompleted instance refers to it; otherwise removed, with instances unchanged |
| `Services.WorkflowService.StartInstance` | services/workflowService.cs:66-82 | not-found for an unknown definition; otherwise the new instance at the initial state is saved under the fresh id and returned |
| `Services.WorkflowService.GetInstance` | services/workflowService.cs:84-91 | the stored instance, or not-found exactly when the id is not a key |
| `Services.WorkflowService.GetAllInstances` | services/workflowService.cs:93-96 | as a multiset, exactly the stored instances |
| `Services.WorkflowService.ExecuteAction` | services/workflowService.cs:98-125 | not-found for a missing instance or definition; otherwise the result is the transition; the instance is saved only on success; a rejection leaves the store unchanged; the engine invariant is kept |
| `Services.WorkflowService.GetInstancesByDefinitionId` | services/workflowService.cs:127-130 | an instance is returned iff it is stored and belongs to the definition, each stored one once |
| `Services.WorkflowService.GetAvailableActions` | services/workflowService.cs:133-144 | not-found for a missing instance or definition; otherwise the available actions |
| `Services.WorkflowService.GetCurrentState` | services/workflowService.cs:146-152 | not-found for a missing instance or definition; otherwise a state of the definition whose id is the current state id and whose `isFinal` is the instance's `isCompleted` |
| `EngineProperties.Run` | services/workflowService.cs:98-125 | defines successive executions, stopping at the first rejection; its contract states that a successful run keeps the instance's id and definition id |
| `EngineProperties.TransitionRecords` | services/workflowService.cs:110-121 | a successful execution appends one entry with the action id and time of the call after the unchanged old history |
| `EngineProperties.RunAppendsHistory` | services/workflowService.cs:110-121 | after n successful executions the history has grown by n entries, the old entries are unchanged, and the new ones record the calls in order |
| `EngineProperties.RunPreservesConsistency` | services/workflowService.cs:120-122 | every successful run keeps the instance consistent with its well-formed definition |
| `EngineProperties.CompletedNeverPasses` | validation/workflowValidator.cs:96-97 | the guard refuses every action id for a completed, consistent instance |
| `EngineProperties.CompletedIsTerminal` | services/workflowService.cs:104 | the only successful run from a completed instance is the empty run |
| `EngineProperties.PublishingScenario` | services/workflowService.cs:66-125 | a draft/published flow is accepted; a new instance starts in draft; publishing completes it with one history entry; publishing again is refused because the state is final |
| `EngineProperties.TwoInitialStatesScenario` | validation/workflowValidator.cs:34-35 | a definition with two initial states is rejected as "multiple initial states" |
| `EngineProperties.MissingTargetScenario` | validation/workflowValidator.cs:78-79 | an action whose target is not a state is rejected, naming the action and the target |

## Left out

- HTTP controllers and the mapping of exceptions to status codes: these are
  transport glue.
- `async`/`Task`: every operation is synchronous.
- `Guid.NewGuid()` and `DateTime.UtcNow` become parameters.
  `Services.WorkflowService.CreateDefinition` requires that the fresh id is
  not a stored definition id and that no stored instance refers to it.
  `Services.WorkflowService.StartInstance` requires that the fresh id is not
  a stored instance id. A new GUID meets both conditions, which is why the
  source needs no such check.
- `ConcurrentDictionary` thread-safety, and the unguarded
  read-validate-write sequence in `ExecuteActionAsync`. Each operation is one
  atomic, sequential step, so the lost update that two concurrent executions
  on one instance can cause is not modelled. Neither is a start racing a
  delete.
- Reference aliasing: instances and definitions are values. In the source,
  `ExecuteActionAsync` mutates the stored object before saving it, but only
  after the guard has passed. The model builds the new value and saves it,
  with the same end state.
- Null strings and null lists: strings and lists are never null here.
  "Blank" is `IsNullOrWhiteSpace` on a non-null string, using .NET's
  white-space characters.
- Exception message texts: each error keeps its kind, its reason and the ids
  the message names. The order in which duplicate ids are listed in the
  message is not stated as a property.
- The interfaces `IWorkflowService.cs` and `IWorkflowRepository.cs` are
  signatures only.
- The request types: `CreateDefinitionRequest` stands for the
  create-definition request. The start and execute requests are reduced to
  their one id each.
- `State` is modelled from its uses in the validator, with the fields id,
  name, initial, final and enabled.
- The unknown-action case is not absorbed: executing an action id that the
  definition does not have is a validation error ("action not found") even
  on a completed instance. It is not an invalid transition, because the
  guard looks the action up before anything else.
  `Services.CompletedIsAbsorbing` states absorption for the definition's own
  action ids. `EngineProperties.CompletedNeverPasses` states that every id
  is refused.
- `Services.WorkflowService.GetCurrentState` requires the engine invariant.
  Without it, `First` could find no state and throw
  `InvalidOperationException`; under the invariant that cannot happen.
- `Services.WorkflowService.StartInstance` relies on the engine invariant
  for the same reason: the stored definition has an initial state, so
  `First(s => s.IsInitial)` cannot throw.
