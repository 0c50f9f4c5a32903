/** The in-memory store (storage/InmemoryWorkflowRepository.cs): two
    dictionaries keyed by entity id, updated in place. */
module Storage {
  import opened Seqs
  import opened Models

  /** The stored values of `m` whose keys lie in `keys`. */
  ghost function ValuesAt<V>(m: map<string, V>, keys: set<string>): set<V>
    requires keys <= m.Keys
  {
    set k | k in keys :: m[k]
  }

  class InMemoryWorkflowRepository {
    var definitions: map<string, WorkflowDefinition>
    var instances: map<string, WorkflowInstance>

    /** Every entry is stored under its own id (saves key by `Id`). */
    ghost predicate Valid()
      reads this
    {
      && (forall id :: id in definitions ==> definitions[id].id == id)
      && (forall id :: id in instances ==> instances[id].id == id)
    }

    constructor ()
      ensures Valid()
      ensures definitions == map[] && instances == map[]
    {
      definitions := map[];
      instances := map[];
    }

    /** `SaveDefinitionAsync`: insert or overwrite under the definition's id. */
    method SaveDefinition(definition: WorkflowDefinition) returns (saved: WorkflowDefinition)
      requires Valid()
      modifies this
      ensures Valid()
      ensures saved == definition
      ensures definitions == old(definitions)[definition.id := definition]
      ensures instances == old(instances)
    {
      definitions := definitions[definition.id := definition];
      saved := definition;
    }

    /** `GetDefinitionAsync`: the stored definition, or nothing. */
    method GetDefinition(id: string) returns (r: Option<WorkflowDefinition>)
      ensures r.Some? <==> id in definitions
      ensures r.Some? ==> r.value == definitions[id]
    {
      r := if id in definitions then Some(definitions[id]) else None;
    }

    /** `GetAllDefinitionsAsync`: every stored definition once, in no
        particular order. */
    method GetAllDefinitions() returns (r: seq<WorkflowDefinition>)
      requires Valid()
      ensures multiset(r) == multiset(definitions.Values)
    {
      r := [];
      var remaining := definitions.Keys;
      ghost var visited: set<string> := {};
      while remaining != {}
        invariant remaining + visited == definitions.Keys && remaining !! visited
        invariant multiset(r) == multiset(ValuesAt(definitions, visited))
        decreases remaining
      {
        var id :| id in remaining;
        assert definitions[id] !in ValuesAt(definitions, visited);
        assert ValuesAt(definitions, visited + {id}) == ValuesAt(definitions, visited) + {definitions[id]};
        r := r + [definitions[id]];
        remaining := remaining - {id};
        visited := visited + {id};
      }
      assert ValuesAt(definitions, visited) == definitions.Values;
    }

    /** `DeleteDefinitionAsync`: remove the key; report whether it was there.
        Instances are never touched. */
    method DeleteDefinition(id: string) returns (removed: bool)
      requires Valid()
      modifies this
      ensures Valid()
      ensures removed <==> id in old(definitions)
      ensures definitions == old(definitions) - {id}
      ensures instances == old(instances)
    {
      removed := id in definitions;
      definitions := definitions - {id};
    }

    /** `SaveInstanceAsync`: insert or overwrite under the instance's id. */
    method SaveInstance(instance: WorkflowInstance) returns (saved: WorkflowInstance)
      requires Valid()
      modifies this
      ensures Valid()
      ensures saved == instance
      ensures instances == old(instances)[instance.id := instance]
      ensures definitions == old(definitions)
    {
      instances := instances[instance.id := instance];
      saved := instance;
    }

    /** `GetInstanceAsync`: the stored instance, or nothing. */
    method GetInstance(id: string) returns (r: Option<WorkflowInstance>)
      ensures r.Some? <==> id in instances
      ensures r.Some? ==> r.value == instances[id]
    {
      r := if id in instances then Some(instances[id]) else None;
    }

    /** `GetAllInstancesAsync`: every stored instance once, in no particular
        order. */
    method GetAllInstances() returns (r: seq<WorkflowInstance>)
      requires Valid()
      ensures multiset(r) == multiset(instances.Values)
    {
      r := [];
      var remaining := instances.Keys;
      ghost var visited: set<string> := {};
      while remaining != {}
        invariant remaining + visited == instances.Keys && remaining !! visited
        invariant multiset(r) == multiset(ValuesAt(instances, visited))
        decreases remaining
      {
        var id :| id in remaining;
        assert instances[id] !in ValuesAt(instances, visited);
        assert ValuesAt(instances, visited + {id}) == ValuesAt(instances, visited) + {instances[id]};
        r := r + [instances[id]];
        remaining := remaining - {id};
        visited := visited + {id};
      }
      assert ValuesAt(instances, visited) == instances.Values;
    }

    /** The stored instances of one definition. */
    ghost function InstancesOf(definitionId: string): set<WorkflowInstance>
      reads this
    {
      set i | i in instances.Values && i.workflowDefinitionId == definitionId
    }

    /** `GetInstancesByDefinitionIdAsync`: exactly the stored instances whose
        definition id is the argument, each once, in no particular order. */
    method GetInstancesByDefinitionId(definitionId: string) returns (r: seq<WorkflowInstance>)
      requires Valid()
      ensures multiset(r) == multiset(InstancesOf(definitionId))
    {
      r := [];
      var remaining := instances.Keys;
      ghost var visited: set<string> := {};
      while remaining != {}
        invariant remaining + visited == instances.Keys && remaining !! visited
        invariant multiset(r) ==
          multiset(set i | i in ValuesAt(instances, visited) && i.workflowDefinitionId == definitionId)
        decreases remaining
      {
        var id :| id in remaining;
        var instance := instances[id];
        assert instance !in ValuesAt(instances, visited);
        assert ValuesAt(instances, visited + {id}) == ValuesAt(instances, visited) + {instance};
        if instance.workflowDefinitionId == definitionId {
          r := r + [instance];
        }
        remaining := remaining - {id};
        visited := visited + {id};
      }
      assert ValuesAt(instances, visited) == instances.Values;
    }

    /** `DeleteInstanceAsync`: remove the key; report whether it was there. */
    method DeleteInstance(id: string) returns (removed: bool)
      requires Valid()
      modifies this
      ensures Valid()
      ensures removed <==> id in old(instances)
      ensures instances == old(instances) - {id}
      ensures definitions == old(definitions)
    {
      removed := id in instances;
      instances := instances - {id};
    }
  }
}
