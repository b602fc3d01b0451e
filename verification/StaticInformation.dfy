/** The class StaticInformation of print-introspected-doxygen.cc. */
module StaticInformation {
  import opened Lists
  import opened TypeGather

  class StaticInformation {
    const registry: Registry
    const aggregates: Aggregates
    var output: seq<Entry>
    var currentPath: seq<string>
    var alreadyProcessed: seq<TypeId>

    constructor (registry: Registry, aggregates: Aggregates)
      ensures this.registry == registry && this.aggregates == aggregates
      ensures output == [] && currentPath == [] && alreadyProcessed == []
    {
      this.registry := registry;
      this.aggregates := aggregates;
      output, currentPath, alreadyProcessed := [], [], [];
    }

    method GetCurrentPath() returns (path: string)
      ensures path == PathText(currentPath)
    {
      path := "";
      for i := 0 to |currentPath|
        invariant path == PathText(currentPath[..i])
      {
        path := path + "/" + currentPath[i];
        assert currentPath[..i + 1][..i] == currentPath[..i];
      }
      assert currentPath[..|currentPath|] == currentPath;
    }

    method RecordOutput(tid: TypeId)
      modifies this`output
      ensures output == old(output) + [(tid, PathText(currentPath))]
    {
      var path := GetCurrentPath();
      output := output + [(tid, path)];
    }

    method HasAlreadyBeenProcessed(tid: TypeId) returns (found: bool)
      ensures found <==> tid in alreadyProcessed
    {
      for i := 0 to |alreadyProcessed|
        invariant tid !in alreadyProcessed[..i]
      {
        if alreadyProcessed[i] == tid {
          return true;
        }
      }
      return false;
    }

    method Get(tid: TypeId) returns (paths: seq<string>)
      ensures paths == PathsOf(output, tid)
    {
      paths := [];
      for i := 0 to |output|
        invariant paths == PathsOf(output[..i], tid)
      {
        var entry := output[i];
        if entry.0 == tid {
          paths := paths + [entry.1];
        }
        assert output[..i + 1][..i] == output[..i];
      }
      assert output[..|output|] == output;
    }

    // Push the label and the type, search from the target, pop both again.
    method Descend(tid: TypeId, edge: Edge)
      requires Closed(registry, aggregates) && tid in registry.universe && edge.target in registry.universe
      requires tid !in alreadyProcessed
      modifies this
      ensures currentPath == old(currentPath) && alreadyProcessed == old(alreadyProcessed)
      ensures output == old(output)
              + Gathered(registry, aggregates, edge.target, alreadyProcessed + [tid], currentPath + [edge.text])
      decreases registry.universe - Elements(alreadyProcessed), 0
    {
      assert tid in Elements(alreadyProcessed + [tid])
          && Elements(alreadyProcessed) <= Elements(alreadyProcessed + [tid]);
      currentPath := currentPath + [edge.text];
      alreadyProcessed := alreadyProcessed + [tid];
      DoGather(edge.target);
      alreadyProcessed := alreadyProcessed[..|alreadyProcessed| - 1];
      currentPath := currentPath[..|currentPath| - 1];
    }

    // What has been recorded for tid once `edges` were tried, after `base`.
    ghost predicate Tried(tid: TypeId, base: seq<Entry>, edges: seq<Edge>)
      reads this
      requires Closed(registry, aggregates) && tid in registry.universe && tid !in alreadyProcessed
    {
      && (forall i | 0 <= i < |edges| :: edges[i].target in registry.universe)
      && output == base + GatheredVia(registry, aggregates, tid, edges, alreadyProcessed, currentPath)
    }

    // Take one more step out of tid.
    method Follow(tid: TypeId, edge: Edge, ghost base: seq<Entry>, ghost edges: seq<Edge>)
      requires Closed(registry, aggregates) && tid in registry.universe && edge.target in registry.universe
      requires tid !in alreadyProcessed && Tried(tid, base, edges)
      modifies this
      ensures currentPath == old(currentPath) && alreadyProcessed == old(alreadyProcessed)
      ensures Tried(tid, base, edges + [edge])
      decreases registry.universe - Elements(alreadyProcessed), 1
    {
      ViaOneMore(registry, aggregates, tid, edges, edge, alreadyProcessed, currentPath);
      AppendTwice(base, GatheredVia(registry, aggregates, tid, edges, alreadyProcessed, currentPath),
                  Gathered(registry, aggregates, edge.target, alreadyProcessed + [tid], currentPath + [edge.text]));
      Descend(tid, edge);
    }

    method GatherAttributes(tid: TypeId, ghost base: seq<Entry>)
      requires Closed(registry, aggregates) && tid in registry.universe
      requires tid !in alreadyProcessed && Tried(tid, base, [])
      modifies this
      ensures currentPath == old(currentPath) && alreadyProcessed == old(alreadyProcessed)
      ensures Tried(tid, base, AttributeEdges(registry, registry.attributes(tid)))
      decreases registry.universe - Elements(alreadyProcessed), 2
    {
      var attributes := registry.attributes(tid);
      for i := 0 to |attributes|
        invariant currentPath == old(currentPath) && alreadyProcessed == old(alreadyProcessed)
        invariant Tried(tid, base, AttributeEdges(registry, attributes[..i]))
      {
        ghost var edges := AttributeEdges(registry, attributes[..i]);
        assert attributes[..i + 1][..i] == attributes[..i];
        assert edges + [] == edges;
        match attributes[i] {
          case PointerTo(name, pointee) =>
            if pointee != registry.objectType {
              Follow(tid, Edge(name, pointee), base, edges);
            }
          case ContainerOf(name, item) =>
            Follow(tid, Edge(name + "/[i]", item), base, edges);
          case Plain(_) =>
        }
      }
      assert attributes[..|attributes|] == attributes;
    }

    method GatherChildren(tid: TypeId, ghost base: seq<Entry>, ghost before: seq<Edge>)
      requires Closed(registry, aggregates) && tid in registry.universe
      requires tid !in alreadyProcessed && Tried(tid, base, before)
      modifies this
      ensures currentPath == old(currentPath) && alreadyProcessed == old(alreadyProcessed)
      ensures Tried(tid, base, before + ChildEdges(registry, tid, registry.registered))
      decreases registry.universe - Elements(alreadyProcessed), 2
    {
      assert before + [] == before;
      for j := 0 to |registry.registered|
        invariant currentPath == old(currentPath) && alreadyProcessed == old(alreadyProcessed)
        invariant Tried(tid, base, before + ChildEdges(registry, tid, registry.registered[..j]))
      {
        var child := registry.registered[j];
        ghost var edges := before + ChildEdges(registry, tid, registry.registered[..j]);
        assert registry.registered[..j + 1][..j] == registry.registered[..j];
        assert before + ChildEdges(registry, tid, registry.registered[..j + 1])
            == edges + ChildEdge(registry, tid, child);
        assert edges + [] == edges;
        if registry.isChildOf(child, tid) {
          Follow(tid, Edge("$" + registry.name(child), child), base, edges);
        }
      }
      assert registry.registered[..|registry.registered|] == registry.registered;
    }

    method GatherAggregates(tid: TypeId, ghost base: seq<Entry>, ghost before: seq<Edge>)
      requires Closed(registry, aggregates) && tid in registry.universe
      requires tid !in alreadyProcessed && Tried(tid, base, before)
      modifies this
      ensures currentPath == old(currentPath) && alreadyProcessed == old(alreadyProcessed)
      ensures Tried(tid, base, before + AggregateEdges(registry, tid, aggregates))
      decreases registry.universe - Elements(alreadyProcessed), 2
    {
      assert before + [] == before;
      for k := 0 to |aggregates|
        invariant currentPath == old(currentPath) && alreadyProcessed == old(alreadyProcessed)
        invariant Tried(tid, base, before + AggregateEdges(registry, tid, aggregates[..k]))
      {
        var pair := aggregates[k];
        ghost var edges := before + AggregateEdges(registry, tid, aggregates[..k]);
        assert aggregates[..k + 1][..k] == aggregates[..k];
        assert before + AggregateEdges(registry, tid, aggregates[..k + 1])
            == edges + AggregateEdge(registry, tid, pair);
        assert edges + [] == edges;
        if pair.0 == tid || pair.1 == tid {
          var other := pair.1;
          if pair.1 == tid {
            other := pair.0;
          }
          Follow(tid, Edge("$" + registry.name(other), other), base, edges);
        }
      }
      assert aggregates[..|aggregates|] == aggregates;
    }

    // The entries of every walk from tid are appended, and both stacks are as
    // they were; the types not yet on the stack bound the recursion.
    method DoGather(tid: TypeId)
      requires Closed(registry, aggregates) && tid in registry.universe
      modifies this
      ensures currentPath == old(currentPath) && alreadyProcessed == old(alreadyProcessed)
      ensures output == old(output) + Gathered(registry, aggregates, tid, alreadyProcessed, currentPath)
      decreases registry.universe - Elements(alreadyProcessed), 3
    {
      var found := HasAlreadyBeenProcessed(tid);
      if found {
        return;
      }
      RecordOutput(tid);
      ghost var base := output;
      GatherAttributes(tid, base);
      GatherChildren(tid, base, AttributeEdges(registry, registry.attributes(tid)));
      GatherAggregates(tid, base, AttributeEdges(registry, registry.attributes(tid))
          + ChildEdges(registry, tid, registry.registered));
    }

    // Uniquefy takes its container by value, so what follows the search in the
    // source leaves the output as it is.
    method Gather(tid: TypeId)
      requires Closed(registry, aggregates) && tid in registry.universe
      requires currentPath == [] && alreadyProcessed == []
      modifies this
      ensures currentPath == [] && alreadyProcessed == []
      ensures output == old(output) + Gathered(registry, aggregates, tid, [], [])
    {
      DoGather(tid);
    }
  }

  lemma AppendTwice(a: seq<Entry>, b: seq<Entry>, c: seq<Entry>)
    ensures a + (b + c) == a + b + c
  {
  }
}
