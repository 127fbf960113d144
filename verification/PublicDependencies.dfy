// DescriptorBuilder::RecordPublicDependencies: the files a file may use without importing
// them itself.
module PublicDependencies {
  import opened Common
  import opened Graph

  type File = int

  // The public imports of each file; a missing one is null.
  type Imports = map<File, seq<Option<File>>>

  function PublicEdges(imports: Imports): Edges<File> {
    map f | f in imports :: set g | Some(g) in imports[f] && g in imports :: g
  }

  ghost predicate WellFormed(imports: Imports) {
    forall f, o :: f in imports && o in imports[f] && o.Some? ==> o.value in imports
  }

  // Reachable along public imports from one of the direct imports.
  ghost predicate Usable(imports: Imports, direct: seq<Option<File>>, g: File) {
    exists i :: 0 <= i < |direct| && direct[i].Some? && Reaches(PublicEdges(imports), direct[i].value, g)
  }

  class Builder {
    const imports: Imports
    var dependencies: set<File>

    constructor (imports: Imports)
      ensures this.imports == imports && dependencies == {}
    {
      this.imports := imports;
      dependencies := {};
    }

    // Every recorded file whose own loop has finished has its public imports recorded too.
    ghost predicate DoneExcept(open: set<File>)
      reads this
    {
      && dependencies <= imports.Keys
      && forall f :: f in dependencies && f !in open ==> PublicEdges(imports)[f] <= dependencies
    }

    // The recursion; open are the files whose loops are still running.
    method RecordPublicDependencies(file: Option<File>, ghost open: set<File>)
      requires WellFormed(imports) && (file.Some? ==> file.value in imports) && DoneExcept(open)
      modifies this
      ensures DoneExcept(open) && old(dependencies) <= dependencies
      ensures file.Some? ==> file.value in dependencies
      ensures forall g :: g in dependencies && g !in old(dependencies) ==>
                file.Some? && Reaches(PublicEdges(imports), file.value, g)
      decreases |imports.Keys - dependencies|
    {
      if file.None? || file.value in dependencies {
        return;
      }
      var f := file.value;
      ghost var edges := PublicEdges(imports);
      assert imports.Keys - (dependencies + {f}) < imports.Keys - dependencies;
      SmallerSet(imports.Keys - (dependencies + {f}), imports.Keys - dependencies);
      dependencies := dependencies + {f};
      ReachesSelf(edges, f);
      ghost var start := dependencies;
      for i := 0 to |imports[f]|
        invariant DoneExcept(open + {f}) && start <= dependencies
        invariant forall k :: 0 <= k < i && imports[f][k].Some? ==> imports[f][k].value in dependencies
        invariant forall g :: g in dependencies && g !in old(dependencies) ==> Reaches(edges, f, g)
      {
        var o := imports[f][i];
        SmallerSet(imports.Keys - dependencies, imports.Keys - start);
        ghost var before := dependencies;
        RecordPublicDependencies(o, open + {f});
        forall g | g in dependencies && g !in before ensures Reaches(edges, f, g) {
          ReachesCons(edges, f, o.value, g);
        }
      }
    }

    // Run over all direct imports, it records exactly the non-null files reachable from one
    // of them along public imports.
    method BuildDependencySet(direct: seq<Option<File>>)
      requires WellFormed(imports) && forall o :: o in direct && o.Some? ==> o.value in imports
      modifies this
      ensures forall g :: g in dependencies <==> Usable(imports, direct, g)
    {
      ghost var edges := PublicEdges(imports);
      dependencies := {};
      for i := 0 to |direct|
        invariant DoneExcept({})
        invariant forall k :: 0 <= k < i && direct[k].Some? ==> direct[k].value in dependencies
        invariant forall g :: g in dependencies ==> Usable(imports, direct, g)
      {
        ghost var before := dependencies;
        RecordPublicDependencies(direct[i], {});
        forall g | g in dependencies && g !in before ensures Usable(imports, direct, g) {
          assert Reaches(edges, direct[i].value, g);
        }
      }
      assert forall f :: f in dependencies && f in edges ==> edges[f] <= dependencies;
      forall g | Usable(imports, direct, g) ensures g in dependencies {
        var i :| 0 <= i < |direct| && direct[i].Some? && Reaches(edges, direct[i].value, g);
        ClosedSetHoldsReach(edges, dependencies, direct[i].value, g);
      }
    }
  }
}
