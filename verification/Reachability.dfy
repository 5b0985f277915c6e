/**
 * The build helper that decides which modules sit on the eager critical path: those
 * reachable from an entry through static imports only. Computed once per module graph
 * by a stack-and-set worklist, then answered from a cache keyed by the graph's lookup.
 */
module Reachability {

  datatype ModuleInfo = ModuleInfo(isEntry: bool, importedIds: seq<string>)

  /** A finished build's module graph; its identity is the identity of the lookup function. */
  class Graph {
    const ids: seq<string>
    const info: map<string, ModuleInfo>

    constructor (ids: seq<string>, info: map<string, ModuleInfo>)
      ensures this.ids == ids && this.info == info
    {
      this.ids, this.info := ids, info;
    }
  }

  /** `getModuleInfo(id)?.importedIds ?? []` */
  function Imports(g: Graph, id: string): (imported: seq<string>) {
    if id in g.info then g.info[id].importedIds else []
  }

  predicate IsEntry(g: Graph, id: string) {
    id in g.ids && id in g.info && g.info[id].isEntry
  }

  /** A chain of static imports that starts at an entry. */
  ghost predicate IsChain(g: Graph, chain: seq<string>) {
    && chain != [] && IsEntry(g, chain[0])
    && forall i :: 0 <= i < |chain| - 1 ==> chain[i + 1] in Imports(g, chain[i])
  }

  ghost predicate Reachable(g: Graph, id: string) {
    exists chain :: IsChain(g, chain) && chain[|chain| - 1] == id
  }

  lemma EntryIsReachable(g: Graph, id: string)
    requires IsEntry(g, id)
    ensures Reachable(g, id)
  {
    assert IsChain(g, [id]);
  }

  lemma ImportIsReachable(g: Graph, id: string, imported: string)
    requires Reachable(g, id) && imported in Imports(g, id)
    ensures Reachable(g, imported)
  {
    var chain :| IsChain(g, chain) && chain[|chain| - 1] == id;
    var longer := chain + [imported];
    assert IsChain(g, longer) && longer[|longer| - 1] == imported;
  }

  /** A set that holds the entries and is closed under static imports holds everything reachable. */
  lemma {:induction false} ClosedSetHoldsChain(g: Graph, closed: set<string>, chain: seq<string>)
    requires forall id :: IsEntry(g, id) ==> id in closed
    requires forall id, imported :: id in closed && imported in Imports(g, id) ==> imported in closed
    requires IsChain(g, chain)
    ensures chain[|chain| - 1] in closed
    decreases |chain|
  {
    var n := |chain| - 1;
    if n == 0 {
    } else {
      var shorter := chain[..n];
      assert IsChain(g, shorter) by {
        forall i | 0 <= i < |shorter| - 1
          ensures shorter[i + 1] in Imports(g, shorter[i])
        {
          assert chain[i + 1] in Imports(g, chain[i]);
        }
      }
      ClosedSetHoldsChain(g, closed, shorter);
      assert chain[n - 1 + 1] in Imports(g, chain[n - 1]);
    }
  }

  /** Everything the worklist can ever meet. */
  ghost function Universe(g: Graph): (ids: set<string>) {
    (set id | id in g.ids) + (set id, imported | id in g.info && imported in g.info[id].importedIds :: imported)
  }

  /** What is still to be explored, in the worklist's invariant. */
  ghost predicate Explored(g: Graph, reachable: set<string>, stack: seq<string>) {
    && (forall id :: id in reachable || id in stack ==> Reachable(g, id) && id in Universe(g))
    && (forall id :: IsEntry(g, id) ==> id in reachable || id in stack)
    && (forall id, imported :: id in reachable && imported in Imports(g, id) ==>
        imported in reachable || imported in stack)
  }

  lemma PopVisited(g: Graph, reachable: set<string>, stack: seq<string>, next: string)
    requires Explored(g, reachable, stack + [next]) && next in reachable
    ensures Explored(g, reachable, stack)
  {
    assert forall id :: id in reachable || id in stack <==> id in reachable || id in stack + [next];
  }

  lemma ExploringShrinks(g: Graph, reachable: set<string>, stack: seq<string>, next: string)
    requires Explored(g, reachable, stack + [next]) && next !in reachable
    ensures Universe(g) - (reachable + {next}) < Universe(g) - reachable
  {
    assert next in stack + [next];
    assert next in Universe(g) - reachable;
  }

  lemma EmptyStackIsExact(g: Graph, reachable: set<string>)
    requires Explored(g, reachable, [])
    ensures forall id :: id in reachable <==> Reachable(g, id)
  {
    forall id | Reachable(g, id)
      ensures id in reachable
    {
      var chain :| IsChain(g, chain) && chain[|chain| - 1] == id;
      ClosedSetHoldsChain(g, reachable, chain);
    }
  }

  /** Terminates on every finite graph, cycles included, with exactly the reachable modules. */
  method ReachableModules(g: Graph) returns (reachable: set<string>)
    ensures forall id :: id in reachable <==> Reachable(g, id)
  {
    hide Explored, Universe, Reachable;
    reachable := {};
    var stack := Entries(g);
    EntriesAreToExplore(g, stack);
    while stack != []
      invariant Explored(g, reachable, stack)
      decreases Universe(g) - reachable, |stack|
    {
      var next := stack[|stack| - 1];
      assert stack == stack[..|stack| - 1] + [next];
      stack := stack[..|stack| - 1];
      if next in reachable {
        PopVisited(g, reachable, stack, next);
        continue;
      }
      ExploringShrinks(g, reachable, stack, next);
      assert reachable == (reachable + {next}) - {next};
      reachable := reachable + {next};
      stack := PushImports(g, next, reachable, stack);
    }
    EmptyStackIsExact(g, reachable);
  }

  method Entries(g: Graph) returns (stack: seq<string>)
    ensures forall id :: id in stack <==> IsEntry(g, id)
  {
    stack := [];
    for i := 0 to |g.ids|
      invariant forall id :: id in stack <==> id in g.ids[..i] && IsEntry(g, id)
    {
      if g.ids[i] in g.info && g.info[g.ids[i]].isEntry {
        stack := stack + [g.ids[i]];
      }
    }
    assert g.ids[..|g.ids|] == g.ids;
  }

  /** With the entries on the stack, nothing is explored yet and nothing is missing. */
  lemma EntriesAreToExplore(g: Graph, stack: seq<string>)
    requires forall id :: id in stack <==> IsEntry(g, id)
    ensures Explored(g, {}, stack)
  {
    forall id | id in stack
      ensures Reachable(g, id) && id in Universe(g)
    {
      EntryIsReachable(g, id);
    }
  }

  /** The inner loop: push the imports that are not in the set yet. */
  method PushImports(g: Graph, next: string, reachable: set<string>, stack: seq<string>) returns (pushed: seq<string>)
    requires next in reachable && Explored(g, reachable - {next}, stack + [next])
    ensures Explored(g, reachable, pushed)
  {
    var imported := Imports(g, next);
    pushed := stack;
    for i := 0 to |imported|
      invariant forall id :: id in pushed ==> id in stack || id in imported
      invariant forall id :: id in stack || (id in imported[..i] && id !in reachable) ==> id in pushed
    {
      if imported[i] !in reachable {
        pushed := pushed + [imported[i]];
      }
    }
    assert imported[..|imported|] == imported;
    assert forall id :: id in reachable || id in stack <==> id in reachable - {next} || id in stack + [next];
    forall id | id in imported
      ensures Reachable(g, id) && id in Universe(g)
    {
      assert next in stack + [next];
      ImportIsReachable(g, next, id);
    }
  }

  /** The module-level cache: the last lookup and the set computed for it. */
  class StaticReachability {
    var lookup: Graph?
    var ids: set<string>

    ghost predicate Valid()
      reads this
    {
      lookup != null ==> forall id :: id in ids <==> Reachable(lookup, id)
    }

    constructor ()
      ensures Valid() && lookup == null
    {
      lookup, ids := null, {};
    }

    /** A cached answer and a fresh one are the same answer. */
    method IsStaticallyReachable(id: string, g: Graph) returns (answer: bool)
      requires Valid()
      modifies this
      ensures Valid() && lookup == g
      ensures answer <==> Reachable(g, id)
      ensures old(lookup) == g ==> ids == old(ids)
    {
      if lookup == null || lookup != g {
        ids := ReachableModules(g);
        lookup := g;
      }
      answer := id in ids;
    }
  }
}
