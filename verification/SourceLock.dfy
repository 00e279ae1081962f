/** The dependency check of the source lock: accepted exactly when the sources
    are well formed and their dependency graph has no cycle.
 */
module SourceLock {
  import opened Sequences

  /** A locked source. Whether its remaining fields (version, retrieval, hash,
      architectures, files and the like) are acceptable is taken as given. */
  datatype Locked = Locked(id: string, dependsOn: seq<string>, fieldsOk: bool)

  type Graph = map<string, seq<string>>

  // ---- graphs ----

  /** A dependency with a slash pins a package and is not an edge. */
  predicate IsEdge(g: Graph, a: string, b: string) {
    a in g && b in g[a] && '/' !in b
  }

  /** Every edge leads to a node. */
  ghost predicate ClosedGraph(g: Graph) {
    forall a, b :: IsEdge(g, a, b) ==> b in g
  }

  ghost predicate IsPath(g: Graph, p: seq<string>) {
    forall i :: 0 <= i < |p| - 1 ==> IsEdge(g, p[i], p[i + 1])
  }

  ghost predicate IsCycle(g: Graph, p: seq<string>) {
    |p| >= 2 && IsPath(g, p) && p[0] == p[|p| - 1]
  }

  ghost predicate Acyclic(g: Graph) {
    forall p :: !IsCycle(g, p)
  }

  /** Every node of the list comes after all the nodes it depends on. */
  ghost predicate DependenciesFirst(g: Graph, order: seq<string>) {
    forall i, b :: 0 <= i < |order| && IsEdge(g, order[i], b) ==> b in order[..i]
  }

  /** A list of all nodes in which dependencies come first. */
  ghost predicate IsTopological(g: Graph, order: seq<string>) {
    NoRepeats(order) && (forall a :: a in order <==> a in g) && DependenciesFirst(g, order)
  }

  /** Along a path from a listed node, positions only go down. */
  lemma {:induction false} PathsGoDown(g: Graph, order: seq<string>, p: seq<string>, i: nat)
    requires DependenciesFirst(g, order) && NoRepeats(order) && IsPath(g, p) && |p| > 0
    requires i < |order| && order[i] == p[0]
    ensures |p| > 1 ==> exists j :: 0 <= j < i && order[j] == p[|p| - 1]
  {
    if |p| > 1 {
      assert IsEdge(g, p[0], p[1]);
      var j :| 0 <= j < i && order[j] == p[1];
      assert IsPath(g, p[1..]) by {
        forall k | 0 <= k < |p[1..]| - 1
          ensures IsEdge(g, p[1..][k], p[1..][k + 1])
        {
          assert IsEdge(g, p[k + 1], p[k + 2]);
        }
      }
      PathsGoDown(g, order, p[1..], j);
      assert p[1..][|p[1..]| - 1] == p[|p| - 1];
    }
  }

  lemma TopologicalMeansAcyclic(g: Graph, order: seq<string>)
    requires IsTopological(g, order)
    ensures Acyclic(g)
  {
    forall p
      ensures !IsCycle(g, p)
    {
      if |p| >= 2 && IsPath(g, p) {
        assert IsEdge(g, p[0], p[1]);
        var i :| 0 <= i < |order| && order[i] == p[0];
        PathsGoDown(g, order, p, i);
      }
    }
  }

  // ---- the depth-first search ----

  /** The colours agree with the stack of nodes being visited, which is a path,
      and with the list of finished nodes, in which dependencies come first. */
  ghost predicate Consistent(g: Graph, state: map<string, int>, finished: seq<string>, stack: seq<string>) {
    && state.Keys <= g.Keys
    && (forall id :: id in state ==> state[id] == 1 || state[id] == 2)
    && (forall id :: id in state && state[id] == 1 <==> id in stack)
    && (forall id :: id in state && state[id] == 2 <==> id in finished)
    && IsPath(g, stack)
    && NoRepeats(finished) && DependenciesFirst(g, finished)
  }

  lemma Enter(g: Graph, state: map<string, int>, finished: seq<string>, stack: seq<string>, id: string)
    requires Consistent(g, state, finished, stack) && id in g && id !in state
    requires stack != [] ==> IsEdge(g, stack[|stack| - 1], id)
    ensures Consistent(g, state[id := 1], finished, stack + [id])
  {
    hide DependenciesFirst, IsEdge;
    assert IsPath(g, stack + [id]);
  }

  lemma Leave(g: Graph, state: map<string, int>, finished: seq<string>, stack: seq<string>, id: string)
    requires Consistent(g, state, finished, stack + [id]) && id !in stack
    requires forall b :: IsEdge(g, id, b) ==> b in finished
    ensures Consistent(g, state[id := 2], finished + [id], stack)
  {
    hide IsEdge;
    var state', finished', deeper := state[id := 2], finished + [id], stack + [id];
    assert deeper[|stack|] == id;
    assert IsPath(g, stack) by {
      forall k | 0 <= k < |stack| - 1
        ensures IsEdge(g, stack[k], stack[k + 1])
      {
        assert IsEdge(g, deeper[k], deeper[k + 1]);
      }
    }
    assert forall a :: a in deeper <==> a in stack || a == id;
    assert DependenciesFirst(g, finished') by {
      forall i, b | 0 <= i < |finished'| && IsEdge(g, finished'[i], b)
        ensures b in finished'[..i]
      {
        assert finished'[..i] == finished[..i];
      }
    }
  }

  lemma StackClosesCycle(g: Graph, stack: seq<string>, i: nat)
    requires IsPath(g, stack) && i < |stack| && IsEdge(g, stack[|stack| - 1], stack[i])
    ensures IsCycle(g, stack[i..] + [stack[i]])
  {
    var p := stack[i..] + [stack[i]];
    forall k | 0 <= k < |p| - 1
      ensures IsEdge(g, p[k], p[k + 1])
    {
      if k < |p| - 2 {
        assert IsEdge(g, stack[i + k], stack[i + k + 1]);
      }
    }
  }

  class Search {
    const graph: Graph
    /** 1 while a node is being visited, 2 afterwards, absent before. */
    var state: map<string, int>
    /** The finished nodes in the order in which they were finished. */
    ghost var finished: seq<string>

    constructor (graph: Graph)
      ensures this.graph == graph && state == map[] && finished == []
    {
      this.graph := graph;
      state := map[];
      finished := [];
    }

    /** Visits a node reached from the end of the stack. Either it is finished, with
        everything it depends on, or a cycle was found. */
    method Visit(id: string, ghost stack: seq<string>) returns (ok: bool, ghost cycle: seq<string>)
      requires ClosedGraph(graph) && Consistent(graph, state, finished, stack) && id in graph
      requires stack != [] ==> IsEdge(graph, stack[|stack| - 1], id)
      modifies this
      ensures ok ==> Consistent(graph, state, finished, stack)
      ensures ok ==> old(finished) <= finished && id in finished
      ensures ok ==> state.Keys >= old(state.Keys)
      ensures !ok ==> IsCycle(graph, cycle)
      decreases graph.Keys - state.Keys
    {
      cycle := [];
      if id in state && state[id] == 1 {
        ghost var i :| 0 <= i < |stack| && stack[i] == id;
        cycle := stack[i..] + [id];
        StackClosesCycle(graph, stack, i);
        return false, cycle;
      }
      if id in state && state[id] == 2 {
        return true, cycle;
      }
      assert id !in state && id !in stack;
      hide IsCycle, NoRepeats, DependenciesFirst, IsPath;
      Enter(graph, state, finished, stack, id);
      state := state[id := 1];
      var dependencies := graph[id];
      for i := 0 to |dependencies|
        invariant Consistent(graph, state, finished, stack + [id])
        invariant old(finished) <= finished
        invariant state.Keys >= old(state.Keys) + {id}
        invariant forall k :: 0 <= k < i && '/' !in dependencies[k] ==> dependencies[k] in finished
      {
        var dependency := dependencies[i];
        if '/' !in dependency {
          assert IsEdge(graph, id, dependency);
          ok, cycle := Visit(dependency, stack + [id]);
          if !ok {
            return;
          }
        }
      }
      Leave(graph, state, finished, stack, id);
      state := state[id := 2];
      finished := finished + [id];
      ok := true;
    }
  }

  /** Searches from every node, in any order. An accepted graph has a list in which
      dependencies come first, a refused one has a cycle. */
  method CheckAcyclic(g: Graph) returns (ok: bool, ghost order: seq<string>)
    requires ClosedGraph(g)
    ensures ok ==> IsTopological(g, order)
    ensures ok <==> Acyclic(g)
  {
    var search := new Search(g);
    order := [];
    NothingVisited(g);
    var todo := g.Keys;
    while todo != {}
      invariant todo <= g.Keys
      invariant Consistent(g, search.state, search.finished, [])
      invariant forall id :: id in g && id !in todo ==> id in search.finished
      decreases todo
    {
      hide Consistent, IsCycle, IsTopological;
      var id :| id in todo;
      todo := todo - {id};
      var found;
      ghost var cycle;
      found, cycle := search.Visit(id, []);
      if !found {
        NotAcyclic(g, cycle);
        return false, order;
      }
    }
    ok, order := true, search.finished;
    TopologicalMeansAcyclic(g, order);
  }

  lemma NothingVisited(g: Graph)
    ensures Consistent(g, map[], [], [])
  {
  }

  lemma NotAcyclic(g: Graph, cycle: seq<string>)
    requires IsCycle(g, cycle)
    ensures !Acyclic(g)
  {
  }

  // ---- the lock ----

  predicate IsLowerOrDigit(c: char) {
    'a' <= c <= 'z' || '0' <= c <= '9'
  }

  /** Lower-case letters, digits, dots, underscores and dashes, the first of them
      a letter or a digit. */
  predicate IsSourceId(id: string) {
    |id| > 0 && IsLowerOrDigit(id[0]) && forall i :: 0 <= i < |id| ==> IsLowerOrDigit(id[i]) || id[i] in "._-"
  }

  /** A package and its version, both given, with one slash between them. */
  predicate IsPinnedPackage(d: string) {
    exists k :: 0 < k < |d| - 1 && d[k] == '/' && forall j :: 0 <= j < |d| && d[j] == '/' ==> j == k
  }

  /** Neither empty nor the source itself nor one that came before; a package if it
      has a slash. */
  predicate DependencyOk(s: Locked, i: nat)
    requires i < |s.dependsOn|
  {
    var d := s.dependsOn[i];
    d != "" && d != s.id && d !in s.dependsOn[..i] && ('/' in d ==> IsPinnedPackage(d))
  }

  predicate DependenciesOk(s: Locked) {
    forall i :: 0 <= i < |s.dependsOn| ==> DependencyOk(s, i)
  }

  predicate SourceOk(s: Locked) {
    IsSourceId(s.id) && s.fieldsOk && DependenciesOk(s)
  }

  ghost predicate SourcesOk(sources: seq<Locked>) {
    && (forall i :: 0 <= i < |sources| ==> SourceOk(sources[i]))
    && (forall i, j :: 0 <= i < j < |sources| ==> sources[i].id != sources[j].id)
  }

  /** The sources by ID. */
  function GraphOf(sources: seq<Locked>): Graph {
    if sources == [] then map[]
    else GraphOf(sources[..|sources| - 1])[sources[|sources| - 1].id := sources[|sources| - 1].dependsOn]
  }

  lemma {:induction false} GraphOfHas(sources: seq<Locked>)
    ensures forall id :: id in GraphOf(sources) <==> exists i :: 0 <= i < |sources| && sources[i].id == id
  {
    if sources != [] {
      var before := sources[..|sources| - 1];
      GraphOfHas(before);
      assert forall i :: 0 <= i < |before| ==> sources[i] == before[i];
    }
  }

  lemma {:induction false} GraphOfIs(sources: seq<Locked>, i: nat)
    requires i < |sources| && forall a, b :: 0 <= a < b < |sources| ==> sources[a].id != sources[b].id
    ensures sources[i].id in GraphOf(sources) && GraphOf(sources)[sources[i].id] == sources[i].dependsOn
  {
    var before := sources[..|sources| - 1];
    if i < |before| {
      GraphOfIs(before, i);
      assert before[i].id != sources[|before|].id;
    }
  }

  /** Checks one source's own fields. */
  method CheckSource(s: Locked) returns (ok: bool)
    ensures ok <==> SourceOk(s)
  {
    hide IsSourceId, IsPinnedPackage;
    if !IsSourceId(s.id) || !s.fieldsOk {
      return false;
    }
    for i := 0 to |s.dependsOn|
      invariant forall k :: 0 <= k < i ==> DependencyOk(s, k)
    {
      var d := s.dependsOn[i];
      if d == "" || d == s.id || d in s.dependsOn[..i] || ('/' in d && !IsPinnedPackage(d)) {
        assert !DependencyOk(s, i);
        return false;
      }
    }
    ok := true;
  }

  /** Checks all sources and collects them by ID. */
  method CheckSources(sources: seq<Locked>) returns (ok: bool, byID: Graph)
    ensures ok <==> SourcesOk(sources)
    ensures ok ==> byID == GraphOf(sources)
  {
    hide SourceOk;
    byID := map[];
    for i := 0 to |sources|
      invariant SourcesOk(sources[..i])
      invariant byID == GraphOf(sources[..i])
    {
      var s := sources[i];
      assert sources[..i + 1][..i] == sources[..i];
      GraphOfHas(sources[..i]);
      var one := CheckSource(s);
      if !one || s.id in byID {
        return false, byID;
      }
      byID := byID[s.id := s.dependsOn];
    }
    assert sources[..|sources|] == sources;
    ok := true;
  }

  /** The whole check. */
  method ValidateLock(schemaVersion: int, sources: seq<Locked>) returns (ok: bool, ghost order: seq<string>)
    ensures ok <==> schemaVersion == 1 && sources != [] && SourcesOk(sources)
                    && ClosedGraph(GraphOf(sources)) && Acyclic(GraphOf(sources))
    ensures ok ==> IsTopological(GraphOf(sources), order)
  {
    hide IsTopological, Acyclic, SourceOk;
    order := [];
    if schemaVersion != 1 || sources == [] {
      return false, order;
    }
    var byID;
    ok, byID := CheckSources(sources);
    if !ok {
      return;
    }
    for i := 0 to |sources|
      invariant forall k, b :: 0 <= k < i && b in sources[k].dependsOn && '/' !in b ==> b in byID
    {
      var s := sources[i];
      GraphOfIs(sources, i);
      for j := 0 to |s.dependsOn|
        invariant forall k :: 0 <= k < j && '/' !in s.dependsOn[k] ==> s.dependsOn[k] in byID
      {
        if '/' !in s.dependsOn[j] && s.dependsOn[j] !in byID {
          assert IsEdge(byID, s.id, s.dependsOn[j]);
          return false, order;
        }
      }
    }
    EdgesKnown(sources);
    ok, order := CheckAcyclic(byID);
  }

  lemma EdgesKnown(sources: seq<Locked>)
    requires forall a, b :: 0 <= a < b < |sources| ==> sources[a].id != sources[b].id
    requires forall k, b :: 0 <= k < |sources| && b in sources[k].dependsOn && '/' !in b ==> b in GraphOf(sources)
    ensures ClosedGraph(GraphOf(sources))
  {
    var g := GraphOf(sources);
    forall a, b | IsEdge(g, a, b)
      ensures b in g
    {
      GraphOfHas(sources);
      var i :| 0 <= i < |sources| && sources[i].id == a;
      GraphOfIs(sources, i);
    }
  }
}
