/**
 The dependency rules of scripts/check_architecture.py from the manifests to the verdict:
 edges are collected under the per-dependency rules, then the layer rules and the cycle check run.
 */
module Workspace {
  import opened Common
  import opened CycleCheck
  import PackageRoot

  const SCOPE := "@openrill/"
  const PROTOCOL := "@openrill/protocol"

  /** `directory` is relative to the repository root; `sections` are the four dependency tables in reading order. */
  datatype Manifest = Manifest(directory: string, sections: seq<map<string, string>>)

  datatype Rules = Rules(uiPackages: set<string>, uiRuntimePackages: set<string>, forbidden: seq<string>)

  datatype Problem =
    | UnknownDependency(package: string, dependency: string)
    | NotPinned(package: string, dependency: string, specifier: string)
    | ForbiddenProduct(package: string, dependency: string)
    | ServiceDependsOnUi(package: string, dependency: string)
    | ProtocolNotLeaf(dependencies: set<string>)
    | AppImportsApp(package: string, dependency: string)
    | ServiceImportsUi(package: string, dependency: string)
    | WorkspaceCycle(cycle: seq<string>)

  type Manifests = map<string, Manifest>

  /** `dict.update` section by section: a later section overrides an earlier one. */
  function Merged(sections: seq<map<string, string>>): map<string, string> {
    if sections == [] then map[]
    else Merged(sections[..|sections| - 1]) + sections[|sections| - 1]
  }

  function Dependencies(m: Manifest): map<string, string> {
    Merged(m.sections)
  }

  /** A name has the specifier of the last section that lists it, and is a dependency exactly when one does. */
  lemma {:induction false} LastSectionWins(sections: seq<map<string, string>>, d: string)
    ensures d in Merged(sections) <==> exists i :: 0 <= i < |sections| && d in sections[i]
    ensures forall i :: 0 <= i < |sections| && d in sections[i] && (forall j :: i < j < |sections| ==> d !in sections[j]) ==>
              d in Merged(sections) && Merged(sections)[d] == sections[i][d]
  {
    if sections != [] {
      var n := |sections| - 1;
      LastSectionWins(sections[..n], d);
      assert forall i :: 0 <= i < n ==> sections[..n][i] == sections[i];
      if i :| 0 <= i < |sections| && d in sections[i] && i < n {
        assert d in sections[..n][i];
      }
    }
  }

  predicate InGroup(m: Manifest, group: string) {
    group + "/" <= m.directory
  }

  /** A package is in a group exactly when its directory is below the directory of that name. */
  lemma InGroupIff(m: Manifest, group: string)
    requires '/' !in group
    ensures InGroup(m, group) <==> |PackageRoot.Split(m.directory)| >= 2 && PackageRoot.Split(m.directory)[0] == group
  {
    var s := m.directory;
    var i := PackageRoot.FirstSlash(s);
    if InGroup(m, group) {
      assert s == group + s[|group|..];
      PackageRoot.FirstPiece(group, s[|group|..]);
    }
    assert i < |s| ==> s[..i] + "/" <= s;
  }

  /** The edges: every dependency in the workspace scope. */
  ghost function DependencyGraph(manifests: Manifests): Graph {
    map n | n in manifests :: set d | d in Dependencies(manifests[n]) && SCOPE <= d
  }

  /** What one dependency entry must satisfy. */
  ghost predicate DependencyAllowed(rules: Rules, manifests: Manifests, n: string, d: string)
    requires n in manifests && d in Dependencies(manifests[n])
  {
    && (SCOPE <= d ==> d in manifests && Dependencies(manifests[n])[d] == "workspace:*")
    && !PackageRoot.IsForbiddenProduct(d, rules.forbidden)
    && (InGroup(manifests[n], "services") ==>
          d !in rules.uiPackages && !PackageRoot.IsUiRuntime(d, rules.uiRuntimePackages))
  }

  ghost predicate AllAllowed(rules: Rules, manifests: Manifests, names: set<string>)
    requires names <= manifests.Keys
  {
    forall n, d :: n in names && d in Dependencies(manifests[n]) ==> DependencyAllowed(rules, manifests, n, d)
  }

  ghost predicate NoAppImportsApp(manifests: Manifests, names: set<string>)
    requires names <= manifests.Keys
  {
    forall n, d :: n in names && InGroup(manifests[n], "apps") && d in DependencyGraph(manifests)[n] ==>
      d in manifests && !InGroup(manifests[d], "apps")
  }

  /** The reported problem is really there. `ServiceImportsUi` never is: its edges have passed the first rule. */
  ghost predicate Genuine(rules: Rules, manifests: Manifests, p: Problem) {
    match p
    case UnknownDependency(n, d) => IsEntry(manifests, n, d) && SCOPE <= d && d !in manifests
    case NotPinned(n, d, specifier) =>
      IsEntry(manifests, n, d) && SCOPE <= d && Dependencies(manifests[n])[d] == specifier != "workspace:*"
    case ForbiddenProduct(n, d) => IsEntry(manifests, n, d) && PackageRoot.IsForbiddenProduct(d, rules.forbidden)
    case ServiceDependsOnUi(n, d) =>
      && IsEntry(manifests, n, d) && InGroup(manifests[n], "services")
      && (d in rules.uiPackages || PackageRoot.IsUiRuntime(d, rules.uiRuntimePackages))
    case ProtocolNotLeaf(deps) => PROTOCOL in manifests && deps == DependencyGraph(manifests)[PROTOCOL] && deps != {}
    case AppImportsApp(n, d) =>
      && n in manifests && d in manifests && d in DependencyGraph(manifests)[n]
      && InGroup(manifests[n], "apps") && InGroup(manifests[d], "apps")
    case ServiceImportsUi(_, _) => false
    case WorkspaceCycle(cycle) => IsSimpleCycle(DependencyGraph(manifests), cycle)
  }

  predicate IsEntry(manifests: Manifests, n: string, d: string) {
    n in manifests && d in Dependencies(manifests[n])
  }

  /** The dependency entries of one package: its workspace edges, or the first broken rule. */
  method CollectEdges(rules: Rules, manifests: Manifests, n: string) returns (r: Result<set<string>, Problem>)
    requires n in manifests
    ensures r.Ok? <==> AllAllowed(rules, manifests, {n})
    ensures r.Ok? ==> r.value == DependencyGraph(manifests)[n] && r.value <= manifests.Keys
    ensures r.Err? ==> Genuine(rules, manifests, r.error)
  {
    var deps := Dependencies(manifests[n]);
    var edges := {};
    var rest := deps.Keys;
    while rest != {}
      invariant rest <= deps.Keys
      invariant forall d :: d in deps.Keys - rest ==> DependencyAllowed(rules, manifests, n, d)
      invariant edges == set d | d in deps.Keys - rest && SCOPE <= d
      decreases rest
    {
      var d :| d in rest;
      if SCOPE <= d {
        if d !in manifests {
          return Err(UnknownDependency(n, d));
        }
        if deps[d] != "workspace:*" {
          return Err(NotPinned(n, d, deps[d]));
        }
        edges := edges + {d};
      }
      if PackageRoot.IsForbiddenProduct(d, rules.forbidden) {
        return Err(ForbiddenProduct(n, d));
      }
      if InGroup(manifests[n], "services")
         && (d in rules.uiPackages || PackageRoot.IsUiRuntime(d, rules.uiRuntimePackages)) {
        return Err(ServiceDependsOnUi(n, d));
      }
      rest := rest - {d};
    }
    return Ok(edges);
  }

  /** The whole edge set, over which the search is closed. */
  method BuildGraph(rules: Rules, manifests: Manifests) returns (r: Result<Graph, Problem>)
    ensures r.Ok? <==> AllAllowed(rules, manifests, manifests.Keys)
    ensures r.Ok? ==> r.value == DependencyGraph(manifests) && Closed(r.value)
    ensures r.Err? ==> Genuine(rules, manifests, r.error)
  {
    var graph: Graph := map[];
    var rest := manifests.Keys;
    while rest != {}
      invariant rest <= manifests.Keys && graph.Keys == manifests.Keys - rest
      invariant AllAllowed(rules, manifests, graph.Keys)
      invariant forall n :: n in graph ==> graph[n] == DependencyGraph(manifests)[n] && graph[n] <= manifests.Keys
      decreases rest
    {
      var n :| n in rest;
      var edges := CollectEdges(rules, manifests, n);
      if edges.Err? {
        return Err(edges.error);
      }
      graph := graph[n := edges.value];
      rest := rest - {n};
    }
    return Ok(graph);
  }

  /** The layer rules over the collected edges. The service rule never fires here: the edges already passed it. */
  method CheckLayers(rules: Rules, manifests: Manifests, graph: Graph) returns (problem: Option<Problem>)
    requires graph == DependencyGraph(manifests) && Closed(graph)
    requires AllAllowed(rules, manifests, manifests.Keys)
    ensures problem.None? <==>
              && (PROTOCOL in graph ==> graph[PROTOCOL] == {})
              && NoAppImportsApp(manifests, manifests.Keys)
    ensures problem.Some? ==> Genuine(rules, manifests, problem.value)
  {
    if PROTOCOL in graph && graph[PROTOCOL] != {} {
      return Some(ProtocolNotLeaf(graph[PROTOCOL]));
    }
    var rest := manifests.Keys;
    while rest != {}
      invariant rest <= manifests.Keys
      invariant NoAppImportsApp(manifests, manifests.Keys - rest)
      decreases rest
    {
      var n :| n in rest;
      var deps := graph[n];
      while deps != {}
        invariant deps <= graph[n]
        invariant InGroup(manifests[n], "apps") ==>
                    forall d :: d in graph[n] - deps ==> !InGroup(manifests[d], "apps")
        decreases deps
      {
        var d :| d in deps;
        if InGroup(manifests[n], "apps") && InGroup(manifests[d], "apps") {
          return Some(AppImportsApp(n, d));
        }
        assert DependencyAllowed(rules, manifests, n, d);
        if InGroup(manifests[n], "services") && d in rules.uiPackages {
          return Some(ServiceImportsUi(n, d));
        }
        deps := deps - {d};
      }
      rest := rest - {n};
    }
    return None;
  }

  /** The verdict: every dependency allowed, the layers respected, and no cycle. */
  method CheckWorkspace(rules: Rules, manifests: Manifests) returns (problem: Option<Problem>)
    ensures problem.None? <==>
              && AllAllowed(rules, manifests, manifests.Keys)
              && (PROTOCOL in manifests ==> DependencyGraph(manifests)[PROTOCOL] == {})
              && NoAppImportsApp(manifests, manifests.Keys)
              && !Cyclic(DependencyGraph(manifests))
    ensures problem.Some? ==> Genuine(rules, manifests, problem.value)
  {
    var built := BuildGraph(rules, manifests);
    if built.Err? {
      return Some(built.error);
    }
    problem := CheckLayers(rules, manifests, built.value);
    if problem.Some? {
      return;
    }
    var checker := new CycleChecker(built.value);
    var cycle := checker.Check();
    if cycle.Some? {
      return Some(WorkspaceCycle(cycle.value));
    }
    return None;
  }
}
