/**
 The three-colour depth-first search of scripts/check_architecture.py, which looks for a cycle
 among the workspace packages.
 */
module CycleCheck {
  import opened Common
  import opened Ordering

  type Graph = map<string, set<string>>

  ghost predicate Closed(g: Graph) {
    forall n :: n in g ==> g[n] <= g.Keys
  }

  /** Consecutive entries are edges of `g`. */
  ghost predicate IsPath(g: Graph, p: seq<string>) {
    && (forall n :: n in p ==> n in g)
    && forall i :: 0 < i < |p| ==> p[i] in g[p[i - 1]]
  }

  ghost predicate PathBetween(g: Graph, p: seq<string>, a: string, b: string) {
    p != [] && IsPath(g, p) && p[0] == a && p[|p| - 1] == b
  }

  ghost predicate Leads(g: Graph, a: string, b: string) {
    exists p :: PathBetween(g, p, a, b)
  }

  /** The packages that `name` depends on, directly or not, and `name` itself. */
  ghost function ReachableFrom(g: Graph, name: string): set<string> {
    set n | n in g.Keys && Leads(g, name, n)
  }

  ghost predicate IsCycle(g: Graph, c: seq<string>) {
    |c| >= 2 && IsPath(g, c) && c[0] == c[|c| - 1]
  }

  ghost predicate IsSimpleCycle(g: Graph, c: seq<string>) {
    IsCycle(g, c) && Distinct(c[1..])
  }

  ghost predicate Cyclic(g: Graph) {
    exists c :: IsCycle(g, c)
  }

  /** Every dependency comes before its dependents, and nothing is listed twice. */
  ghost predicate DependenciesFirst(g: Graph, order: seq<string>) {
    && Distinct(order)
    && (forall n :: n in order ==> n in g)
    && forall i, d :: 0 <= i < |order| && d in g[order[i]] ==> d in order[..i]
  }

  lemma LeadsSelf(g: Graph, a: string)
    requires a in g
    ensures Leads(g, a, a)
  {
    assert PathBetween(g, [a], a, a);
  }

  lemma LeadsThroughEdge(g: Graph, a: string, b: string, c: string)
    requires a in g && b in g[a] && Leads(g, b, c)
    ensures Leads(g, a, c)
  {
    var p :| PathBetween(g, p, b, c);
    assert PathBetween(g, [a] + p, a, c);
  }

  lemma ReachesSelf(g: Graph, a: string)
    requires a in g
    ensures a in ReachableFrom(g, a)
  {
    LeadsSelf(g, a);
  }

  lemma ReachesThroughEdge(g: Graph, a: string, b: string)
    requires a in g && b in g[a] && b in g
    ensures b in ReachableFrom(g, b) && ReachableFrom(g, b) <= ReachableFrom(g, a)
  {
    ReachesSelf(g, b);
    forall c | c in ReachableFrom(g, b)
      ensures c in ReachableFrom(g, a)
    {
      LeadsThroughEdge(g, a, b, c);
    }
  }

  /** A path that starts in a dependency-closed set stays in it. */
  lemma {:induction false} PathStaysInside(g: Graph, inside: set<string>, p: seq<string>)
    requires p != [] && IsPath(g, p) && p[0] in inside
    requires forall n :: n in inside ==> n in g && g[n] <= inside
    ensures p[|p| - 1] in inside
  {
    if |p| > 1 {
      assert p[1] in g[p[0]];
      PathStaysInside(g, inside, p[1..]);
    }
  }

  /** Along a path the position in a dependencies-first order goes strictly down. */
  lemma {:induction false} PathDescends(g: Graph, order: seq<string>, p: seq<string>, k: nat) returns (j: nat)
    requires DependenciesFirst(g, order) && IsPath(g, p)
    requires |p| >= 2 && k < |order| && order[k] == p[0]
    ensures j < k && order[j] == p[|p| - 1]
  {
    assert p[1] in g[p[0]];
    assert p[1] in order[..k];
    j :| 0 <= j < k && order[j] == p[1];
    if |p| > 2 {
      j := PathDescends(g, order, p[1..], j);
    }
  }

  /** A graph whose nodes all fit in one dependencies-first order has no cycle. */
  lemma OrderedIsAcyclic(g: Graph, order: seq<string>)
    requires DependenciesFirst(g, order)
    requires forall n :: n in g ==> n in order
    ensures !Cyclic(g)
  {
    forall c | IsCycle(g, c)
      ensures false
    {
      assert c[0] in order;
      var k :| 0 <= k < |order| && order[k] == c[0];
      var j := PathDescends(g, order, c, k);
      assert false;
    }
  }

  /** A node whose dependencies are all listed may come next. */
  lemma ExtendOrder(g: Graph, order: seq<string>, name: string)
    requires DependenciesFirst(g, order)
    requires name in g && name !in order
    requires forall d :: d in g[name] ==> d in order
    ensures DependenciesFirst(g, order + [name])
  {
    var longer := order + [name];
    forall i, d | 0 <= i < |longer| && d in g[longer[i]]
      ensures d in longer[..i]
    {
      if i < |order| {
        assert d in order[..i];
        assert longer[..i] == order[..i];
      } else {
        assert longer[..i] == order;
      }
    }
  }

  /** Python's `list.index`: the first position of `x`. */
  function IndexOf(s: seq<string>, x: string): (i: nat)
    requires x in s
    ensures i < |s| && s[i] == x && x !in s[..i]
  {
    if s[0] == x then 0 else
      var i := 1 + IndexOf(s[1..], x);
      assert s[..i] == [s[0]] + s[1..][..i - 1];
      i
  }

  class CycleChecker {
    const graph: Graph
    var visiting: set<string>
    var visited: set<string>
    var stack: seq<string>
    ghost var finished: seq<string>  // the order in which nodes joined `visited`

    ghost predicate Valid()
      reads this
    {
      && Closed(graph)
      && IsPath(graph, stack) && Distinct(stack)
      && (forall n :: n in stack <==> n in visiting)
      && (forall n :: n in finished <==> n in visited)
      && DependenciesFirst(graph, finished)
      && visiting !! visited
    }

    constructor (g: Graph)
      requires Closed(g)
      ensures Valid() && graph == g
      ensures visiting == {} && visited == {} && stack == [] && finished == []
    {
      graph := g;
      visiting, visited, stack, finished := {}, {}, [], [];
    }

    /** A name that is still being visited closes a simple cycle with the top of the stack. */
    lemma StackClosesCycle(name: string)
      requires Valid() && name in visiting
      requires stack != [] && name in graph[stack[|stack| - 1]]
      ensures name in stack
      ensures IsSimpleCycle(graph, stack[IndexOf(stack, name)..] + [name])
    {
      var start := IndexOf(stack, name);
      var tail := stack[start..];
      var c := tail + [name];
      hide Closed, DependenciesFirst, IndexOf;
      assert forall i :: 0 <= i < |tail| ==> c[i] == stack[start + i];
      assert IsPath(graph, c);
      assert c[1..] == tail[1..] + [name];
    }

    /** Everything reachable from a visited name is visited. */
    lemma VisitedHoldsReachable(name: string)
      requires Valid() && name in visited
      ensures ReachableFrom(graph, name) <= visited
    {
      forall n | n in visited
        ensures n in graph && graph[n] <= visited
      {
        var i :| 0 <= i < |finished| && finished[i] == n;
        forall d | d in graph[n]
          ensures d in visited
        {
          assert d in finished[..i];
        }
      }
      forall n | n in ReachableFrom(graph, name)
        ensures n in visited
      {
        var p :| PathBetween(graph, p, name, n);
        PathStaysInside(graph, visited, p);
      }
    }

    /** A node that is neither being visited nor visited goes on the stack. */
    method Enter(name: string)
      requires Valid() && name in graph && name !in visiting && name !in visited
      requires stack == [] || name in graph[stack[|stack| - 1]]
      modifies this`visiting, this`stack
      ensures Valid() && stack == old(stack) + [name] && visiting == old(visiting) + {name}
    {
      visiting := visiting + {name};
      stack := stack + [name];
    }

    /** The top of the stack is finished: its dependencies are all visited. */
    method Leave(name: string)
      requires Valid() && stack != [] && stack[|stack| - 1] == name && graph[name] <= visited
      modifies this`visiting, this`visited, this`stack, this`finished
      ensures Valid() && stack == old(stack)[..|old(stack)| - 1] && visiting == old(visiting) - {name}
      ensures visited == old(visited) + {name} && finished == old(finished) + [name]
    {
      ExtendOrder(graph, finished, name);
      stack := stack[..|stack| - 1];
      visiting := visiting - {name};
      visited := visited + {name};
      finished := finished + [name];
    }

    method Visit(name: string) returns (cycle: Option<seq<string>>)
      requires Valid() && name in graph
      requires stack == [] || name in graph[stack[|stack| - 1]]
      modifies this
      ensures cycle.Some? ==> IsSimpleCycle(graph, cycle.value)
      ensures cycle.None? ==>
                && Valid()
                && stack == old(stack) && visiting == old(visiting)
                && old(finished) <= finished
                && visited == old(visited) + ReachableFrom(graph, name)
      decreases graph.Keys - visiting - visited
    {
      if name in visiting {
        StackClosesCycle(name);
        var start := IndexOf(stack, name);
        return Some(stack[start..] + [name]);
      }
      if name in visited {
        VisitedHoldsReachable(name);
        return None;
      }
      hide Leads, IsPath, Distinct, DependenciesFirst, IsSimpleCycle, IndexOf, ReachableFrom;
      Enter(name);
      var deps := SortedNames(graph[name]);
      for i := 0 to |deps|
        invariant Valid()
        invariant stack == old(stack) + [name] && visiting == old(visiting) + {name}
        invariant old(finished) <= finished && old(visited) <= visited
        invariant forall j :: 0 <= j < i ==> deps[j] in visited
        invariant visited <= old(visited) + ReachableFrom(graph, name)
      {
        var dep := deps[i];
        assert graph.Keys - visiting - visited < graph.Keys - old(visiting) - old(visited) by {
          assert name in graph.Keys - old(visiting) - old(visited);
        }
        cycle := Visit(dep);
        if cycle.Some? {
          return;
        }
        ReachesThroughEdge(graph, name, dep);
      }
      Leave(name);
      assert stack == old(stack);
      ReachesSelf(graph, name);
      VisitedHoldsReachable(name);
      return None;
    }

    /** The driver loop over all packages. */
    method Check() returns (cycle: Option<seq<string>>)
      requires Valid() && visiting == {} && visited == {} && stack == []
      modifies this
      ensures cycle.None? <==> !Cyclic(graph)
      ensures cycle.Some? ==> IsSimpleCycle(graph, cycle.value)
      ensures cycle.None? ==>
                && visiting == {} && stack == [] && visited == graph.Keys
                && DependenciesFirst(graph, finished) && (forall n :: n in finished <==> n in graph)
    {
      var names := SortedNames(graph.Keys);
      for i := 0 to |names|
        invariant Valid() && visiting == {} && stack == []
        invariant visited <= graph.Keys
        invariant forall j :: 0 <= j < i ==> names[j] in visited
      {
        LeadsSelf(graph, names[i]);
        cycle := Visit(names[i]);
        if cycle.Some? {
          return;
        }
        stack := [];
      }
      assert visited == graph.Keys;
      OrderedIsAcyclic(graph, finished);
      return None;
    }
  }
}
