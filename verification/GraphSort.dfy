/** Depth-first topological sort of the dependency graph, for any order of visiting sets. */
module GraphSort {
  import opened Wrappers
  import opened DependencyGraph

  /** y must run before x. */
  predicate Edge(g: Graph, x: string, y: string) {
    x in g && y in g[x].prerequisites
  }

  /** Each name is followed by one of its prerequisites. */
  predicate IsPath(g: Graph, p: seq<string>) {
    forall i :: 0 <= i < |p| - 1 ==> Edge(g, p[i], p[i + 1])
  }

  predicate IsCycle(g: Graph, p: seq<string>) {
    |p| >= 2 && p[0] == p[|p| - 1] && IsPath(g, p)
  }

  predicate AllRegistered(g: Graph) {
    forall x :: x in g ==> g[x].fn.Some? && g[x].prerequisites <= g.Keys
  }

  ghost predicate Acyclic(g: Graph) {
    forall p :: !IsCycle(g, p)
  }

  predicate Distinct(s: seq<string>) {
    forall i, j :: 0 <= i < j < |s| ==> s[i] != s[j]
  }

  /** Registered nodes without repetition, each after all its prerequisites. */
  predicate Ordered(g: Graph, s: seq<string>) {
    && Distinct(s)
    && forall i :: 0 <= i < |s| ==>
      s[i] in g && g[s[i]].fn.Some? && forall y :: y in g[s[i]].prerequisites ==> y in s[..i]
  }

  /** A name that cannot be run: no function, or mentioned as a prerequisite and never added. */
  ghost predicate Unregistered(g: Graph, x: string) {
    (x in g && g[x].fn.None?) || (x !in g && exists y :: Edge(g, y, x))
  }

  /** What an unsuccessful sort reports. */
  ghost predicate Explains(g: Graph, status: Status, names: seq<string>) {
    match status
    case BadValue(x) => Unregistered(g, x)
    case GraphContainsCycle => IsCycle(g, names)
    case _ => false
  }

  lemma {:induction false} DistinctFits(s: seq<string>, all: set<string>)
    requires Distinct(s) && forall i :: 0 <= i < |s| ==> s[i] in all
    ensures |s| <= |all|
  {
    if s != [] {
      var n := |s| - 1;
      DistinctFits(s[..n], all - {s[n]});
    }
  }

  function FirstOccurrence(s: seq<string>, x: string): (i: nat)
    requires x in s
    ensures i < |s| && s[i] == x && x !in s[..i]
  {
    if s[0] == x then 0
    else
      var i := FirstOccurrence(s[1..], x);
      assert s[..i + 1] == [s[0]] + s[1..][..i];
      i + 1
  }

  /** The state of the search: a chain of nodes in progress, and finished nodes in order. */
  ghost predicate Searching(g: Graph, inProgress: seq<string>, visited: set<string>, sorted: seq<string>) {
    && IsPath(g, inProgress) && Distinct(inProgress)
    && (forall i :: 0 <= i < |inProgress| ==> inProgress[i] in g && inProgress[i] !in visited)
    && Ordered(g, sorted) && visited == Elements(sorted)
  }

  lemma PathExtends(g: Graph, p: seq<string>, x: string)
    requires IsPath(g, p) && (p != [] ==> Edge(g, p[|p| - 1], x))
    ensures IsPath(g, p + [x])
  {
  }

  lemma PathSuffix(g: Graph, p: seq<string>, n: nat)
    requires IsPath(g, p) && n <= |p|
    ensures IsPath(g, p[n..])
  {
  }

  lemma ChainExtends(g: Graph, inProgress: seq<string>, x: string, visited: set<string>, sorted: seq<string>)
    requires Searching(g, inProgress, visited, sorted) && x in g && x !in visited && x !in inProgress
    requires inProgress != [] ==> Edge(g, inProgress[|inProgress| - 1], x)
    ensures Searching(g, inProgress + [x], visited, sorted)
  {
    PathExtends(g, inProgress, x);
  }

  lemma SearchFinishes(g: Graph, inProgress: seq<string>, x: string, visited: set<string>, sorted: seq<string>)
    requires Searching(g, inProgress + [x], visited, sorted) && x in g && g[x].fn.Some?
    requires g[x].prerequisites <= visited
    ensures Searching(g, inProgress, visited + {x}, sorted + [x])
  {
    var chain := inProgress + [x];
    assert chain[..|inProgress|] == inProgress;
    assert forall i :: 0 <= i < |inProgress| ==> inProgress[i] == chain[i] && chain[i] != chain[|inProgress|];
    assert forall i :: 0 <= i < |inProgress| - 1 ==> Edge(g, chain[i], chain[i + 1]);
    assert chain[|inProgress|] == x;
    var s := sorted + [x];
    assert forall i :: 0 <= i <= |sorted| ==> s[..i] == sorted[..i];
    assert sorted[..|sorted|] == sorted;
  }

  /** Pushing a node either closes a cycle or lengthens the chain. */
  lemma Pushed(g: Graph, inProgress: seq<string>, x: string, visited: set<string>, sorted: seq<string>)
    requires Searching(g, inProgress, visited, sorted) && x in g && x !in visited
    requires inProgress != [] ==> Edge(g, inProgress[|inProgress| - 1], x)
    ensures var chain := inProgress + [x]; var first := FirstOccurrence(chain, x);
      if first + 1 != |chain| then IsCycle(g, chain[first..])
      else Searching(g, chain, visited, sorted) && |chain| <= |g.Keys|
  {
    var chain := inProgress + [x];
    var first := FirstOccurrence(chain, x);
    PathExtends(g, inProgress, x);
    if first + 1 != |chain| {
      PathSuffix(g, chain, first);
    } else {
      assert chain[..first] == inProgress;
      ChainExtends(g, inProgress, x, visited, sorted);
      DistinctFits(chain, g.Keys);
    }
  }

  method RecursiveTopSort(g: Graph, current: string, inProgress: seq<string>, visited: set<string>, sorted: seq<string>)
    returns (status: Status, inProgress': seq<string>, visited': set<string>, sorted': seq<string>)
    requires current in g && Searching(g, inProgress, visited, sorted)
    requires inProgress != [] ==> Edge(g, inProgress[|inProgress| - 1], current)
    ensures status == Ok ==> inProgress' == inProgress && Searching(g, inProgress, visited', sorted')
    ensures status == Ok ==> visited <= visited' && current in visited'
    ensures status != Ok ==> Explains(g, status, sorted')
    decreases |g.Keys| - |inProgress|
  {
    hide Searching, IsCycle;
    status, inProgress', visited', sorted' := Ok, inProgress, visited, sorted;
    if current in visited {
      return;
    }
    if g[current].fn.None? {
      status := BadValue(current);
      return;
    }
    Pushed(g, inProgress, current, visited, sorted);
    inProgress' := inProgress + [current];
    var first := FirstOccurrence(inProgress', current);
    if first + 1 != |inProgress'| {
      sorted' := inProgress'[first..];
      status := GraphContainsCycle;
      return;
    }
    var todo := g[current].prerequisites;
    while todo != {}
      invariant status == Ok && inProgress' == inProgress + [current]
      invariant Searching(g, inProgress', visited', sorted') && visited <= visited'
      invariant todo <= g[current].prerequisites <= todo + visited'
      decreases |todo|
    {
      var next :| next in todo;
      if next !in g {
        assert Edge(g, current, next);
        status := BadValue(next);
        return;
      }
      status, inProgress', visited', sorted' := RecursiveTopSort(g, next, inProgress', visited', sorted');
      if status != Ok {
        return;
      }
      todo := todo - {next};
    }
    SearchFinishes(g, inProgress, current, visited', sorted');
    sorted' := sorted' + [current];
    if inProgress'[|inProgress'| - 1] != current {
      status := InternalError;
      return;
    }
    inProgress' := inProgress'[..|inProgress'| - 1];
    visited' := visited' + {current};
  }

  /** All nodes in some order, prerequisites first; or the reason why there is none. */
  method TopSort(g: Graph) returns (status: Status, sorted: seq<string>)
    ensures status == Ok ==> Ordered(g, sorted) && Elements(sorted) == g.Keys
    ensures status != Ok ==> Explains(g, status, sorted)
    ensures status == Ok <==> AllRegistered(g) && Acyclic(g)
  {
    hide Searching;
    var inProgress, visited := [], {};
    status, sorted := Ok, [];
    SearchStarts(g);
    var todo := g.Keys;
    while todo != {}
      invariant status == Ok && inProgress == [] && Searching(g, inProgress, visited, sorted)
      invariant todo <= g.Keys <= todo + visited
      decreases |todo|
    {
      var node :| node in todo;
      status, inProgress, visited, sorted := RecursiveTopSort(g, node, inProgress, visited, sorted);
      if status != Ok {
        ExplainedFailure(g, status, sorted);
        return;
      }
      todo := todo - {node};
    }
    SearchEnds(g, visited, sorted);
    OrderedIsAcyclic(g, sorted);
  }

  lemma SearchStarts(g: Graph)
    ensures Searching(g, [], {}, [])
  {
  }

  lemma SearchEnds(g: Graph, visited: set<string>, sorted: seq<string>)
    requires Searching(g, [], visited, sorted) && g.Keys <= visited
    ensures Ordered(g, sorted) && Elements(sorted) == g.Keys
  {
    assert forall x :: x in sorted ==> x in g;
  }

  lemma ExplainedFailure(g: Graph, status: Status, names: seq<string>)
    requires Explains(g, status, names)
    ensures !(AllRegistered(g) && Acyclic(g))
  {
  }

  /** Where a name stands in the order. */
  function Position(s: seq<string>, x: string): (i: nat)
    requires x in s
    ensures i < |s| && s[i] == x
  {
    FirstOccurrence(s, x)
  }

  lemma EdgeGoesBack(g: Graph, s: seq<string>, x: string, y: string)
    requires Ordered(g, s) && x in s && Edge(g, x, y)
    ensures y in s && Position(s, y) < Position(s, x)
  {
    var i := Position(s, x);
    assert y in s[..i];
    var j :| 0 <= j < i && s[..i][j] == y;
    assert s[j] == y && s[Position(s, y)] == y;
  }

  lemma {:induction false} PathGoesBack(g: Graph, s: seq<string>, p: seq<string>)
    requires Ordered(g, s) && IsPath(g, p) && |p| >= 2 && p[0] in s
    ensures p[|p| - 1] in s && Position(s, p[|p| - 1]) < Position(s, p[0])
    decreases |p|
  {
    EdgeGoesBack(g, s, p[0], p[1]);
    if |p| > 2 {
      PathSuffix(g, p, 1);
      PathGoesBack(g, s, p[1..]);
    }
  }

  /** An order with all prerequisites first leaves no room for a cycle. */
  lemma OrderedIsAcyclic(g: Graph, s: seq<string>)
    requires Ordered(g, s) && Elements(s) == g.Keys
    ensures AllRegistered(g) && Acyclic(g)
  {
    forall p ensures !IsCycle(g, p) {
      if IsCycle(g, p) {
        assert Edge(g, p[0], p[1]);
        assert p[0] in Elements(s);
        PathGoesBack(g, s, p);
      }
    }
    forall x | x in g ensures g[x].fn.Some? && g[x].prerequisites <= g.Keys {
      assert x in Elements(s);
      var i := Position(s, x);
      assert forall y :: y in s[..i] ==> y in Elements(s);
    }
  }
}
