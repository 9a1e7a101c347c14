/** The dependency graph of initializers, built up by registrations in any order. */
module DependencyGraph {
  import opened Wrappers
  import opened Permutations

  /** A function is known by a number; a node that was only mentioned has none. */
  datatype NodeData = NodeData(fn: Option<nat>, prerequisites: set<string>)

  type Graph = map<string, NodeData>

  datatype Status = Ok | BadValue(name: string) | DuplicateKey(name: string) | GraphContainsCycle | InternalError

  // Registration.

  datatype Call = Call(name: string, fn: Option<nat>, prerequisites: seq<string>, dependents: seq<string>)

  function Node(g: Graph, x: string): NodeData {
    if x in g then g[x] else NodeData(None, {})
  }

  function Elements(s: seq<string>): set<string> {
    set x | x in s
  }

  predicate Accepts(g: Graph, c: Call) {
    c.fn.Some? && Node(g, c.name).fn.None?
  }

  /** The graph after a call that succeeds. */
  function Added(g: Graph, c: Call): Graph {
    map x | x in g.Keys + {c.name} + Elements(c.dependents) ::
      NodeData(if x == c.name then c.fn else Node(g, x).fn,
               Node(g, x).prerequisites
               + (if x == c.name then Elements(c.prerequisites) else {})
               + (if x in c.dependents then {c.name} else {}))
  }

  lemma AddedAlone(g: Graph, c: Call)
    ensures Added(g, c.(dependents := c.dependents[..0]))
         == g[c.name := NodeData(c.fn, Node(g, c.name).prerequisites + Elements(c.prerequisites))]
  {
    var h := Added(g, c.(dependents := c.dependents[..0]));
    var k := g[c.name := NodeData(c.fn, Node(g, c.name).prerequisites + Elements(c.prerequisites))];
    assert Elements(c.dependents[..0]) == {};
    SameGraph(h, k);
  }

  lemma AddedDependent(g: Graph, c: Call, d: string)
    ensures var h := Added(g, c);
      Added(g, c.(dependents := c.dependents + [d]))
      == h[d := NodeData(Node(h, d).fn, Node(h, d).prerequisites + {c.name})]
  {
    hide Added;
    var e := c.(dependents := c.dependents + [d]);
    var h, k := Added(g, c), Added(g, e);
    var m := h[d := NodeData(Node(h, d).fn, Node(h, d).prerequisites + {c.name})];
    forall x ensures (x in k <==> x in m) && (x in k ==> k[x] == m[x]) {
      AddedAt(g, c, x);
      AddedAt(g, e, x);
      assert x in c.dependents + [d] <==> x in c.dependents || x == d;
    }
    assert k.Keys == m.Keys;
  }

  lemma AddedAt(g: Graph, c: Call, x: string)
    ensures x in Added(g, c) <==> x in g || x == c.name || x in c.dependents
    ensures Node(Added(g, c), x) == NodeData(
      if x == c.name then c.fn else Node(g, x).fn,
      Node(g, x).prerequisites
      + (if x == c.name then Elements(c.prerequisites) else {})
      + (if x in c.dependents then {c.name} else {}))
  {
    if x !in Added(g, c) {
      assert Node(Added(g, c), x) == NodeData(None, {});
    }
  }

  lemma SameGraph(g: Graph, h: Graph)
    requires g.Keys == h.Keys
    requires forall x :: x in g ==> g[x].fn == h[x].fn && g[x].prerequisites == h[x].prerequisites
    ensures g == h
  {
    assert forall x :: x in g ==> g[x] == h[x];
  }

  class InitializerDependencyGraph {
    var nodes: Graph

    constructor ()
      ensures nodes == map[]
    {
      nodes := map[];
    }

    method AddInitializer(c: Call) returns (status: Status)
      modifies this
      ensures status == (if c.fn.None? then BadValue("Illegal to supply a NULL function")
                         else if Accepts(old(nodes), c) then Ok else DuplicateKey(c.name))
      ensures nodes == if Accepts(old(nodes), c) then Added(old(nodes), c) else old(nodes)
    {
      hide Added;
      if c.fn.None? {
        return BadValue("Illegal to supply a NULL function");
      }
      if Node(nodes, c.name).fn.Some? {
        return DuplicateKey(c.name);
      }
      var newNode := NodeData(c.fn, Node(nodes, c.name).prerequisites);
      for i := 0 to |c.prerequisites|
        invariant newNode == NodeData(c.fn, Node(nodes, c.name).prerequisites + Elements(c.prerequisites[..i]))
      {
        newNode := newNode.(prerequisites := newNode.prerequisites + {c.prerequisites[i]});
      }
      nodes := nodes[c.name := newNode];
      assert c.prerequisites[..|c.prerequisites|] == c.prerequisites;
      AddedAlone(old(nodes), c);
      for i := 0 to |c.dependents|
        invariant nodes == Added(old(nodes), c.(dependents := c.dependents[..i]))
      {
        var d := c.dependents[i];
        AddedDependent(old(nodes), c.(dependents := c.dependents[..i]), d);
        assert c.dependents[..i + 1] == c.dependents[..i] + [d];
        nodes := nodes[d := NodeData(Node(nodes, d).fn, Node(nodes, d).prerequisites + {c.name})];
      }
      assert c.dependents[..|c.dependents|] == c.dependents;
      status := Ok;
    }
  }

  /** Every call in turn succeeds. */
  predicate AllSucceed(cs: seq<Call>) {
    cs == [] || (AllSucceed(cs[..|cs| - 1]) && Accepts(GraphOf(cs[..|cs| - 1]), cs[|cs| - 1]))
  }

  function GraphOf(cs: seq<Call>): Graph {
    if cs == [] then map[] else Added(GraphOf(cs[..|cs| - 1]), cs[|cs| - 1])
  }

  // What a list of calls amounts to, whatever its order.

  ghost predicate Mentions(cs: seq<Call>, x: string) {
    exists c :: c in cs && (c.name == x || x in c.dependents)
  }

  ghost predicate Requires(cs: seq<Call>, x: string, y: string) {
    exists c :: c in cs && ((c.name == x && y in c.prerequisites) || (c.name == y && x in c.dependents))
  }

  ghost predicate DistinctNames(cs: seq<Call>) {
    DistinctKeys(cs, (c: Call) => c.name)
  }

  ghost predicate Describes(g: Graph, cs: seq<Call>) {
    && (forall x :: x in g <==> Mentions(cs, x))
    && (forall x, y :: y in Node(g, x).prerequisites <==> Requires(cs, x, y))
    && (forall x :: Node(g, x).fn.None? <==> forall c :: c in cs ==> c.name != x)
    && (forall c :: c in cs ==> Node(g, c.name).fn == c.fn)
  }

  lemma DescribesStep(cs: seq<Call>, c: Call)
    requires Describes(GraphOf(cs), cs) && Accepts(GraphOf(cs), c)
    ensures Describes(Added(GraphOf(cs), c), cs + [c])
  {
    hide Added, Node, Mentions, Requires;
    var g, ds := GraphOf(cs), cs + [c];
    var h := Added(g, c);
    forall x ensures x in h <==> Mentions(ds, x) {
      MentionsStep(cs, c, x);
    }
    forall x, y ensures y in Node(h, x).prerequisites <==> Requires(ds, x, y) {
      RequiresStep(cs, c, x, y);
    }
    forall x ensures Node(h, x).fn == if x == c.name then c.fn else Node(g, x).fn {
      FunctionStep(g, c, x);
    }
    assert forall d :: d in ds <==> d in cs || d == c;
  }

  lemma MentionsStep(cs: seq<Call>, c: Call, x: string)
    requires x in GraphOf(cs) <==> Mentions(cs, x)
    ensures x in Added(GraphOf(cs), c) <==> Mentions(cs + [c], x)
  {
    hide GraphOf;
    assert forall d :: d in cs + [c] <==> d in cs || d == c;
    assert Mentions(cs + [c], x) <==> Mentions(cs, x) || c.name == x || x in c.dependents;
  }

  lemma RequiresStep(cs: seq<Call>, c: Call, x: string, y: string)
    requires y in Node(GraphOf(cs), x).prerequisites <==> Requires(cs, x, y)
    ensures y in Node(Added(GraphOf(cs), c), x).prerequisites <==> Requires(cs + [c], x, y)
  {
    hide GraphOf;
    assert forall d :: d in cs + [c] <==> d in cs || d == c;
    assert Requires(cs + [c], x, y) <==>
      Requires(cs, x, y) || (c.name == x && y in c.prerequisites) || (c.name == y && x in c.dependents);
  }

  lemma FunctionStep(g: Graph, c: Call, x: string)
    ensures Node(Added(g, c), x).fn == if x == c.name then c.fn else Node(g, x).fn
  {
  }

  /** Calls succeed exactly when each brings a function and their names differ; the graph is then known. */
  lemma {:induction false} GraphDescribed(cs: seq<Call>)
    ensures AllSucceed(cs) <==> DistinctNames(cs) && forall c :: c in cs ==> c.fn.Some?
    ensures AllSucceed(cs) ==> Describes(GraphOf(cs), cs)
    decreases |cs|
  {
    if cs != [] {
      hide Describes, Accepts, Added;
      var n := |cs| - 1;
      var ds, c := cs[..n], cs[n];
      assert cs == ds + [c];
      GraphDescribed(ds);
      AcceptsExactly(ds, c);
      if AllSucceed(cs) {
        DescribesStep(ds, c);
      }
    } else {
      assert forall x :: x !in GraphOf(cs);
    }
  }

  lemma AcceptsExactly(ds: seq<Call>, c: Call)
    ensures var cs := ds + [c];
      (DistinctNames(cs) <==> DistinctNames(ds) && forall d :: d in ds ==> d.name != c.name)
      && ((forall d :: d in cs ==> d.fn.Some?) <==> (forall d :: d in ds ==> d.fn.Some?) && c.fn.Some?)
    ensures AllSucceed(ds) && Describes(GraphOf(ds), ds) ==>
      (Accepts(GraphOf(ds), c) <==> c.fn.Some? && forall d :: d in ds ==> d.name != c.name)
  {
    var cs := ds + [c];
    assert forall d :: d in cs <==> d in ds || d == c;
    assert cs[|ds|] == c && forall i :: 0 <= i < |ds| ==> cs[i] == ds[i] && ds[i] in ds;
  }

  /** The order of registration does not matter: the same calls succeed and leave the same graph. */
  lemma RegistrationOrderIrrelevant(cs: seq<Call>, ds: seq<Call>)
    requires multiset(cs) == multiset(ds) && AllSucceed(cs)
    ensures AllSucceed(ds) && GraphOf(ds) == GraphOf(cs)
  {
    hide Accepts, Added;
    GraphDescribed(cs);
    GraphDescribed(ds);
    assert forall c :: c in cs <==> c in multiset(cs);
    assert forall c :: c in ds <==> c in multiset(ds);
    DistinctInAnyOrder(cs, ds, (c: Call) => c.name);
    SameDescription(GraphOf(cs), GraphOf(ds), cs, ds);
  }

  lemma SameDescription(g: Graph, h: Graph, cs: seq<Call>, ds: seq<Call>)
    requires Describes(g, cs) && Describes(h, ds) && forall c :: c in cs <==> c in ds
    ensures g == h
  {
    forall x ensures x in g <==> x in h {
      assert Mentions(cs, x) <==> Mentions(ds, x);
    }
    forall x | x in g ensures g[x] == h[x] {
      assert Node(g, x) == g[x] && Node(h, x) == h[x];
      forall y ensures y in g[x].prerequisites <==> y in h[x].prerequisites {
        assert Requires(cs, x, y) <==> Requires(ds, x, y);
      }
      assert g[x].prerequisites == h[x].prerequisites;
      if c :| c in cs && c.name == x {
        assert Node(g, c.name).fn == Node(h, c.name).fn;
      } else {
        assert Node(g, x).fn.None? && Node(h, x).fn.None?;
      }
    }
  }
}
