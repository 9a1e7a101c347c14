/** Running the initializers in sorted order, up to the first failure. */
module Initializer {
  import opened Wrappers
  import opened DependencyGraph
  import opened GraphSort

  /** How an initializer function may come back: a status, or an exception turned into one. */
  type Outcomes = string -> bool

  datatype Result = Completed | SortFailed(status: Status) | FunctionFailed(name: string)

  /** A run stops at its first failure. */
  predicate OnlyLastFails(ran: seq<string>, ok: Outcomes) {
    forall i :: 0 <= i < |ran| - 1 ==> ok(ran[i])
  }

  method Execute(g: Graph, ok: Outcomes) returns (result: Result, ran: seq<string>)
    ensures Ordered(g, ran) && OnlyLastFails(ran, ok)
    ensures result == Completed ==>
      Elements(ran) == g.Keys && AllRegistered(g) && Acyclic(g) && forall x :: x in g ==> ok(x)
    ensures result.SortFailed? ==> ran == [] && !(AllRegistered(g) && Acyclic(g))
    ensures result.FunctionFailed? ==> ran != [] && ran[|ran| - 1] == result.name && !ok(result.name)
  {
    hide Ordered, AllRegistered, Acyclic, Explains;
    var status, sorted := TopSort(g);
    ran := [];
    if status != Ok {
      NothingOrdered(g);
      return SortFailed(status), ran;
    }
    for i := 0 to |sorted|
      invariant ran == sorted[..i] && forall j :: 0 <= j < i ==> ok(sorted[j])
    {
      // the order holds registered nodes only, so the function is there
      assert sorted[i] in g && g[sorted[i]].fn.Some? by { FunctionPresent(g, sorted, i); }
      ran := ran + [sorted[i]];
      if !ok(sorted[i]) {
        PrefixOrdered(g, sorted, i + 1);
        assert ran == sorted[..i + 1];
        return FunctionFailed(sorted[i]), ran;
      }
    }
    assert ran == sorted;
    forall x | x in g ensures ok(x) {
      assert x in Elements(sorted);
    }
    result := Completed;
  }

  lemma NothingOrdered(g: Graph)
    ensures Ordered(g, [])
  {
  }

  lemma FunctionPresent(g: Graph, s: seq<string>, i: nat)
    requires Ordered(g, s) && i < |s|
    ensures s[i] in g && g[s[i]].fn.Some?
  {
  }

  lemma PrefixOrdered(g: Graph, s: seq<string>, n: nat)
    requires Ordered(g, s) && n <= |s|
    ensures Ordered(g, s[..n])
  {
    assert forall i :: 0 <= i < n ==> s[..n][..i] == s[..i];
  }

  /**
   In any run each function runs at most once, only after every transitive prerequisite of it has
   run and returned OK, and nothing that depends on a failed function runs at all.
   */
  lemma RunsRespectDependencies(g: Graph, ran: seq<string>, ok: Outcomes, p: seq<string>)
    requires Ordered(g, ran) && OnlyLastFails(ran, ok)
    requires IsPath(g, p) && |p| >= 2 && p[0] in ran
    ensures var x, y := p[0], p[|p| - 1];
      y in ran && Position(ran, y) < Position(ran, x) && ok(y)
  {
    PathGoesBack(g, ran, p);
  }

  lemma DependentsOfFailureDoNotRun(g: Graph, ran: seq<string>, ok: Outcomes, p: seq<string>)
    requires Ordered(g, ran) && OnlyLastFails(ran, ok)
    requires IsPath(g, p) && |p| >= 2 && !ok(p[|p| - 1])
    ensures p[0] !in ran
  {
    if p[0] in ran {
      RunsRespectDependencies(g, ran, ok, p);
    }
  }
}
