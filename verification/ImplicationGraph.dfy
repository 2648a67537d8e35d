module ImplicationGraph {
  // The closure of a finite implication graph by depth-first search with one seen-set shared by all
  // recursive calls. A top node implies everything; nodes without an entry imply nothing further.

  type Graph<!N> = map<N, seq<N>>

  function Direct<N>(g: Graph<N>, n: N): seq<N> {
    if n in g then g[n] else []
  }

  ghost predicate IsPath<N(!new)>(g: Graph<N>, path: seq<N>) {
    forall i :: 0 <= i < |path| - 1 ==> path[i + 1] in Direct(g, path[i])
  }

  ghost predicate PathFromTo<N(!new)>(g: Graph<N>, path: seq<N>, a: N, b: N) {
    0 < |path| && path[0] == a && path[|path| - 1] == b && IsPath(g, path)
  }

  ghost predicate Reaches<N(!new)>(g: Graph<N>, a: N, b: N) {
    exists path :: PathFromTo(g, path, a, b)
  }

  /** What "granted implies required" means: required, or the top node, is reachable. */
  ghost predicate Implies<N(!new)>(g: Graph<N>, top: N, granted: N, required: N) {
    Reaches(g, granted, required) || Reaches(g, granted, top)
  }

  lemma ReachesSelf<N(!new)>(g: Graph<N>, a: N)
    ensures Reaches(g, a, a)
  {
    assert PathFromTo(g, [a], a, a);
  }

  lemma ReachesVia<N(!new)>(g: Graph<N>, a: N, b: N, c: N)
    requires Reaches(g, a, b) && Reaches(g, b, c)
    ensures Reaches(g, a, c)
  {
    var p :| PathFromTo(g, p, a, b);
    var q :| PathFromTo(g, q, b, c);
    var r := p + q[1..];
    forall i | 0 <= i < |r| - 1
      ensures r[i + 1] in Direct(g, r[i])
    {
      if i < |p| - 1 {
        assert p[i + 1] in Direct(g, p[i]);
      } else {
        assert r[i] == q[i - |p| + 1];
        assert q[i - |p| + 2] in Direct(g, q[i - |p| + 1]);
      }
    }
    assert PathFromTo(g, r, a, c);
  }

  lemma ReachesChild<N(!new)>(g: Graph<N>, a: N, child: N)
    requires child in Direct(g, a)
    ensures Reaches(g, a, child)
  {
    assert PathFromTo(g, [a, child], a, child);
  }

  /** Implication is reflexive and transitive, with the top node above everything. */
  lemma ImpliesIsPreorder<N(!new)>(g: Graph<N>, top: N, a: N, b: N, c: N)
    ensures Implies(g, top, a, a) && Implies(g, top, top, a)
    ensures Implies(g, top, a, b) && Implies(g, top, b, c) ==> Implies(g, top, a, c)
  {
    ReachesSelf(g, a);
    ReachesSelf(g, top);
    if Implies(g, top, a, b) && Implies(g, top, b, c) && Reaches(g, a, b) {
      if Reaches(g, b, c) {
        ReachesVia(g, a, b, c);
      } else {
        ReachesVia(g, a, b, top);
      }
    }
  }

  /** A set closed under direct implication contains everything reachable from its members. */
  lemma {:induction false} ClosedContainsReached<N(!new)>(g: Graph<N>, closed: set<N>, path: seq<N>, a: N, b: N)
    requires a in closed && forall n, m :: n in closed && m in Direct(g, n) ==> m in closed
    requires PathFromTo(g, path, a, b)
    ensures b in closed
    decreases |path|
  {
    if |path| > 1 {
      var shorter := path[..|path| - 1];
      ClosedContainsReached(g, closed, shorter, a, shorter[|shorter| - 1]);
      assert path[|path| - 1] in Direct(g, path[|path| - 2]);
    }
  }

  /** Every node of the graph: those with an entry and those listed in one. */
  ghost function Nodes<N(!new)>(g: Graph<N>): set<N> {
    g.Keys + set n, m | n in g && m in g[n] :: m
  }

  lemma DirectInNodes<N(!new)>(g: Graph<N>, n: N)
    ensures forall m :: m in Direct(g, n) ==> m in Nodes(g)
  {
    forall m | m in Direct(g, n)
      ensures m in Nodes(g)
    {
      assert n in g && m in g[n];
    }
  }

  class Seen<N(==)> {
    var nodes: set<N>

    constructor ()
      ensures nodes == {}
    {
      nodes := {};
    }
  }

  /** Every node met since `before` has been ruled out, and its direct implications were met. */
  ghost predicate RuledOut<N(!new)>(g: Graph<N>, top: N, required: N, before: set<N>, met: set<N>) {
    forall n :: n in met && n !in before ==> n != top && n != required && forall m :: m in Direct(g, n) ==> m in met
  }

  lemma RuledOutSince<N(!new)>(g: Graph<N>, top: N, required: N, before: set<N>, mid: set<N>, met: set<N>)
    requires RuledOut(g, top, required, before, mid) && RuledOut(g, top, required, mid, met) && mid <= met
    ensures RuledOut(g, top, required, before, met)
  {
  }

  lemma RuledOutWith<N(!new)>(g: Graph<N>, top: N, granted: N, required: N, before: set<N>, met: set<N>)
    requires granted != top && granted != required && forall m :: m in Direct(g, granted) ==> m in met
    requires RuledOut(g, top, required, before + {granted}, met)
    ensures RuledOut(g, top, required, before, met)
  {
  }

  lemma ImpliesByChild<N(!new)>(g: Graph<N>, top: N, granted: N, child: N, required: N)
    requires child in Direct(g, granted) && Implies(g, top, child, required)
    ensures Implies(g, top, granted, required)
  {
    ReachesChild(g, granted, child);
    if Reaches(g, child, required) {
      ReachesVia(g, granted, child, required);
    } else {
      ReachesVia(g, granted, child, top);
    }
  }

  /**
   The recursive search. A negative answer leaves behind a larger seen-set in which every node
   added on the way has been ruled out.
   */
  method Search<N(==,!new)>(g: Graph<N>, top: N, granted: N, required: N, seen: Seen<N>, ghost all: set<N>)
    returns (found: bool)
    requires granted in all && Nodes(g) <= all
    modifies seen
    ensures old(seen.nodes) <= seen.nodes
    ensures found ==> Implies(g, top, granted, required)
    ensures !found ==> granted in seen.nodes && RuledOut(g, top, required, old(seen.nodes), seen.nodes)
    decreases all - seen.nodes
  {
    if granted == top || granted == required {
      ReachesSelf(g, granted);
      return true;
    }
    if granted in seen.nodes {
      return false;
    }
    ghost var start := seen.nodes + {granted};
    seen.nodes := seen.nodes + {granted};
    var direct := Direct(g, granted);
    DirectInNodes(g, granted);
    for i := 0 to |direct|
      invariant start <= seen.nodes
      invariant forall k :: 0 <= k < i ==> direct[k] in seen.nodes
      invariant RuledOut(g, top, required, start, seen.nodes)
    {
      ghost var before := seen.nodes;
      assert direct[i] in all;
      var hit := Search(g, top, direct[i], required, seen, all);
      if hit {
        ImpliesByChild(g, top, granted, direct[i], required);
        return true;
      }
      RuledOutSince(g, top, required, start, before, seen.nodes);
    }
    RuledOutWith(g, top, granted, required, old(seen.nodes), seen.nodes);
    return false;
  }

  /** The search with a fresh seen-set decides implication, on every finite graph, cyclic or not. */
  method Decide<N(==,!new)>(g: Graph<N>, top: N, granted: N, required: N) returns (found: bool)
    ensures found <==> Implies(g, top, granted, required)
  {
    var seen := new Seen<N>();
    found := Search(g, top, granted, required, seen, Nodes(g) + {granted});
    if !found {
      ghost var closed := seen.nodes;
      assert RuledOut(g, top, required, {}, closed);
      forall b | Reaches(g, granted, b)
        ensures b in closed
      {
        var path :| PathFromTo(g, path, granted, b);
        ClosedContainsReached(g, closed, path, granted, b);
      }
    }
  }
}
