/** Finite directed graphs over names: walks, lassos and well-founded reachability.
    Shared by the dependency resolver and by the DAG execution engine. */
module Graphs {
  type Graph = map<string, set<string>>

  function Succ(g: Graph, x: string): set<string> {
    if x in g then g[x] else {}
  }

  ghost predicate Walk(g: Graph, p: seq<string>) {
    && |p| > 0
    && forall i, j :: 0 <= i < j < |p| && j == i + 1 ==> p[j] in Succ(g, p[i])
  }

  ghost predicate Repeats(p: seq<string>) {
    exists i :: 0 <= i < |p| - 1 && p[i] == p[|p| - 1]
  }

  /** A walk from x whose last node closes a cycle or lies in `blocked`. */
  ghost predicate LassoFrom(g: Graph, blocked: set<string>, x: string) {
    exists p :: Walk(g, p) && p[0] == x && (p[|p| - 1] in blocked || Repeats(p))
  }

  /** Such a walk whose last node is u. */
  ghost predicate LassoTo(g: Graph, blocked: set<string>, x: string, u: string) {
    exists p :: Walk(g, p) && p[0] == x && p[|p| - 1] == u && (u in blocked || Repeats(p))
  }

  /** Some cycle can be reached from x. */
  ghost predicate CycleReachable(g: Graph, x: string) {
    exists p :: Walk(g, p) && p[0] == x && Repeats(p)
  }

  ghost predicate Acyclic(g: Graph) {
    forall x :: x in g ==> !CycleReachable(g, x)
  }

  /** Every walk from x stops after at most n edges and avoids `blocked`. */
  ghost predicate Bounded(g: Graph, blocked: set<string>, x: string, n: nat)
    decreases n
  {
    && x !in blocked
    && (Succ(g, x) == {} || (n > 0 && forall y :: y in Succ(g, x) ==> Bounded(g, blocked, y, n - 1)))
  }

  lemma {:induction false} BoundedMonotone(g: Graph, blocked: set<string>, x: string, n: nat, m: nat)
    requires Bounded(g, blocked, x, n) && n <= m
    ensures Bounded(g, blocked, x, m)
    decreases n
  {
    if Succ(g, x) != {} {
      forall y | y in Succ(g, x) ensures Bounded(g, blocked, y, m - 1) {
        BoundedMonotone(g, blocked, y, n - 1, m - 1);
      }
    }
  }

  lemma {:induction false} BoundedShrink(g: Graph, blocked: set<string>, fewer: set<string>, x: string, n: nat)
    requires Bounded(g, blocked, x, n) && fewer <= blocked
    ensures Bounded(g, fewer, x, n)
    decreases n
  {
    if Succ(g, x) != {} {
      forall y | y in Succ(g, x) ensures Bounded(g, fewer, y, n - 1) {
        BoundedShrink(g, blocked, fewer, y, n - 1);
      }
    }
  }

  /** Cutting the out-edges of nodes that are themselves bounded loses no walk that matters. */
  lemma {:induction false} BoundedThroughCut(g: Graph, cut: Graph, blocked: set<string>, gone: set<string>,
                                             x: string, n: nat, m: nat)
    requires g.Keys == cut.Keys
    requires forall y :: y in g && y !in gone ==> Succ(cut, y) == Succ(g, y)
    requires forall y :: y in gone ==> Bounded(g, blocked, y, m)
    requires Bounded(cut, blocked, x, n)
    ensures Bounded(g, blocked, x, n + m)
    decreases n
  {
    if x in gone {
      BoundedMonotone(g, blocked, x, m, n + m);
    } else if Succ(g, x) != {} {
      forall y | y in Succ(g, x) ensures Bounded(g, blocked, y, n + m - 1) {
        BoundedThroughCut(g, cut, blocked, gone, y, n - 1, m);
      }
    }
  }

  lemma {:induction false} BoundedAlongWalk(g: Graph, blocked: set<string>, p: seq<string>, n: nat)
    requires Walk(g, p) && Bounded(g, blocked, p[0], n)
    ensures |p| - 1 <= n && Bounded(g, blocked, p[|p| - 1], n - (|p| - 1))
    decreases |p|
  {
    if |p| > 1 {
      assert p[1] in Succ(g, p[0]);
      BoundedAlongWalk(g, blocked, p[1..], n - 1);
    }
  }

  lemma {:induction false} NoBoundedLoop(g: Graph, blocked: set<string>, p: seq<string>, n: nat)
    requires Walk(g, p) && |p| > 1 && p[0] == p[|p| - 1] && Bounded(g, blocked, p[0], n)
    ensures false
    decreases n
  {
    BoundedAlongWalk(g, blocked, p, n);
    NoBoundedLoop(g, blocked, p, n - (|p| - 1));
  }

  lemma SubWalk(g: Graph, p: seq<string>, i: nat, j: nat)
    requires Walk(g, p) && i < j <= |p|
    ensures Walk(g, p[i..j])
  {}

  lemma PrependWalk(g: Graph, x: string, p: seq<string>)
    requires Walk(g, p) && p[0] in Succ(g, x)
    ensures Walk(g, [x] + p)
  {}

  /** Being bounded and having a lasso exclude each other. */
  lemma BoundedHasNoLasso(g: Graph, blocked: set<string>, x: string, n: nat)
    requires Bounded(g, blocked, x, n)
    ensures !LassoFrom(g, blocked, x)
  {
    forall p | Walk(g, p) && p[0] == x && (p[|p| - 1] in blocked || Repeats(p)) ensures false {
      BoundedAlongWalk(g, blocked, p, n);
      var i :| 0 <= i < |p| - 1 && p[i] == p[|p| - 1];
      SubWalk(g, p, 0, i + 1);
      BoundedAlongWalk(g, blocked, p[..i + 1], n);
      SubWalk(g, p, i, |p|);
      NoBoundedLoop(g, blocked, p[i..], n - i);
    }
  }

  /** A lasso from a successor y of x, seen while x is blocked too, is a lasso from x. */
  lemma LassoExtends(g: Graph, blocked: set<string>, x: string, y: string, u: string)
    requires y in Succ(g, x)
    requires LassoTo(g, blocked + {x}, y, u)
    ensures LassoTo(g, blocked, x, u)
  {
    var p :| Walk(g, p) && p[0] == y && p[|p| - 1] == u && (u in blocked + {x} || Repeats(p));
    var q := [x] + p;
    PrependWalk(g, x, p);
    assert q[0] == x && q[|q| - 1] == u;
    if u !in blocked {
      if Repeats(p) {
        var i :| 0 <= i < |p| - 1 && p[i] == p[|p| - 1];
        assert q[i + 1] == q[|q| - 1];
      } else {
        assert q[0] == q[|q| - 1];
      }
      assert Repeats(q);
    }
  }

  lemma LassoInLarger(g: Graph, h: Graph, blocked: set<string>, x: string, u: string)
    requires forall y :: y in g ==> Succ(g, y) <= Succ(h, y)
    requires LassoTo(g, blocked, x, u)
    ensures LassoTo(h, blocked, x, u)
  {
    var p :| Walk(g, p) && p[0] == x && p[|p| - 1] == u && (u in blocked || Repeats(p));
    assert Walk(h, p);
  }

  lemma LassoSomewhere(g: Graph, blocked: set<string>, x: string, u: string)
    requires LassoTo(g, blocked, x, u)
    ensures LassoFrom(g, blocked, x)
  {
    var p :| Walk(g, p) && p[0] == x && p[|p| - 1] == u && (u in blocked || Repeats(p));
  }

  lemma LassoIsCycle(g: Graph, x: string)
    ensures LassoFrom(g, {}, x) <==> CycleReachable(g, x)
  {
    if LassoFrom(g, {}, x) {
      var p :| Walk(g, p) && p[0] == x && (p[|p| - 1] in {} || Repeats(p));
    }
    if CycleReachable(g, x) {
      var p :| Walk(g, p) && p[0] == x && Repeats(p);
    }
  }

  lemma {:induction false} Pigeonhole(p: seq<string>, holes: set<string>) returns (i: nat, j: nat)
    requires |p| > |holes| && forall k :: 0 <= k < |p| ==> p[k] in holes
    ensures i < j < |p| && p[i] == p[j]
    decreases |p|
  {
    var x := p[|p| - 1];
    if k :| 0 <= k < |p| - 1 && p[k] == x {
      i, j := k, |p| - 1;
    } else {
      i, j := Pigeonhole(p[..|p| - 1], holes - {x});
    }
  }

  /** A walk longer than the number of nodes it may visit meets a cycle. */
  lemma LongWalkCycles(g: Graph, p: seq<string>, nodes: set<string>)
    requires Walk(g, p) && |p| > |nodes| && forall k :: 0 <= k < |p| ==> p[k] in nodes
    ensures exists x :: x in nodes && CycleReachable(g, x)
  {
    var i, j := Pigeonhole(p, nodes);
    SubWalk(g, p, i, j + 1);
    var q := p[i..j + 1];
    assert q[0] == q[|q| - 1];
    assert CycleReachable(g, p[i]);
  }
}
