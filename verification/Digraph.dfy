/** Finite directed graphs given by adjacency lists, and reachability in them. */
module Digraph {
  type Node = string
  type Graph = map<Node, seq<Node>>

  /** A node without an adjacency list has no outgoing edge. */
  predicate Edge(g: Graph, u: Node, v: Node) {
    u in g && v in g[u]
  }

  /** A path of `n` edges leads from `x` to `y`. */
  ghost predicate ReachIn(g: Graph, x: Node, y: Node, n: nat)
    decreases n
  {
    if n == 0 then x == y
    else exists w :: ReachIn(g, x, w, n - 1) && Edge(g, w, y)
  }

  ghost predicate Reach(g: Graph, x: Node, y: Node) {
    exists n: nat :: ReachIn(g, x, y, n)
  }

  ghost predicate Mutual(g: Graph, x: Node, y: Node) {
    Reach(g, x, y) && Reach(g, y, x)
  }

  /** `x` lies on a cycle: some edge out of it leads back. */
  ghost predicate OnCycle(g: Graph, x: Node) {
    exists y :: Edge(g, x, y) && Reach(g, y, x)
  }

  /** No edge leaves `s`. */
  ghost predicate Closed(g: Graph, s: set<Node>) {
    forall x, y :: x in s && Edge(g, x, y) ==> y in s
  }

  lemma ReachSelf(g: Graph, x: Node)
    ensures Reach(g, x, x)
  {
    assert ReachIn(g, x, x, 0);
  }

  lemma ReachEdge(g: Graph, x: Node, y: Node)
    requires Edge(g, x, y)
    ensures Reach(g, x, y)
  {
    assert ReachIn(g, x, x, 0);
    assert ReachIn(g, x, y, 1);
  }

  lemma {:induction false} ReachJoin(g: Graph, x: Node, y: Node, z: Node, m: nat, n: nat)
    requires ReachIn(g, x, y, m) && ReachIn(g, y, z, n)
    ensures ReachIn(g, x, z, m + n)
    decreases n
  {
    if n > 0 {
      var w :| ReachIn(g, y, w, n - 1) && Edge(g, w, z);
      ReachJoin(g, x, y, w, m, n - 1);
    }
  }

  lemma ReachTransitive(g: Graph, x: Node, y: Node, z: Node)
    requires Reach(g, x, y) && Reach(g, y, z)
    ensures Reach(g, x, z)
  {
    var m: nat :| ReachIn(g, x, y, m);
    var n: nat :| ReachIn(g, y, z, n);
    ReachJoin(g, x, y, z, m, n);
  }

  lemma ReachExtend(g: Graph, x: Node, y: Node, z: Node)
    requires Reach(g, x, y) && Edge(g, y, z)
    ensures Reach(g, x, z)
  {
    ReachEdge(g, y, z);
    ReachTransitive(g, x, y, z);
  }

  /** What is reachable from inside a closed set is inside it. */
  lemma {:induction false} ClosedReachIn(g: Graph, s: set<Node>, x: Node, y: Node, n: nat)
    requires Closed(g, s) && x in s && ReachIn(g, x, y, n)
    ensures y in s
    decreases n
  {
    if n > 0 {
      var w :| ReachIn(g, x, w, n - 1) && Edge(g, w, y);
      ClosedReachIn(g, s, x, w, n - 1);
    }
  }

  lemma ClosedReach(g: Graph, s: set<Node>, x: Node, y: Node)
    requires Closed(g, s) && x in s && Reach(g, x, y)
    ensures y in s
  {
    var n: nat :| ReachIn(g, x, y, n);
    ClosedReachIn(g, s, x, y, n);
  }

  lemma {:induction false} FirstStep(g: Graph, x: Node, y: Node, n: nat) returns (w: Node)
    requires n > 0 && ReachIn(g, x, y, n)
    ensures Edge(g, x, w) && Reach(g, w, y)
    decreases n
  {
    var v :| ReachIn(g, x, v, n - 1) && Edge(g, v, y);
    if n == 1 {
      w := y;
      ReachSelf(g, y);
    } else {
      w := FirstStep(g, x, v, n - 1);
      ReachExtend(g, w, v, y);
    }
  }

  /** A path between different nodes has a first edge. */
  lemma ReachFirstStep(g: Graph, x: Node, y: Node) returns (w: Node)
    requires Reach(g, x, y) && x != y
    ensures Edge(g, x, w) && Reach(g, w, y)
  {
    var n: nat :| ReachIn(g, x, y, n);
    w := FirstStep(g, x, y, n);
  }
}
