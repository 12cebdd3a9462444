/** The strongly connected component search behind the cycle findings. */
module CycleFinder {
  import opened Digraph
  import Sorting
  import Sets

  // ---------------------------------------------------------------- specification

  /** The whole set of nodes that reach each other, listed once each. */
  ghost predicate IsComponent(g: Graph, c: seq<Node>) {
    && |c| > 0
    && Sorting.Distinct(c)
    && forall x, y :: x in c ==> (y in c <==> Mutual(g, x, y))
  }

  /** No node of an earlier list reaches a node of a later one. */
  ghost predicate ReverseTopological(g: Graph, cs: seq<seq<Node>>) {
    forall i, j, x, y :: 0 <= i < j < |cs| && x in cs[i] && y in cs[j] ==> !Reach(g, x, y)
  }

  /** `cs` lists exactly the components that contain a cycle. */
  ghost predicate CyclicComponents(g: Graph, cs: seq<seq<Node>>) {
    && (forall i :: 0 <= i < |cs| ==> IsComponent(g, cs[i]) && Sorting.Sorted(Sorting.StringLe, cs[i]))
    && (forall i, x :: 0 <= i < |cs| && x in cs[i] ==> OnCycle(g, x))
    && (forall x :: OnCycle(g, x) ==> exists i :: 0 <= i < |cs| && x in cs[i])
    && ReverseTopological(g, cs)
  }

  // ---------------------------------------------------------------- the state of the search

  /** A snapshot of the search; `popped` lists every component taken off the stack, last member first. */
  datatype Search = Search(index: map<Node, nat>, low: map<Node, nat>, next: nat, stack: seq<Node>,
                           popped: seq<seq<Node>>)

  ghost predicate Numbered(s: Search) {
    && s.low.Keys == s.index.Keys
    && (forall x :: x in s.index ==> s.index[x] < s.next)
    && (forall i :: 0 <= i < |s.stack| ==> s.stack[i] in s.index)
    && (forall i, j :: 0 <= i < j < |s.stack| ==> s.index[s.stack[i]] < s.index[s.stack[j]])
  }

  ghost predicate FinishedExplored(g: Graph, s: Search, grays: set<Node>) {
    && (forall h :: h in grays ==> h in s.stack)
    && (forall x, y :: x in s.index && x !in grays && Edge(g, x, y) ==> y in s.index)
  }

  ghost function PoppedNodes(s: Search): set<Node> {
    set x | x in s.index && x !in s.stack
  }

  ghost predicate OlderReachesNewer(g: Graph, s: Search) {
    forall i, j :: 0 <= i <= j < |s.stack| ==> Reach(g, s.stack[i], s.stack[j])
  }

  ghost predicate ReachesOlderGray(g: Graph, s: Search, grays: set<Node>, y: Node)
    requires Numbered(s) && y in s.stack && forall h :: h in grays ==> h in s.stack
  {
    exists h :: h in grays && s.index[h] <= s.index[y] && Reach(g, y, h)
  }

  ghost predicate PoppedComponents(g: Graph, s: Search) {
    && (forall k :: 0 <= k < |s.popped| ==> IsComponent(g, s.popped[k]))
    && (forall k, x :: 0 <= k < |s.popped| && x in s.popped[k] ==> x in PoppedNodes(s))
    && (forall x :: x in PoppedNodes(s) ==> exists k :: 0 <= k < |s.popped| && x in s.popped[k])
    && ReverseTopological(g, s.popped)
  }

  /** What holds between calls of `Visit`; `grays` are the nodes whose visit has not returned. */
  ghost predicate Consistent(g: Graph, s: Search, grays: set<Node>) {
    && Numbered(s)
    && FinishedExplored(g, s, grays)
    && Closed(g, PoppedNodes(s))
    && OlderReachesNewer(g, s)
    && (forall y {:trigger ReachesOlderGray(g, s, grays, y)} :: y in s.stack ==> ReachesOlderGray(g, s, grays, y))
    && PoppedComponents(g, s)
  }

  /** `b` keeps the numbers and the stack of `a`, and every node above that stack is new. */
  ghost predicate Extends(a: Search, b: Search) {
    && Numbered(a) && Numbered(b)
    && a.next <= b.next
    && (forall x :: x in a.index ==> x in b.index && b.index[x] == a.index[x])
    && a.stack <= b.stack
    && (forall i :: |a.stack| <= i < |b.stack| ==> a.next <= b.index[b.stack[i]])
  }

  ghost predicate KeepsLow(a: Search, b: Search) {
    forall x :: x in a.low ==> x in b.low && b.low[x] == a.low[x]
  }

  /** Some stacked node that `v` reaches carries the number `n`. */
  ghost predicate LowWitness(g: Graph, s: Search, v: Node, n: nat)
    requires Numbered(s)
  {
    exists w :: w in s.stack && s.index[w] == n && Reach(g, v, w)
  }

  /** Edges from the stack above position `from` back into `below` reach no number below `n`. */
  ghost predicate BoundsBackEdges(g: Graph, s: Search, from: nat, below: seq<Node>, n: nat)
    requires Numbered(s) && forall z :: z in below ==> z in s.index
  {
    forall i, z :: from <= i < |s.stack| && z in below && Edge(g, s.stack[i], z) ==> n <= s.index[z]
  }

  /** What a visit of `v` from `a` to `b` promises. */
  ghost predicate Visited(g: Graph, a: Search, b: Search, v: Node) {
    && Extends(a, b) && KeepsLow(a, b)
    && v in b.index && b.index[v] == a.next
    && (v in b.stack ==> b.low[v] < b.index[v] && LowWitness(g, b, v, b.low[v]))
    && (v !in b.stack ==> b.low[v] == b.index[v] && b.stack == a.stack)
    && BoundsBackEdges(g, b, |a.stack|, a.stack, b.low[v])
  }

  /** Inside the visit of `v` that began at `a`, after its first `k` successors. */
  ghost predicate Exploring(g: Graph, a: Search, s: Search, v: Node, succ: seq<Node>, k: nat) {
    && k <= |succ|
    && Extends(a, s) && KeepsLow(a, s)
    && v in s.index && s.index[v] == a.next
    && |a.stack| < |s.stack| && s.stack[|a.stack|] == v
    && s.low[v] <= s.index[v] && LowWitness(g, s, v, s.low[v])
    && (forall j :: 0 <= j < k ==> succ[j] in s.index)
    && (forall j :: 0 <= j < k && succ[j] in a.stack ==> s.low[v] <= s.index[succ[j]])
    && BoundsBackEdges(g, s, |a.stack| + 1, a.stack, s.low[v])
  }

  ghost predicate Mirrors(onStack: set<Node>, stack: seq<Node>) {
    forall x :: x in onStack <==> x in stack
  }

  function Min(a: nat, b: nat): nat {
    if a <= b then a else b
  }

  function Push(s: Search, v: Node): Search {
    Search(s.index[v := s.next], s.low[v := s.next], s.next + 1, s.stack + [v], s.popped)
  }

  function Lower(s: Search, v: Node, n: nat): Search
    requires v in s.low
  {
    s.(low := s.low[v := Min(s.low[v], n)])
  }

  // ---------------------------------------------------------------- steps of the search

  lemma StackIsDistinct(s: Search, i: nat, j: nat)
    requires Numbered(s) && i < |s.stack| && j < |s.stack|
    ensures s.stack[i] == s.stack[j] ==> i == j
  {
    assert i < j ==> s.index[s.stack[i]] < s.index[s.stack[j]];
    assert j < i ==> s.index[s.stack[j]] < s.index[s.stack[i]];
  }

  lemma PushReach(g: Graph, a: Search, grays: set<Node>, v: Node, i: nat)
    requires Consistent(g, a, grays) && i < |a.stack|
    requires forall h :: h in grays ==> Reach(g, h, v)
    ensures Reach(g, a.stack[i], v)
  {
    assert ReachesOlderGray(g, a, grays, a.stack[i]);
    var h :| h in grays && a.index[h] <= a.index[a.stack[i]] && Reach(g, a.stack[i], h);
    ReachTransitive(g, a.stack[i], h, v);
  }

  lemma PushConsistent(g: Graph, a: Search, grays: set<Node>, v: Node)
    requires Consistent(g, a, grays) && v !in a.index
    requires forall h :: h in grays ==> Reach(g, h, v)
    ensures Consistent(g, Push(a, v), grays + {v})
  {
    var s := Push(a, v);
    assert v !in a.stack;
    assert PoppedNodes(s) == PoppedNodes(a);
    forall i, j | 0 <= i <= j < |s.stack|
      ensures Reach(g, s.stack[i], s.stack[j])
    {
      if j < |a.stack| {
        assert Reach(g, a.stack[i], a.stack[j]);
      } else if i < |a.stack| {
        PushReach(g, a, grays, v, i);
      } else {
        ReachSelf(g, v);
      }
    }
    forall y | y in s.stack
      ensures ReachesOlderGray(g, s, grays + {v}, y)
    {
      if y == v {
        ReachSelf(g, v);
      } else {
        assert ReachesOlderGray(g, a, grays, y);
        var h :| h in grays && a.index[h] <= a.index[y] && Reach(g, y, h);
        assert h in grays + {v} && s.index[h] <= s.index[y];
      }
    }
  }

  lemma PushExplores(g: Graph, a: Search, grays: set<Node>, v: Node, succ: seq<Node>)
    requires Consistent(g, a, grays) && v !in a.index
    ensures Exploring(g, a, Push(a, v), v, succ, 0)
  {
    var s := Push(a, v);
    ReachSelf(g, v);
    assert v in s.stack && s.index[v] == s.low[v];
  }

  /** Consistency does not depend on the low links. */
  lemma LowerConsistent(g: Graph, s: Search, grays: set<Node>, v: Node, n: nat)
    requires Consistent(g, s, grays) && v in s.low
    ensures Consistent(g, Lower(s, v, n), grays)
  {
    var t := Lower(s, v, n);
    assert PoppedNodes(t) == PoppedNodes(s);
    forall y | y in t.stack
      ensures ReachesOlderGray(g, t, grays, y)
    {
      assert ReachesOlderGray(g, s, grays, y);
    }
  }

  lemma SkipStep(g: Graph, a: Search, s: Search, v: Node, succ: seq<Node>, k: nat)
    requires Exploring(g, a, s, v, succ, k) && k < |succ|
    requires succ[k] in s.index && succ[k] !in s.stack
    ensures Exploring(g, a, s, v, succ, k + 1)
  {
    assert forall z :: z in a.stack ==> z in s.stack;
  }

  lemma BackStep(g: Graph, a: Search, s: Search, v: Node, succ: seq<Node>, k: nat)
    requires Exploring(g, a, s, v, succ, k) && k < |succ|
    requires Edge(g, v, succ[k]) && succ[k] in s.stack
    ensures Exploring(g, a, Lower(s, v, s.index[succ[k]]), v, succ, k + 1)
  {
    var n := s.index[succ[k]];
    ReachEdge(g, v, succ[k]);
    assert LowWitness(g, s, v, n);
    LowerExplores(g, a, s, v, succ, k + 1, n);
  }

  lemma ExtendsTransitive(a: Search, s: Search, t: Search)
    requires Extends(a, s) && Extends(s, t)
    ensures Extends(a, t)
  {
    forall i | |a.stack| <= i < |t.stack|
      ensures a.next <= t.index[t.stack[i]]
    {
      if i < |s.stack| {
        assert t.stack[i] == s.stack[i];
      }
    }
  }

  lemma TreeBackEdges(g: Graph, a: Search, s: Search, t: Search, n: nat, m: nat)
    requires Extends(a, s) && Extends(s, t) && |a.stack| < |s.stack|
    requires BoundsBackEdges(g, s, |a.stack| + 1, a.stack, n)
    requires BoundsBackEdges(g, t, |s.stack|, s.stack, m)
    ensures BoundsBackEdges(g, t, |a.stack| + 1, a.stack, Min(n, m))
  {
    forall i, z | |a.stack| + 1 <= i < |t.stack| && z in a.stack && Edge(g, t.stack[i], z)
      ensures Min(n, m) <= t.index[z]
    {
      assert z in s.stack;
      if i < |s.stack| {
        assert t.stack[i] == s.stack[i];
      }
    }
  }

  lemma TreeStep(g: Graph, a: Search, s: Search, t: Search, v: Node, succ: seq<Node>, k: nat)
    requires Exploring(g, a, s, v, succ, k) && k < |succ|
    requires Edge(g, v, succ[k]) && Visited(g, s, t, succ[k])
    ensures v in t.low && Exploring(g, a, Lower(t, v, t.low[succ[k]]), v, succ, k + 1)
  {
    var next := succ[k];
    ExtendsTransitive(a, s, t);
    TreeLow(g, s, t, v, next);
    TreeBackEdges(g, a, s, t, s.low[v], t.low[next]);
    TreeProcessed(a, s, t, v, succ, k);
    LowerExplores(g, a, t, v, succ, k + 1, t.low[next]);
  }

  /** The successors handled before the visit stay handled, and so is the one just visited. */
  lemma TreeProcessed(a: Search, s: Search, t: Search, v: Node, succ: seq<Node>, k: nat)
    requires Extends(a, s) && Extends(s, t) && KeepsLow(s, t) && k < |succ| && v in s.low && succ[k] in t.low
    requires forall j :: 0 <= j < k ==> succ[j] in s.index
    requires forall j :: 0 <= j < k && succ[j] in a.stack ==> s.low[v] <= s.index[succ[j]]
    requires t.index[succ[k]] == s.next
    ensures forall j :: 0 <= j < k + 1 ==> succ[j] in t.index
    ensures forall j :: 0 <= j < k + 1 && succ[j] in a.stack ==> Min(t.low[v], t.low[succ[k]]) <= t.index[succ[j]]
  {
    forall j | 0 <= j < k + 1 && succ[j] in a.stack
      ensures Min(t.low[v], t.low[succ[k]]) <= t.index[succ[j]]
    {
      assert succ[j] in a.index && t.index[succ[j]] == s.index[succ[j]];
    }
  }

  /** Assembles the state of the visit after the low link of `v` took in `n`. */
  lemma LowerExplores(g: Graph, a: Search, t: Search, v: Node, succ: seq<Node>, k: nat, n: nat)
    requires k <= |succ| && Extends(a, t) && KeepsLow(a, t) && v !in a.index
    requires v in t.index && t.index[v] == a.next
    requires |a.stack| < |t.stack| && t.stack[|a.stack|] == v
    requires t.low[v] <= t.index[v] && LowWitness(g, t, v, Min(t.low[v], n))
    requires forall j :: 0 <= j < k ==> succ[j] in t.index
    requires forall j :: 0 <= j < k && succ[j] in a.stack ==> Min(t.low[v], n) <= t.index[succ[j]]
    requires BoundsBackEdges(g, t, |a.stack| + 1, a.stack, Min(t.low[v], n))
    ensures Exploring(g, a, Lower(t, v, n), v, succ, k)
  {
    var u := Lower(t, v, n);
    var w :| w in t.stack && t.index[w] == Min(t.low[v], n) && Reach(g, v, w);
    assert w in u.stack && u.index[w] == u.low[v];
  }

  lemma TreeLow(g: Graph, s: Search, t: Search, v: Node, next: Node)
    requires Numbered(s) && v in s.index && s.low[v] <= s.index[v]
    requires LowWitness(g, s, v, s.low[v])
    requires Edge(g, v, next) && Visited(g, s, t, next)
    ensures LowWitness(g, t, v, Min(t.low[v], t.low[next]))
  {
    if t.low[v] <= t.low[next] {
      var w :| w in s.stack && s.index[w] == s.low[v] && Reach(g, v, w);
      assert w in t.stack && t.index[w] == t.low[v];
    } else {
      assert next in t.stack;
      var w :| w in t.stack && t.index[w] == t.low[next] && Reach(g, next, w);
      ReachEdge(g, v, next);
      ReachTransitive(g, v, next, w);
    }
  }

  /** All successors of `v` are explored and an older stacked node is reachable: `v` stays on the stack. */
  lemma KeepStep(g: Graph, a: Search, s: Search, grays: set<Node>, v: Node, succ: seq<Node>)
    requires Consistent(g, a, grays) && Exploring(g, a, s, v, succ, |succ|)
    requires forall y :: Edge(g, v, y) ==> y in succ
    requires Consistent(g, s, grays + {v}) && s.low[v] < s.index[v]
    ensures Consistent(g, s, grays) && Visited(g, a, s, v)
  {
    BackEdgesFromAll(g, a, s, v, succ);
    FinishExplored(g, s, grays, v);
    var h := LowReachesGray(g, a, s, grays, v);
    forall y | y in s.stack
      ensures ReachesOlderGray(g, s, grays, y)
    {
      assert ReachesOlderGray(g, s, grays + {v}, y);
      GrayWithout(g, s, grays, v, h, y);
    }
  }

  lemma FinishExplored(g: Graph, s: Search, grays: set<Node>, v: Node)
    requires FinishedExplored(g, s, grays + {v})
    requires forall y :: Edge(g, v, y) ==> y in s.index
    ensures FinishedExplored(g, s, grays)
  {
    forall h | h in grays
      ensures h in s.stack
    {
      assert h in grays + {v};
    }
    forall x, y | x in s.index && x !in grays && Edge(g, x, y)
      ensures y in s.index
    {
      if x != v {
        assert x !in grays + {v};
      }
    }
  }

  lemma LowReachesGray(g: Graph, a: Search, s: Search, grays: set<Node>, v: Node) returns (h: Node)
    requires Consistent(g, a, grays) && Extends(a, s) && v in s.low && LowWitness(g, s, v, s.low[v])
    requires s.low[v] < s.index[v] == a.next
    ensures h in grays && h in s.index && s.index[h] <= s.index[v] && Reach(g, v, h)
  {
    var w :| w in s.stack && s.index[w] == s.low[v] && Reach(g, v, w);
    var j :| 0 <= j < |s.stack| && s.stack[j] == w;
    assert w == a.stack[j];
    assert ReachesOlderGray(g, a, grays, w);
    h :| h in grays && a.index[h] <= a.index[w] && Reach(g, w, h);
    ReachTransitive(g, v, w, h);
    assert h in a.stack;
  }

  /** Whoever leaned on `v` as its gray node can lean on the older one `v` reaches. */
  lemma GrayWithout(g: Graph, s: Search, grays: set<Node>, v: Node, h: Node, y: Node)
    requires Numbered(s) && y in s.stack && forall x :: x in grays + {v} ==> x in s.stack
    requires ReachesOlderGray(g, s, grays + {v}, y)
    requires h in grays && s.index[h] <= s.index[v] && Reach(g, v, h)
    ensures forall x :: x in grays ==> x in s.stack
    ensures ReachesOlderGray(g, s, grays, y)
  {
    assert forall x :: x in grays ==> x in grays + {v};
    var x :| x in grays + {v} && s.index[x] <= s.index[y] && Reach(g, y, x);
    if x == v {
      ReachTransitive(g, y, v, h);
      assert s.index[h] <= s.index[y];
    } else {
      assert x in grays;
    }
  }

  lemma BackEdgesFromAll(g: Graph, a: Search, s: Search, v: Node, succ: seq<Node>)
    requires Exploring(g, a, s, v, succ, |succ|)
    requires forall y :: Edge(g, v, y) ==> y in succ
    ensures BoundsBackEdges(g, s, |a.stack|, a.stack, s.low[v])
    ensures forall y :: Edge(g, v, y) ==> y in s.index
  {
  }

  /** The nodes from `v` up are one whole component. */
  lemma TopIsComponent(g: Graph, a: Search, s: Search, grays: set<Node>, v: Node, succ: seq<Node>, top: seq<Node>)
    requires Consistent(g, a, grays) && Exploring(g, a, s, v, succ, |succ|)
    requires forall y :: Edge(g, v, y) ==> y in succ
    requires Consistent(g, s, grays + {v}) && s.low[v] == s.index[v]
    requires forall h :: h in grays ==> h in a.stack && Reach(g, h, v)
    requires top == s.stack[|a.stack|..]
    ensures forall x, y :: x in top ==> (y in top <==> Mutual(g, x, y))
    ensures Closed(g, (set x | x in top) + PoppedNodes(s))
  {
    TopClosed(g, a, s, grays, v, succ, top);
    forall x | x in top
      ensures Mutual(g, v, x)
    {
      TopReachesRoot(g, a, s, grays, v, x, top);
    }
    var all := (set x | x in top) + PoppedNodes(s);
    forall x, y | x in top
      ensures y in top <==> Mutual(g, x, y)
    {
      assert Mutual(g, v, x);
      if y in top {
        assert Mutual(g, v, y);
        ReachTransitive(g, x, v, y);
        ReachTransitive(g, y, v, x);
      } else if Mutual(g, x, y) {
        ClosedReach(g, all, x, y);
        ClosedReach(g, PoppedNodes(s), y, x);
        assert false;
      }
    }
  }

  lemma TopReachesRoot(g: Graph, a: Search, s: Search, grays: set<Node>, v: Node, x: Node, top: seq<Node>)
    requires Consistent(g, s, grays + {v})
    requires Numbered(a) && |a.stack| < |s.stack| && s.stack[|a.stack|] == v
    requires forall h :: h in grays ==> Reach(g, h, v)
    requires top == s.stack[|a.stack|..] && x in top
    ensures Mutual(g, v, x)
  {
    var i :| 0 <= i < |top| && top[i] == x;
    assert s.stack[|a.stack| + i] == x;
    assert Reach(g, s.stack[|a.stack|], s.stack[|a.stack| + i]);
    assert ReachesOlderGray(g, s, grays + {v}, x);
    var h :| h in grays + {v} && s.index[h] <= s.index[x] && Reach(g, x, h);
    if h != v {
      ReachTransitive(g, x, h, v);
    }
  }

  lemma TopClosed(g: Graph, a: Search, s: Search, grays: set<Node>, v: Node, succ: seq<Node>, top: seq<Node>)
    requires Consistent(g, a, grays) && Exploring(g, a, s, v, succ, |succ|)
    requires forall y :: Edge(g, v, y) ==> y in succ
    requires Consistent(g, s, grays + {v}) && s.low[v] == s.index[v]
    requires forall h :: h in grays ==> h in a.stack
    requires top == s.stack[|a.stack|..]
    ensures Closed(g, (set x | x in top) + PoppedNodes(s))
  {
    BackEdgesFromAll(g, a, s, v, succ);
    StackSplits(a, s, top);
    var all := (set x | x in top) + PoppedNodes(s);
    forall x, y | x in all && Edge(g, x, y)
      ensures y in all
    {
      if x in top {
        TopEdge(g, a, s, grays, v, top, x, y);
      }
    }
  }

  lemma TopEdge(g: Graph, a: Search, s: Search, grays: set<Node>, v: Node, top: seq<Node>, x: Node, y: Node)
    requires Extends(a, s) && v in s.index && s.index[v] == a.next
    requires BoundsBackEdges(g, s, |a.stack|, a.stack, a.next)
    requires FinishedExplored(g, s, grays + {v}) && forall y :: Edge(g, v, y) ==> y in s.index
    requires forall h :: h in grays ==> h in a.stack
    requires top == s.stack[|a.stack|..]
    requires x in top && Edge(g, x, y)
    ensures y in s.index && (y in s.stack ==> y in top)
  {
    StackSplits(a, s, top);
    var i :| 0 <= i < |top| && top[i] == x;
    assert s.stack[|a.stack| + i] == x;
    if y in a.stack {
      assert false;
    }
  }

  lemma AboveIsNotBelow(a: Search, s: Search, i: nat)
    requires Extends(a, s) && |a.stack| <= i < |s.stack|
    ensures s.stack[i] !in a.stack && s.stack[i] !in a.index
  {
    forall x | x in a.index
      ensures x != s.stack[i]
    {
      assert s.index[x] < a.next <= s.index[s.stack[i]];
    }
  }

  function PopTop(s: Search, below: seq<Node>, component: seq<Node>): Search {
    s.(stack := below, popped := s.popped + [component])
  }

  /** `v` reaches no older stacked node: everything from `v` up leaves the stack as one component. */
  lemma PopStep(g: Graph, a: Search, s: Search, grays: set<Node>, v: Node, succ: seq<Node>, component: seq<Node>)
    requires Consistent(g, a, grays) && Exploring(g, a, s, v, succ, |succ|)
    requires forall y :: Edge(g, v, y) ==> y in succ
    requires Consistent(g, s, grays + {v}) && s.low[v] == s.index[v]
    requires forall h :: h in grays ==> Reach(g, h, v)
    requires Sorting.Distinct(component)
    requires forall x :: x in component <==> x in s.stack[|a.stack|..]
    requires v in component
    ensures Consistent(g, PopTop(s, a.stack, component), grays)
    ensures Visited(g, a, PopTop(s, a.stack, component), v)
  {
    var top := s.stack[|a.stack|..];
    var t := PopTop(s, a.stack, component);
    TopIsComponent(g, a, s, grays, v, succ, top);
    StackSplits(a, s, top);
    assert IsComponent(g, component);
    assert PoppedNodes(t) == (set x | x in top) + PoppedNodes(s);
    assert (set x | x in component) == (set x | x in top);
    PopKeepsStack(g, a, s, grays, t);
    PopKeepsComponents(g, s, t, component);
    PopFinishesVisit(g, a, s, grays, v, succ, t);
  }

  lemma PopFinishesVisit(g: Graph, a: Search, s: Search, grays: set<Node>, v: Node, succ: seq<Node>, t: Search)
    requires FinishedExplored(g, a, grays) && Exploring(g, a, s, v, succ, |succ|)
    requires forall y :: Edge(g, v, y) ==> y in succ
    requires FinishedExplored(g, s, grays + {v}) && s.low[v] == s.index[v]
    requires t.index == s.index && t.low == s.low && t.next == s.next && t.stack == a.stack && Numbered(t)
    ensures FinishedExplored(g, t, grays) && Visited(g, a, t, v)
  {
    BackEdgesFromAll(g, a, s, v, succ);
    forall x, y | x in t.index && x !in grays && Edge(g, x, y)
      ensures y in t.index
    {
      assert x != v ==> x !in grays + {v};
    }
    assert v !in a.stack by {
      AboveIsNotBelow(a, s, |a.stack|);
    }
  }

  lemma StackSplits(a: Search, s: Search, top: seq<Node>)
    requires Extends(a, s) && top == s.stack[|a.stack|..]
    ensures forall x :: x in s.stack <==> x in a.stack || x in top
    ensures forall x :: x in top ==> x !in a.stack
  {
    assert s.stack == a.stack + top;
    forall x | x in top
      ensures x !in a.stack
    {
      var i :| 0 <= i < |top| && top[i] == x;
      AboveIsNotBelow(a, s, |a.stack| + i);
    }
  }

  lemma PopKeepsStack(g: Graph, a: Search, s: Search, grays: set<Node>, t: Search)
    requires Consistent(g, a, grays) && Extends(a, s)
    requires t.index == s.index && t.low == s.low && t.next == s.next && t.stack == a.stack
    ensures Numbered(t) && OlderReachesNewer(g, t)
    ensures forall y {:trigger ReachesOlderGray(g, t, grays, y)} :: y in t.stack ==> ReachesOlderGray(g, t, grays, y)
  {
    forall y | y in t.stack
      ensures ReachesOlderGray(g, t, grays, y)
    {
      assert ReachesOlderGray(g, a, grays, y);
      var h :| h in grays && a.index[h] <= a.index[y] && Reach(g, y, h);
      assert h in a.stack && t.index[h] <= t.index[y];
    }
  }

  lemma PopKeepsComponents(g: Graph, s: Search, t: Search, component: seq<Node>)
    requires PoppedComponents(g, s) && Closed(g, PoppedNodes(s))
    requires IsComponent(g, component) && forall x :: x in component ==> x !in PoppedNodes(s)
    requires t.popped == s.popped + [component]
    requires PoppedNodes(t) == (set x | x in component) + PoppedNodes(s)
    ensures PoppedComponents(g, t)
  {
    forall x | x in PoppedNodes(t)
      ensures exists k :: 0 <= k < |t.popped| && x in t.popped[k]
    {
      if x in component {
        assert x in t.popped[|s.popped|];
      } else {
        var k :| 0 <= k < |s.popped| && x in s.popped[k];
        assert x in t.popped[k];
      }
    }
    forall i, j, x, y | 0 <= i < j < |t.popped| && x in t.popped[i] && y in t.popped[j]
      ensures !Reach(g, x, y)
    {
      assert x in s.popped[i];
      if j == |s.popped| && Reach(g, x, y) {
        ClosedReach(g, PoppedNodes(s), x, y);
      }
    }
  }

  // ---------------------------------------------------------------- what is reported

  /** The popped component ends with the node its visit began at. */
  predicate Cyclic(g: Graph, c: seq<Node>)
    requires c != []
  {
    |c| > 1 || Edge(g, c[|c| - 1], c[|c| - 1])
  }

  function CyclicOnes(g: Graph, popped: seq<seq<Node>>): seq<seq<Node>>
    requires forall k :: 0 <= k < |popped| ==> popped[k] != []
  {
    if popped == [] then []
    else
      var last := popped[|popped| - 1];
      CyclicOnes(g, popped[..|popped| - 1]) + (if Cyclic(g, last) then [last] else [])
  }

  function Reported(g: Graph, popped: seq<seq<Node>>): seq<seq<Node>>
    requires forall k :: 0 <= k < |popped| ==> popped[k] != []
  {
    var cs := CyclicOnes(g, popped);
    seq(|cs|, i requires 0 <= i < |cs| => Sorting.Sort(Sorting.StringLe, cs[i]))
  }

  lemma ReportGrows(g: Graph, popped: seq<seq<Node>>, c: seq<Node>)
    requires c != [] && forall k :: 0 <= k < |popped| ==> popped[k] != []
    ensures Reported(g, popped + [c]) ==
            Reported(g, popped) + (if Cyclic(g, c) then [Sorting.Sort(Sorting.StringLe, c)] else [])
  {
    assert (popped + [c])[..|popped|] == popped;
  }

  /** Where an entry of the report comes from. */
  lemma {:induction false} CyclicFrom(g: Graph, popped: seq<seq<Node>>, i: nat) returns (k: nat)
    requires forall k :: 0 <= k < |popped| ==> popped[k] != []
    requires i < |CyclicOnes(g, popped)|
    ensures k < |popped| && Cyclic(g, popped[k]) && CyclicOnes(g, popped)[i] == popped[k]
    decreases |popped|
  {
    var init := popped[..|popped| - 1];
    if i < |CyclicOnes(g, init)| {
      k := CyclicFrom(g, init, i);
    } else {
      k := |popped| - 1;
    }
  }

  /** The report keeps the order in which components were popped. */
  lemma {:induction false} CyclicInOrder(g: Graph, popped: seq<seq<Node>>, i: nat, j: nat) returns (k: nat, l: nat)
    requires forall k :: 0 <= k < |popped| ==> popped[k] != []
    requires i < j < |CyclicOnes(g, popped)|
    ensures k < l < |popped|
    ensures CyclicOnes(g, popped)[i] == popped[k] && CyclicOnes(g, popped)[j] == popped[l]
    decreases |popped|
  {
    var init := popped[..|popped| - 1];
    if j < |CyclicOnes(g, init)| {
      k, l := CyclicInOrder(g, init, i, j);
    } else {
      k := CyclicFrom(g, init, i);
      l := |popped| - 1;
    }
  }

  lemma {:induction false} CyclicCovers(g: Graph, popped: seq<seq<Node>>, k: nat) returns (i: nat)
    requires forall k :: 0 <= k < |popped| ==> popped[k] != []
    requires k < |popped| && Cyclic(g, popped[k])
    ensures i < |CyclicOnes(g, popped)| && CyclicOnes(g, popped)[i] == popped[k]
    decreases |popped|
  {
    var init := popped[..|popped| - 1];
    if k < |init| {
      i := CyclicCovers(g, init, k);
    } else {
      i := |CyclicOnes(g, init)|;
    }
  }

  lemma SortedComponent(g: Graph, c: seq<Node>)
    requires IsComponent(g, c)
    ensures IsComponent(g, Sorting.Sort(Sorting.StringLe, c))
    ensures Sorting.Sorted(Sorting.StringLe, Sorting.Sort(Sorting.StringLe, c))
    ensures forall x :: x in Sorting.Sort(Sorting.StringLe, c) <==> x in c
  {
    var sorted := Sorting.Sort(Sorting.StringLe, c);
    Sorting.StringLeIsTotalOrder();
    Sorting.SortSorts(Sorting.StringLe, c);
    Sorting.SortKeepsDistinct(Sorting.StringLe, c);
    Sorting.SameMembers(sorted, c);
  }

  /** A component is worth reporting exactly when its members lie on a cycle. */
  lemma CyclicIffOnCycle(g: Graph, c: seq<Node>, x: Node)
    requires IsComponent(g, c) && x in c
    ensures Cyclic(g, c) <==> OnCycle(g, x)
  {
    if |c| > 1 {
      var y := if c[0] == x then c[1] else c[0];
      assert y in c && y != x;
      assert Mutual(g, x, y);
      var w := ReachFirstStep(g, x, y);
      ReachTransitive(g, w, y, x);
    } else {
      assert c == [x];
      if OnCycle(g, x) {
        var y :| Edge(g, x, y) && Reach(g, y, x);
        ReachEdge(g, x, y);
        assert Mutual(g, x, y);
        assert y in c;
      } else if Edge(g, x, x) {
        ReachSelf(g, x);
      }
    }
  }

  /** Once nothing is left to visit, the report is exactly the cyclic components. */
  lemma ReportIsComplete(g: Graph, s: Search)
    requires Consistent(g, s, {})
    requires forall x :: x in g ==> x in s.index
    ensures CyclicComponents(g, Reported(g, s.popped))
  {
    var cs := Reported(g, s.popped);
    forall i | 0 <= i < |cs|
      ensures IsComponent(g, cs[i]) && Sorting.Sorted(Sorting.StringLe, cs[i])
      ensures forall x :: x in cs[i] ==> OnCycle(g, x)
    {
      var k := CyclicFrom(g, s.popped, i);
      SortedComponent(g, s.popped[k]);
      forall x | x in cs[i]
        ensures OnCycle(g, x)
      {
        CyclicIffOnCycle(g, s.popped[k], x);
      }
    }
    forall x | OnCycle(g, x)
      ensures exists i :: 0 <= i < |cs| && x in cs[i]
    {
      assert s.stack != [] ==> ReachesOlderGray(g, s, {}, s.stack[0]);
      assert x in PoppedNodes(s);
      var k :| 0 <= k < |s.popped| && x in s.popped[k];
      CyclicIffOnCycle(g, s.popped[k], x);
      var i := CyclicCovers(g, s.popped, k);
      SortedComponent(g, s.popped[k]);
      assert x in cs[i];
    }
    forall i, j, x, y | 0 <= i < j < |cs| && x in cs[i] && y in cs[j]
      ensures !Reach(g, x, y)
    {
      var k, l := CyclicInOrder(g, s.popped, i, j);
      SortedComponent(g, s.popped[k]);
      SortedComponent(g, s.popped[l]);
    }
  }

  // ---------------------------------------------------------------- the search

  /** One search over the nodes of `adjacency`; edge targets outside it are visited as sinks. */
  class CycleSearch {
    const adjacency: Graph
    ghost const universe: set<Node>
    var indices: map<Node, nat>
    var lowLinks: map<Node, nat>
    var nextIndex: nat
    var stack: seq<Node>
    var onStack: set<Node>
    var result: seq<seq<Node>>
    ghost var popped: seq<seq<Node>>

    ghost function Now(): Search
      reads this
    {
      Search(indices, lowLinks, nextIndex, stack, popped)
    }

    ghost predicate Valid(grays: set<Node>)
      reads this
    {
      && Mirrors(onStack, stack)
      && Closed(adjacency, universe) && adjacency.Keys <= universe && indices.Keys <= universe
      && Consistent(adjacency, Now(), grays)
      && result == Reported(adjacency, popped)
    }

    constructor (adjacency: Graph)
      ensures this.adjacency == adjacency
      ensures Valid({})
      ensures adjacency.Keys <= universe
    {
      this.adjacency := adjacency;
      universe := adjacency.Keys + set u, v | u in adjacency && v in adjacency[u] :: v;
      indices, lowLinks, nextIndex, stack, onStack, result, popped := map[], map[], 0, [], {}, [], [];
    }

    method Visit(node: Node, ghost grays: set<Node>)
      requires Valid(grays)
      requires node in universe && node !in indices
      requires forall h :: h in grays ==> Reach(adjacency, h, node)
      modifies this
      ensures Valid(grays)
      ensures Visited(adjacency, old(Now()), Now(), node)
      decreases universe - indices.Keys
    {
      ghost var a := Now();
      var successors := if node in adjacency then adjacency[node] else [];
      PushExplores(adjacency, a, grays, node, successors);
      Enter(node, grays);

      for k := 0 to |successors|
        invariant Valid(grays + {node})
        invariant Exploring(adjacency, a, Now(), node, successors, k)
      {
        var next := successors[k];
        ghost var s := Now();
        assert Edge(adjacency, node, next);
        if next !in indices {
          NextIsReached(adjacency, a, grays, node, next);
          Visit(next, grays + {node});
          TreeStep(adjacency, a, s, Now(), node, successors, k);
          LowerLink(node, lowLinks[next], grays + {node});
        } else if next in onStack {
          BackStep(adjacency, a, s, node, successors, k);
          LowerLink(node, indices[next], grays + {node});
        } else {
          SkipStep(adjacency, a, s, node, successors, k);
        }
      }

      ghost var s := Now();
      if lowLinks[node] != indices[node] {
        KeepStep(adjacency, a, s, grays, node, successors);
        return;
      }
      PopComponent(node, grays, a, successors);
    }

    method VisitAll(nodes: seq<Node>)
      requires Valid({}) && forall x :: x in nodes ==> x in universe
      modifies this
      ensures Valid({}) && forall x :: x in nodes ==> x in indices
    {
      for i := 0 to |nodes|
        invariant Valid({})
        invariant forall j :: 0 <= j < i ==> nodes[j] in indices
      {
        if nodes[i] !in indices {
          ghost var before := Now();
          Visit(nodes[i], {});
          VisitedKeeps(adjacency, before, Now(), nodes[i]);
        }
      }
    }

    method Enter(node: Node, ghost grays: set<Node>)
      requires Valid(grays) && node in universe && node !in indices
      requires forall h :: h in grays ==> Reach(adjacency, h, node)
      modifies this`indices, this`lowLinks, this`nextIndex, this`stack, this`onStack
      ensures Valid(grays + {node}) && Now() == Push(old(Now()), node)
    {
      PushConsistent(adjacency, Now(), grays, node);
      indices := indices[node := nextIndex];
      lowLinks := lowLinks[node := nextIndex];
      nextIndex := nextIndex + 1;
      stack := stack + [node];
      onStack := onStack + {node};
      assert Mirrors(onStack, stack);
      assert Now() == Push(old(Now()), node);
    }

    method LowerLink(node: Node, n: nat, ghost grays: set<Node>)
      requires Valid(grays) && node in lowLinks
      modifies this`lowLinks
      ensures Valid(grays) && Now() == Lower(old(Now()), node, n)
    {
      LowerConsistent(adjacency, Now(), grays, node, n);
      lowLinks := lowLinks[node := Min(lowLinks[node], n)];
    }

    /** Takes the nodes from `node` up off the stack and reports them if they contain a cycle. */
    method PopComponent(node: Node, ghost grays: set<Node>, ghost a: Search, ghost successors: seq<Node>)
      requires Valid(grays + {node})
      requires Consistent(adjacency, a, grays) && Exploring(adjacency, a, Now(), node, successors, |successors|)
      requires forall y :: Edge(adjacency, node, y) ==> y in successors
      requires lowLinks[node] == indices[node]
      requires forall h :: h in grays ==> Reach(adjacency, h, node)
      modifies this
      ensures Valid(grays)
      ensures Visited(adjacency, a, Now(), node)
    {
      ghost var s := Now();
      assert stack[..|a.stack|] == a.stack;
      ReportableSoFar(adjacency, s);
      var component := PopDownTo(node, |a.stack|);
      assert Now() == s.(stack := a.stack);
      PopStep(adjacency, a, s, grays, node, successors, component);
      Record(component, node);
      assert Now() == PopTop(s, a.stack, component);
    }

    method Record(component: seq<Node>, node: Node)
      requires component != [] && component[|component| - 1] == node
      requires forall k :: 0 <= k < |popped| ==> popped[k] != []
      requires result == Reported(adjacency, popped)
      modifies this`result, this`popped
      ensures popped == old(popped) + [component] && result == Reported(adjacency, popped)
    {
      ReportGrows(adjacency, popped, component);
      popped := popped + [component];
      if |component| > 1 || (node in adjacency && node in adjacency[node]) {
        result := result + [Sorting.Sort(Sorting.StringLe, component)];
      }
    }

    /** Pops members, the newest first, until `node` itself has come off. */
    method PopDownTo(node: Node, ghost at: nat) returns (component: seq<Node>)
      requires Numbered(Now()) && at < |stack| && stack[at] == node
      requires Mirrors(onStack, stack)
      modifies this`stack, this`onStack
      ensures stack == old(stack)[..at] && Mirrors(onStack, stack)
      ensures component != [] && component[|component| - 1] == node
      ensures Sorting.Distinct(component)
      ensures forall x :: x in component <==> x in old(stack)[at..]
    {
      ghost var s := Now();
      component := [];
      var done := false;
      while !done
        invariant |stack| + |component| == |s.stack| && stack == s.stack[..|stack|]
        invariant Mirrors(onStack, stack)
        invariant forall j :: 0 <= j < |component| ==> component[j] == s.stack[|s.stack| - 1 - j]
        invariant if done then |stack| == at && component != [] && component[|component| - 1] == node
                  else at < |stack|
        decreases |stack|, !done
      {
        var member := stack[|stack| - 1];
        TopLeaves(s, stack, onStack);
        stack := stack[..|stack| - 1];
        onStack := onStack - {member};
        component := component + [member];
        if member == node {
          StackIsDistinct(s, |stack|, at);
        }
        done := member == node;
      }
      ReversedTop(s, at, component);
    }
  }

  lemma VisitedKeeps(g: Graph, a: Search, b: Search, v: Node)
    requires Visited(g, a, b, v)
    ensures v in b.index && a.index.Keys <= b.index.Keys
  {
  }

  lemma ReportableSoFar(g: Graph, s: Search)
    requires PoppedComponents(g, s)
    ensures forall k :: 0 <= k < |s.popped| ==> s.popped[k] != []
  {
  }

  lemma NextIsReached(g: Graph, a: Search, grays: set<Node>, node: Node, next: Node)
    requires Edge(g, node, next)
    requires forall h :: h in grays ==> Reach(g, h, node)
    ensures forall h :: h in grays + {node} ==> Reach(g, h, next)
  {
    ReachEdge(g, node, next);
    forall h | h in grays
      ensures Reach(g, h, next)
    {
      ReachTransitive(g, h, node, next);
    }
  }

  lemma TopLeaves(s: Search, stack: seq<Node>, onStack: set<Node>)
    requires Numbered(s) && 0 < |stack| <= |s.stack| && stack == s.stack[..|stack|]
    requires Mirrors(onStack, stack)
    ensures Mirrors(onStack - {stack[|stack| - 1]}, stack[..|stack| - 1])
  {
    var init, top := stack[..|stack| - 1], stack[|stack| - 1];
    assert stack == init + [top];
    assert top !in init by {
      forall i | 0 <= i < |init|
        ensures init[i] != top
      {
        assert s.index[s.stack[i]] < s.index[s.stack[|init|]];
      }
    }
  }

  lemma ReversedTop(s: Search, from: nat, component: seq<Node>)
    requires Numbered(s) && from + |component| == |s.stack|
    requires forall j :: 0 <= j < |component| ==> component[j] == s.stack[|s.stack| - 1 - j]
    ensures Sorting.Distinct(component)
    ensures forall x :: x in component <==> x in s.stack[from..]
  {
    var top := s.stack[from..];
    forall i, j | 0 <= i < j < |component|
      ensures component[i] != component[j]
    {
      StackIsDistinct(s, |s.stack| - 1 - i, |s.stack| - 1 - j);
    }
    forall x
      ensures x in component <==> x in top
    {
      if x in component {
        var j :| 0 <= j < |component| && component[j] == x;
        assert top[|component| - 1 - j] == x;
      }
      if x in top {
        var i :| 0 <= i < |top| && top[i] == x;
        assert component[|component| - 1 - i] == x;
      }
    }
  }

  // ---------------------------------------------------------------- the entry point

  datatype Dependency = Dependency(from: Node, target: Node)

  /** Every listed node with its targets in the order they are first named. */
  function DependencyGraph(nodes: seq<Node>, edges: seq<Dependency>): Graph {
    map u | u in nodes :: Targets(edges, u)
  }

  function Targets(edges: seq<Dependency>, from: Node): seq<Node> {
    if edges == [] then []
    else
      var before, last := Targets(edges[..|edges| - 1], from), edges[|edges| - 1];
      if last.from == from && last.target !in before then before + [last.target] else before
  }

  lemma {:induction false} TargetsAre(edges: seq<Dependency>, from: Node)
    ensures forall v :: v in Targets(edges, from) <==> Dependency(from, v) in edges
    ensures Sorting.Distinct(Targets(edges, from))
    decreases |edges|
  {
    if edges != [] {
      var init, last := edges[..|edges| - 1], edges[|edges| - 1];
      assert edges == init + [last];
      TargetsAre(init, from);
    }
  }

  lemma DependencyEdge(nodes: seq<Node>, edges: seq<Dependency>, u: Node, v: Node)
    ensures Edge(DependencyGraph(nodes, edges), u, v) <==> u in nodes && Dependency(u, v) in edges
  {
    TargetsAre(edges, u);
  }

  method BuildAdjacency(nodes: seq<Node>, edges: seq<Dependency>) returns (adjacency: Graph)
    ensures adjacency == DependencyGraph(nodes, edges)
  {
    adjacency := map node | node in nodes :: [];
    for i := 0 to |edges|
      invariant adjacency == DependencyGraph(nodes, edges[..i])
    {
      var edge := edges[i];
      assert edges[..i + 1][..i] == edges[..i];
      if edge.from in adjacency && edge.target !in adjacency[edge.from] {
        adjacency := adjacency[edge.from := adjacency[edge.from] + [edge.target]];
      }
    }
    assert edges[..|edges|] == edges;
  }

  method Cycles(nodes: seq<Node>, edges: seq<Dependency>) returns (result: seq<seq<Node>>)
    ensures CyclicComponents(DependencyGraph(nodes, edges), result)
  {
    var adjacency := BuildAdjacency(nodes, edges);
    var search := new CycleSearch(adjacency);
    search.VisitAll(nodes);
    ReportIsComplete(adjacency, search.Now());
    return search.result;
  }

  // ---------------------------------------------------------------- what a report means

  /** Nodes share a reported component exactly when each reaches the other along an edge. */
  lemma SharedComponent(g: Graph, cs: seq<seq<Node>>, x: Node, y: Node)
    requires CyclicComponents(g, cs)
    ensures (exists i :: 0 <= i < |cs| && x in cs[i] && y in cs[i]) <==> OnCycle(g, x) && Mutual(g, x, y)
    ensures forall i, j :: 0 <= i < |cs| && 0 <= j < |cs| && x in cs[i] && x in cs[j] ==> i == j
    ensures forall i :: 0 <= i < |cs| && x in cs[i] ==> x in g
  {
    ReachSelf(g, x);
    if OnCycle(g, x) && Mutual(g, x, y) {
      var i :| 0 <= i < |cs| && x in cs[i];
      assert y in cs[i];
    }
    forall i, j | 0 <= i < |cs| && 0 <= j < |cs| && x in cs[i] && x in cs[j]
      ensures i == j
    {
      if i != j {
        assert false;
      }
    }
  }

  /** Every edge leads to a node of lower rank. */
  ghost predicate Ranks(g: Graph, rank: map<Node, nat>) {
    forall u, v :: Edge(g, u, v) ==> u in rank && v in rank && rank[v] < rank[u]
  }

  ghost function Universe(g: Graph): set<Node> {
    g.Keys + set u, v | u in g && v in g[u] :: v
  }

  ghost function ReachSet(g: Graph, u: Node): set<Node> {
    set w | w in Universe(g) && Reach(g, u, w)
  }

  lemma {:induction false} RankDescends(g: Graph, rank: map<Node, nat>, x: Node, y: Node, n: nat)
    requires Ranks(g, rank) && ReachIn(g, x, y, n) && x in rank
    ensures y in rank && rank[y] <= rank[x]
    decreases n
  {
    if n > 0 {
      var w :| ReachIn(g, x, w, n - 1) && Edge(g, w, y);
      RankDescends(g, rank, x, w, n - 1);
    }
  }

  /** Dropping an edge target's reachable set below the source's needs only that there is no way back. */
  lemma ReachSetShrinks(g: Graph, u: Node, v: Node)
    requires Edge(g, u, v) && !Reach(g, v, u)
    ensures |ReachSet(g, v)| < |ReachSet(g, u)|
  {
    ReachSelf(g, u);
    ReachEdge(g, u, v);
    forall w | w in ReachSet(g, v)
      ensures w in ReachSet(g, u) - {u}
    {
      ReachTransitive(g, u, v, w);
    }
    Sets.SubsetIsNoLarger(ReachSet(g, v), ReachSet(g, u) - {u});
  }

  /** Nothing is reported exactly when the graph has a topological rank. */
  lemma NoCyclesIffRanked(g: Graph, cs: seq<seq<Node>>)
    requires CyclicComponents(g, cs)
    ensures cs == [] <==> exists rank :: Ranks(g, rank)
  {
    if cs == [] {
      var rank := map u | u in Universe(g) :: |ReachSet(g, u)|;
      forall u, v | Edge(g, u, v)
        ensures u in rank && v in rank && rank[v] < rank[u]
      {
        assert !OnCycle(g, u);
        ReachSetShrinks(g, u, v);
      }
      assert Ranks(g, rank);
    } else if rank :| Ranks(g, rank) {
      var x := cs[0][0];
      assert x in cs[0] && OnCycle(g, x);
      var y :| Edge(g, x, y) && Reach(g, y, x);
      var n: nat :| ReachIn(g, y, x, n);
      RankDescends(g, rank, y, x, n);
      assert false;
    }
  }
}
