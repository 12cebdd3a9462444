/** The search for provider types that a shared component would expose through its imports. */
module UiFoundation {
  import opened Options
  import opened Digraph

  /** The local imports, and the two tests on files the search uses. */
  datatype Sources = Sources(edges: Graph, exposes: Node -> bool, foundation: Node -> bool)

  /** The targets worth walking to: not yet seen and outside the foundation, each once. */
  function Fresh(s: Sources, targets: seq<Node>, seen: set<Node>): seq<Node> {
    if targets == [] then []
    else if targets[0] in seen || s.foundation(targets[0]) then Fresh(s, targets[1..], seen)
    else [targets[0]] + Fresh(s, targets[1..], seen + {targets[0]})
  }

  function Successors(s: Sources, file: Node): seq<Node> {
    if file in s.edges then s.edges[file] else []
  }

  ghost function Universe(s: Sources): set<Node> {
    set u, v | u in s.edges && v in s.edges[u] :: v
  }

  function Members(xs: seq<Node>): set<Node> {
    set x | x in xs
  }

  /** A breadth-first search from a queue of files, all of them seen. */
  ghost function FirstExposing(s: Sources, pending: seq<Node>, seen: set<Node>): Option<Node>
    decreases Universe(s) - seen, |pending|
  {
    if pending == [] then None
    else if s.exposes(pending[0]) then Some(pending[0])
    else
      var added := Fresh(s, Successors(s, pending[0]), seen);
      FreshIsNew(s, Successors(s, pending[0]), seen);
      FreshBounds(s, pending[0], added, seen);
      FirstExposing(s, pending[1..] + added, seen + Members(added))
  }

  lemma {:induction false} FreshIsNew(s: Sources, targets: seq<Node>, seen: set<Node>)
    ensures forall x :: x in Fresh(s, targets, seen) <==> x in targets && x !in seen && !s.foundation(x)
    decreases targets
  {
    if targets != [] {
      FreshIsNew(s, targets[1..], seen);
      FreshIsNew(s, targets[1..], seen + {targets[0]});
    }
  }

  lemma FreshBounds(s: Sources, file: Node, added: seq<Node>, seen: set<Node>)
    requires forall x :: x in added ==> x in Successors(s, file) && x !in seen
    ensures added == [] ==> seen + Members(added) == seen
    ensures added != [] ==> Universe(s) - (seen + Members(added)) < Universe(s) - seen
  {
    if added != [] {
      assert added[0] in added;
      assert file in s.edges && added[0] in s.edges[file];
      assert added[0] in Universe(s) - seen;
      assert added[0] !in Universe(s) - (seen + Members(added));
    }
  }

  // ---------------------------------------------------------------- what the search finds

  /** The graph the search walks: local imports that do not enter the foundation. */
  function Walked(s: Sources): Graph {
    map u | u in s.edges :: Outside(s, s.edges[u])
  }

  function Outside(s: Sources, targets: seq<Node>): seq<Node> {
    if targets == [] then []
    else (if s.foundation(targets[0]) then [] else [targets[0]]) + Outside(s, targets[1..])
  }

  lemma {:induction false} OutsideAre(s: Sources, targets: seq<Node>)
    ensures forall v :: v in Outside(s, targets) <==> v in targets && !s.foundation(v)
  {
    if targets != [] {
      OutsideAre(s, targets[1..]);
    }
  }

  lemma WalkedEdge(s: Sources, u: Node, v: Node)
    ensures Edge(Walked(s), u, v) <==> v in Successors(s, u) && !s.foundation(v)
  {
    if u in s.edges {
      OutsideAre(s, s.edges[u]);
    }
  }

  /** The graph walked has an edge exactly where a local import leads outside the foundation. */
  lemma WalkedIs(s: Sources, u: Node, v: Node)
    ensures Edge(Walked(s), u, v) <==> u in s.edges && v in s.edges[u] && !s.foundation(v)
  {
    WalkedEdge(s, u, v);
  }

  /** `found` is an exposing file as near to `start` as any, or nothing when none is reachable. */
  ghost predicate Nearest(s: Sources, g: Graph, start: Node, found: Option<Node>) {
    match found
    case None => forall y :: Reach(g, start, y) ==> !s.exposes(y)
    case Some(file) =>
      s.exposes(file) &&
      exists d: nat ::
        ReachIn(g, start, file, d) && forall y, n: nat :: n < d && ReachIn(g, start, y, n) ==> !s.exposes(y)
  }

  /** `g` joins the files one step of the search apart. */
  ghost predicate Walks(s: Sources, g: Graph) {
    forall u, v :: Edge(g, u, v) <==> v in Successors(s, u) && !s.foundation(v)
  }

  ghost predicate Reached(g: Graph, start: Node, dist: map<Node, nat>) {
    start in dist && dist[start] == 0 && forall x :: x in dist ==> ReachIn(g, start, x, dist[x])
  }

  /** The queue runs from near to far and spans at most two distances. */
  ghost predicate NearFirst(pending: seq<Node>, dist: map<Node, nat>) {
    && (forall x :: x in pending ==> x in dist)
    && (forall i, j :: 0 <= i < j < |pending| ==> dist[pending[i]] <= dist[pending[j]] <= dist[pending[0]] + 1)
  }

  /** What has left the queue is no farther than `d`, exposes nothing, and leads only to files seen by the next step. */
  ghost predicate Finished(s: Sources, g: Graph, pending: seq<Node>, dist: map<Node, nat>, d: nat) {
    && (forall x :: x in dist && x !in pending ==> dist[x] <= d && !s.exposes(x))
    && (forall x, y :: x in dist && x !in pending && Edge(g, x, y) ==> y in dist && dist[y] <= dist[x] + 1)
  }

  ghost function Settle(dist: map<Node, nat>, added: seq<Node>, d: nat): map<Node, nat> {
    dist + map x | x in added :: d
  }

  lemma ReachedStep(g: Graph, start: Node, head: Node, dist: map<Node, nat>, added: seq<Node>)
    requires Reached(g, start, dist) && head in dist
    requires forall y :: y in added <==> Edge(g, head, y) && y !in dist
    ensures Reached(g, start, Settle(dist, added, dist[head] + 1))
  {
    var dist' := Settle(dist, added, dist[head] + 1);
    forall x | x in dist'
      ensures ReachIn(g, start, x, dist'[x])
    {
      if x in added {
        assert ReachIn(g, start, head, dist[head]) && Edge(g, head, x);
      }
    }
  }

  lemma NearFirstStep(pending: seq<Node>, dist: map<Node, nat>, added: seq<Node>)
    requires NearFirst(pending, dist) && pending != []
    requires forall x :: x in added ==> x !in dist
    ensures NearFirst(pending[1..] + added, Settle(dist, added, dist[pending[0]] + 1))
  {
    var dist', pending' := Settle(dist, added, dist[pending[0]] + 1), pending[1..] + added;
    assert forall x :: x in pending' ==> x in pending || x in added;
    forall i, j | 0 <= i < j < |pending'|
      ensures dist'[pending'[i]] <= dist'[pending'[j]] <= dist'[pending'[0]] + 1
    {
      QueueOrder(pending, dist, added, i, j);
      QueueOrder(pending, dist, added, 0, j);
    }
  }

  lemma FinishedStep(s: Sources, g: Graph, pending: seq<Node>, dist: map<Node, nat>, d: nat, added: seq<Node>)
    requires NearFirst(pending, dist) && pending != [] && !s.exposes(pending[0])
    requires Finished(s, g, pending, dist, d) && d <= dist[pending[0]]
    requires forall y :: y in added <==> Edge(g, pending[0], y) && y !in dist
    ensures Finished(s, g, pending[1..] + added, Settle(dist, added, dist[pending[0]] + 1), dist[pending[0]])
  {
    var head := pending[0];
    var dist', pending' := Settle(dist, added, dist[head] + 1), pending[1..] + added;
    forall x | x in dist' && x !in pending'
      ensures x in dist && dist'[x] == dist[x] && (x == head || x !in pending)
    {
    }
    forall x, y | x in dist' && x !in pending' && Edge(g, x, y)
      ensures y in dist' && dist'[y] <= dist'[x] + 1
    {
      if x == head && y in dist {
        HeadIsNear(s, g, pending, dist, d, y);
      }
    }
  }

  lemma QueueOrder(pending: seq<Node>, dist: map<Node, nat>, added: seq<Node>, i: nat, j: nat)
    requires pending != [] && i <= j < |pending| - 1 + |added|
    requires forall x :: x in pending ==> x in dist
    requires forall x :: x in added ==> x !in dist
    requires forall i, j :: 0 <= i < j < |pending| ==> dist[pending[i]] <= dist[pending[j]] <= dist[pending[0]] + 1
    ensures var dist', pending' := Settle(dist, added, dist[pending[0]] + 1), pending[1..] + added;
            dist[pending[0]] <= dist'[pending'[i]] <= dist'[pending'[j]] <= dist[pending[0]] + 1
  {
    var rest := pending[1..];
    if i < |rest| {
      assert (rest + added)[i] == pending[i + 1];
    }
    if j < |rest| {
      assert (rest + added)[j] == pending[j + 1];
    }
  }

  lemma HeadIsNear(s: Sources, g: Graph, pending: seq<Node>, dist: map<Node, nat>, d: nat, y: Node)
    requires NearFirst(pending, dist) && pending != [] && y in dist
    requires Finished(s, g, pending, dist, d) && d <= dist[pending[0]]
    ensures dist[y] <= dist[pending[0]] + 1
  {
    if y in pending {
      var i :| 0 <= i < |pending| && pending[i] == y;
      if i > 0 {
        assert dist[pending[0]] <= dist[pending[i]];
      }
    }
  }

  /** Whatever a path of `n` edges reaches has been seen by the time files at distance `n` head the queue. */
  lemma {:induction false} SeenInTime(s: Sources, g: Graph, start: Node, pending: seq<Node>, dist: map<Node, nat>,
                                      d: nat, y: Node, n: nat)
    requires start in dist && dist[start] == 0
    requires NearFirst(pending, dist) && Finished(s, g, pending, dist, d)
    requires pending != [] ==> n <= dist[pending[0]]
    requires ReachIn(g, start, y, n)
    ensures y in dist && dist[y] <= n
    decreases n
  {
    if n > 0 {
      var w :| ReachIn(g, start, w, n - 1) && Edge(g, w, y);
      SeenInTime(s, g, start, pending, dist, d, w, n - 1);
      NearIsDone(pending, dist, w);
    }
  }

  lemma NearIsDone(pending: seq<Node>, dist: map<Node, nat>, w: Node)
    requires NearFirst(pending, dist)
    requires w in dist && (pending != [] ==> dist[w] < dist[pending[0]])
    ensures w !in pending
  {
    forall i | 0 <= i < |pending|
      ensures pending[i] != w
    {
      assert i > 0 ==> dist[pending[0]] <= dist[pending[i]];
    }
  }

  lemma {:induction false} SearchFindsNearest(s: Sources, g: Graph, start: Node, pending: seq<Node>,
                                              dist: map<Node, nat>, d: nat)
    requires Walks(s, g) && Reached(g, start, dist)
    requires NearFirst(pending, dist) && Finished(s, g, pending, dist, d) && (pending != [] ==> d <= dist[pending[0]])
    ensures Nearest(s, g, start, FirstExposing(s, pending, dist.Keys))
    decreases Universe(s) - dist.Keys, |pending|
  {
    if pending == [] {
      NothingExposing(s, g, start, dist, d);
    } else if s.exposes(pending[0]) {
      HeadIsNearest(s, g, start, pending, dist, d);
    } else {
      var added := Fresh(s, Successors(s, pending[0]), dist.Keys);
      FreshIsNew(s, Successors(s, pending[0]), dist.Keys);
      var dist' := Settle(dist, added, dist[pending[0]] + 1);
      assert dist'.Keys == dist.Keys + Members(added);
      Advance(s, g, start, pending, dist, d, added);
      FreshBounds(s, pending[0], added, dist.Keys);
      SearchFindsNearest(s, g, start, pending[1..] + added, dist', dist[pending[0]]);
    }
  }

  /** One round of the search keeps what is known of the queue. */
  lemma Advance(s: Sources, g: Graph, start: Node, pending: seq<Node>, dist: map<Node, nat>, d: nat, added: seq<Node>)
    requires Walks(s, g) && Reached(g, start, dist)
    requires NearFirst(pending, dist) && Finished(s, g, pending, dist, d) && (pending != [] ==> d <= dist[pending[0]])
    requires pending != [] && !s.exposes(pending[0])
    requires forall x :: x in added <==> x in Successors(s, pending[0]) && x !in dist && !s.foundation(x)
    ensures var dist', pending' := Settle(dist, added, dist[pending[0]] + 1), pending[1..] + added;
            && Reached(g, start, dist') && NearFirst(pending', dist')
            && Finished(s, g, pending', dist', dist[pending[0]]) &&
              (pending' != [] ==> dist[pending[0]] <= dist'[pending'[0]])
  {
    forall y
      ensures y in added <==> Edge(g, pending[0], y) && y !in dist
    {
      assert Edge(g, pending[0], y) <==> y in Successors(s, pending[0]) && !s.foundation(y);
    }
    ReachedStep(g, start, pending[0], dist, added);
    NearFirstStep(pending, dist, added);
    FinishedStep(s, g, pending, dist, d, added);
    HeadStaysNear(pending, dist, added);
  }

  lemma HeadStaysNear(pending: seq<Node>, dist: map<Node, nat>, added: seq<Node>)
    requires NearFirst(pending, dist) && pending != []
    requires forall x :: x in added ==> x !in dist
    ensures var dist', pending' := Settle(dist, added, dist[pending[0]] + 1), pending[1..] + added;
            pending' != [] ==> pending'[0] in dist' && dist[pending[0]] <= dist'[pending'[0]]
  {
    if pending[1..] + added != [] {
      QueueOrder(pending, dist, added, 0, 0);
    }
  }

  lemma NothingExposing(s: Sources, g: Graph, start: Node, dist: map<Node, nat>, d: nat)
    requires Reached(g, start, dist) && Finished(s, g, [], dist, d)
    ensures Nearest(s, g, start, None)
  {
    forall y | Reach(g, start, y)
      ensures !s.exposes(y)
    {
      var n: nat :| ReachIn(g, start, y, n);
      SeenInTime(s, g, start, [], dist, d, y, n);
    }
  }

  lemma HeadIsNearest(s: Sources, g: Graph, start: Node, pending: seq<Node>, dist: map<Node, nat>, d: nat)
    requires Walks(s, g) && Reached(g, start, dist)
    requires NearFirst(pending, dist) && Finished(s, g, pending, dist, d)
    requires pending != [] && s.exposes(pending[0])
    ensures Nearest(s, g, start, Some(pending[0]))
  {
    forall y, n: nat | n < dist[pending[0]] && ReachIn(g, start, y, n)
      ensures !s.exposes(y)
    {
      SeenInTime(s, g, start, pending, dist, d, y, n);
      NearIsDone(pending, dist, y);
    }
    assert ReachIn(g, start, pending[0], dist[pending[0]]);
  }

  /** The answer a search started afresh gives. */
  ghost function Answer(s: Sources, start: Node): Option<Node> {
    FirstExposing(s, [start], {start})
  }

  /** A fresh search finds a nearest exposing file, or shows that none is reachable. */
  lemma AnswerIsNearest(s: Sources, start: Node)
    ensures Nearest(s, Walked(s), start, Answer(s, start))
    ensures Answer(s, start) == None <==> forall y :: Reach(Walked(s), start, y) ==> !s.exposes(y)
  {
    var dist := map[start := 0 as nat];
    assert ReachIn(Walked(s), start, start, 0);
    assert dist.Keys == {start};
    assert Finished(s, Walked(s), [start], dist, 0);
    forall u, v
      ensures Edge(Walked(s), u, v) <==> v in Successors(s, u) && !s.foundation(v)
    {
      WalkedEdge(s, u, v);
    }
    SearchFindsNearest(s, Walked(s), start, [start], dist, 0);
    if file :| Answer(s, start) == Some(file) {
      var d: nat :| ReachIn(Walked(s), start, file, d);
      assert Reach(Walked(s), start, file);
    }
  }

  // ---------------------------------------------------------------- the memoised search

  class ProviderTypes {
    const sources: Sources
    var answers: map<Node, Option<Node>>

    /** Every remembered answer is the one a fresh search would give. */
    ghost predicate Valid()
      reads this
    {
      forall start :: start in answers ==> answers[start] == Answer(sources, start)
    }

    constructor (sources: Sources)
      ensures this.sources == sources && Valid()
    {
      this.sources := sources;
      answers := map[];
    }

    method ProviderTypeSource(start: Node) returns (found: Option<Node>)
      requires Valid()
      modifies this
      ensures Valid() && found == Answer(sources, start)
      ensures answers == old(answers)[start := found]
    {
      if start in answers {
        return answers[start];
      }
      var seen := {start};
      var pending := [start];
      found := None;
      while pending != [] && found == None
        invariant found == None ==> FirstExposing(sources, pending, seen) == Answer(sources, start)
        invariant found != None ==> found == Answer(sources, start)
        invariant unchanged(this)
        decreases if found == None then 1 else 0, Universe(sources) - seen, |pending|
      {
        var file := pending[0];
        ghost var queue, known := pending, seen;
        pending := pending[1..];
        if sources.exposes(file) {
          found := Some(file);
        }
        var targets := if file in sources.edges then sources.edges[file] else [];
        pending, seen := Enqueue(targets, pending, seen);
        FreshIsNew(sources, targets, known);
        FreshBounds(sources, file, Fresh(sources, targets, known), known);
      }
      answers := answers[start := found];
    }

    method Enqueue(targets: seq<Node>, pending: seq<Node>, seen: set<Node>)
      returns (pending': seq<Node>, seen': set<Node>)
      ensures pending' == pending + Fresh(sources, targets, seen)
      ensures seen' == seen + Members(Fresh(sources, targets, seen))
    {
      pending', seen' := pending, seen;
      for i := 0 to |targets|
        invariant pending' + Fresh(sources, targets[i..], seen') == pending + Fresh(sources, targets, seen)
        invariant seen' + Members(Fresh(sources, targets[i..], seen')) == seen + Members(Fresh(sources, targets, seen))
      {
        var next := targets[i];
        assert targets[i..][0] == next && targets[i..][1..] == targets[i + 1..];
        if next !in seen' && !sources.foundation(next) {
          ghost var rest := Fresh(sources, targets[i + 1..], seen' + {next});
          assert pending' + ([next] + rest) == pending' + [next] + rest;
          assert Members([next] + rest) == {next} + Members(rest);
          pending', seen' := pending' + [next], seen' + {next};
        }
      }
    }
  }
}
