/** The import rules: acyclic sources, and no path from a client entry to privileged code. */
module ModuleBoundaries {
  import opened Options
  import opened Digraph
  import CycleFinder
  import Sorting

  /** One import; `target` is the source file it resolves to, if it resolves to one. */
  datatype Import = Import(from: string, target: Option<string>, classification: string, specifier: string)

  datatype Kind = ServerPlacement | WebPrivilege | PortableLeak

  /** What a finding's message says. */
  datatype Message = Misplaced | ReachedFrom(root: string, specifier: string, target: Option<string>)

  datatype Violation = Violation(kind: Kind, file: string, message: Message, packet: string)

  // ---------------------------------------------------------------- source cycles

  function LocalDependencies(sources: seq<string>, imports: seq<Import>): seq<CycleFinder.Dependency> {
    if imports == [] then []
    else
      var last := imports[|imports| - 1];
      LocalDependencies(sources, imports[..|imports| - 1]) +
      (if last.classification == "local" && last.target.Some? && last.target.value in sources
       then [CycleFinder.Dependency(last.from, last.target.value)] else [])
  }

  predicate LocalImport(sources: seq<string>, e: Import, u: string, v: string) {
    e.classification == "local" && e.from == u && e.target == Some(v) && v in sources
  }

  lemma {:induction false} LocalDependenciesAre(sources: seq<string>, imports: seq<Import>, u: string, v: string)
    ensures CycleFinder.Dependency(u, v) in LocalDependencies(sources, imports) <==>
            exists e :: e in imports && LocalImport(sources, e, u, v)
    decreases |imports|
  {
    if imports != [] {
      var init, last := imports[..|imports| - 1], imports[|imports| - 1];
      LocalDependenciesAre(sources, init, u, v);
      assert imports == init + [last];
      if LocalImport(sources, last, u, v) {
        assert last in imports;
      }
    }
  }

  /** Every local import between listed sources descends in rank, so the sources can be built one after another. */
  ghost predicate Layered(sources: seq<string>, imports: seq<Import>, rank: map<string, nat>) {
    forall e :: e in imports && e.classification == "local" && e.from in sources && e.target.Some? ==>
      e.target.value !in sources ||
      (e.from in rank && e.target.value in rank && rank[e.target.value] < rank[e.from])
  }

  /** The source files joined by their local imports. */
  ghost function SourceGraph(sources: seq<string>, imports: seq<Import>): Graph {
    CycleFinder.DependencyGraph(sources, LocalDependencies(sources, imports))
  }

  /** One file of each group of files that import each other in a cycle, the least of its group. */
  ghost predicate LeastOfCycles(g: Graph, files: seq<string>) {
    && (forall i, x :: 0 <= i < |files| && Mutual(g, files[i], x) ==> Sorting.StringLe(files[i], x))
    && (forall i, j :: 0 <= i < j < |files| ==> !Mutual(g, files[i], files[j]))
    && (forall x :: OnCycle(g, x) <==> exists i :: 0 <= i < |files| && Mutual(g, files[i], x))
  }

  /**
   * The file that each `source-cycle` finding names: one finding per cycle, and none exactly when sources are layered.
   */
  method SourceCycles(sources: seq<string>, imports: seq<Import>) returns (files: seq<string>)
    ensures files == [] <==> exists rank :: Layered(sources, imports, rank)
    ensures LeastOfCycles(SourceGraph(sources, imports), files) && forall f :: f in files ==> f in sources
  {
    var edges := LocalDependencies(sources, imports);
    ghost var g := CycleFinder.DependencyGraph(sources, edges);
    var cycles := CycleFinder.Cycles(sources, edges);
    CycleFinder.NoCyclesIffRanked(g, cycles);
    forall rank
      ensures CycleFinder.Ranks(g, rank) <==> Layered(sources, imports, rank)
    {
      RankedIsLayered(sources, imports, rank);
    }
    files := [];
    for i := 0 to |cycles|
      invariant |files| == i
      invariant forall k :: 0 <= k < i ==> files[k] == cycles[k][0]
    {
      files := files + [cycles[i][0]];
    }
    FirstsAreLeast(g, cycles, files);
    forall f | f in files
      ensures f in sources
    {
      var i :| 0 <= i < |files| && files[i] == f;
      CycleFinder.SharedComponent(g, cycles, f, f);
      assert f in cycles[i];
    }
  }

  lemma FirstsAreLeast(g: Graph, cycles: seq<seq<string>>, files: seq<string>)
    requires CycleFinder.CyclicComponents(g, cycles) && |files| == |cycles|
    requires forall i :: 0 <= i < |files| ==> cycles[i] != [] && files[i] == cycles[i][0]
    ensures LeastOfCycles(g, files)
  {
    forall i, x | 0 <= i < |files| && Mutual(g, files[i], x)
      ensures Sorting.StringLe(files[i], x)
    {
      assert x in cycles[i];
      Sorting.StringLeIsTotalOrder();
      Sorting.LeastIsFirst(Sorting.StringLe, cycles[i], x);
    }
    forall i, j | 0 <= i < j < |files|
      ensures !Mutual(g, files[i], files[j])
    {
      assert files[i] in cycles[i] && files[j] in cycles[j];
    }
    forall x
      ensures OnCycle(g, x) <==> exists i :: 0 <= i < |files| && Mutual(g, files[i], x)
    {
      if OnCycle(g, x) {
        var i :| 0 <= i < |cycles| && x in cycles[i];
        assert files[i] in cycles[i] && Mutual(g, files[i], x);
      }
      if i :| 0 <= i < |files| && Mutual(g, files[i], x) {
        assert files[i] in cycles[i] && x in cycles[i];
      }
    }
  }

  /** The source graph has an edge exactly where a local import of a source file resolves to a source file. */
  lemma SourceEdge(sources: seq<string>, imports: seq<Import>, u: string, v: string)
    ensures Edge(SourceGraph(sources, imports), u, v) <==>
            u in sources && v in sources &&
            exists e :: e in imports && e.classification == "local" && e.from == u && e.target == Some(v)
  {
    LocalDependenciesAre(sources, imports, u, v);
    CycleFinder.DependencyEdge(sources, LocalDependencies(sources, imports), u, v);
    if e :| v in sources && e in imports && e.classification == "local" && e.from == u && e.target == Some(v) {
      assert LocalImport(sources, e, u, v);
    }
  }

  lemma RankedIsLayered(sources: seq<string>, imports: seq<Import>, rank: map<string, nat>)
    ensures CycleFinder.Ranks(CycleFinder.DependencyGraph(sources, LocalDependencies(sources, imports)), rank)
            <==> Layered(sources, imports, rank)
  {
    var g := SourceGraph(sources, imports);
    if Layered(sources, imports, rank) {
      forall u, v | Edge(g, u, v)
        ensures u in rank && v in rank && rank[v] < rank[u]
      {
        SourceEdge(sources, imports, u, v);
      }
    }
    if CycleFinder.Ranks(g, rank) {
      forall e | e in imports && e.classification == "local" && e.from in sources && e.target.Some? &&
          e.target.value in sources
        ensures e.from in rank && e.target.value in rank && rank[e.target.value] < rank[e.from]
      {
        SourceEdge(sources, imports, e.from, e.target.value);
      }
    }
  }

  // ---------------------------------------------------------------- privileged imports

  /** The tests on names: which files are entries, and which imports an entry of each kind must not reach. */
  datatype Rules = Rules(
    misplaced: string -> bool, webEntry: string -> bool, portableEntry: string -> bool,
    privileged: Import -> bool, unportable: Import -> bool, packet: string -> string)
  {
    predicate Entry(root: string) {
      portableEntry(root) || webEntry(root)
    }

    /** A portable entry rejects everything a web entry rejects, and more. */
    predicate Rejects(root: string, e: Import) {
      privileged(e) || (portableEntry(root) && unportable(e))
    }

    function LeakKind(root: string): Kind {
      if portableEntry(root) then PortableLeak else WebPrivilege
    }
  }

  /** Findings that differ only in the packet are the same finding. */
  datatype Key = Key(kind: Kind, file: string, message: Message)

  function KeyOf(v: Violation): Key {
    Key(v.kind, v.file, v.message)
  }

  function ImportsOf(imports: seq<Import>, file: string): seq<Import> {
    if imports == [] then []
    else
      var last := imports[|imports| - 1];
      ImportsOf(imports[..|imports| - 1], file) + (if last.from == file then [last] else [])
  }

  lemma {:induction false} ImportsOfAre(imports: seq<Import>, file: string)
    ensures forall e :: e in ImportsOf(imports, file) <==> e in imports && e.from == file
    decreases |imports|
  {
    if imports != [] {
      var init, last := imports[..|imports| - 1], imports[|imports| - 1];
      ImportsOfAre(init, file);
      assert imports == init + [last];
    }
  }

  /** The source files that the first `n` imports lead to, leaving out those `root` rejects. */
  function Followed(rules: Rules, sources: seq<string>, root: string, imports: seq<Import>, n: nat): seq<string>
    requires n <= |imports|
  {
    if n == 0 then []
    else Followed(rules, sources, root, imports, n - 1) + Onward(rules, sources, root, imports[n - 1])
  }

  /** The source file that an import leads to, unless `root` rejects it. */
  function Onward(rules: Rules, sources: seq<string>, root: string, e: Import): seq<string> {
    if !rules.Rejects(root, e) && e.target.Some? && e.target.value in sources then [e.target.value] else []
  }

  lemma {:induction false} FollowedAre(rules: Rules, sources: seq<string>, root: string, imports: seq<Import>, n: nat,
                                       v: string)
    requires n <= |imports|
    ensures v in Followed(rules, sources, root, imports, n) <==>
            v in sources && exists e :: e in imports[..n] && !rules.Rejects(root, e) && e.target == Some(v)
  {
    if n > 0 {
      FollowedAre(rules, sources, root, imports, n - 1, v);
      assert imports[..n] == imports[..n - 1] + [imports[n - 1]];
    }
  }

  /** The graph a search from `root` walks: source files joined by the imports it does not reject. */
  function AllowedGraph(rules: Rules, sources: seq<string>, imports: seq<Import>, root: string): Graph {
    map file | file in sources :: var edges := ImportsOf(imports, file); Followed(rules, sources, root, edges, |edges|)
  }

  /** Some allowed import joins the source files `u` and `v`. */
  ghost predicate AllowedStep(rules: Rules, sources: seq<string>, imports: seq<Import>, root: string, u: string,
                              v: string) {
    u in sources && v in sources &&
    exists e :: e in imports && e.from == u && !rules.Rejects(root, e) && e.target == Some(v)
  }

  lemma AllowedEdge(rules: Rules, sources: seq<string>, imports: seq<Import>, root: string, u: string, v: string)
    ensures Edge(AllowedGraph(rules, sources, imports, root), u, v) <==>
            AllowedStep(rules, sources, imports, root, u, v)
  {
    ImportsOfAre(imports, u);
    var edges := ImportsOf(imports, u);
    FollowedAre(rules, sources, root, edges, |edges|, v);
    assert edges[..|edges|] == edges;
  }

  /** Import `e` is rejected and some chain of allowed imports leads from the entry `root` to the file holding it. */
  ghost predicate Exposed(rules: Rules, sources: seq<string>, imports: seq<Import>, root: string, e: Import) {
    && root in sources && rules.Entry(root)
    && e in imports && e.from in sources && rules.Rejects(root, e)
    && Reach(AllowedGraph(rules, sources, imports, root), root, e.from)
  }

  function ExposedAs(rules: Rules, root: string, e: Import): Violation {
    Violation(rules.LeakKind(root), e.from, ReachedFrom(root, e.specifier, e.target), rules.packet(e.from))
  }

  function MisplacedAs(rules: Rules, file: string): Violation {
    Violation(ServerPlacement, file, Misplaced, rules.packet(file))
  }

  /** What a finding is about. */
  datatype Cause = Placement(file: string) | Leak(root: string, e: Import)

  function ReportOf(rules: Rules, cause: Cause): Violation {
    match cause
    case Placement(file) => MisplacedAs(rules, file)
    case Leak(root, e) => ExposedAs(rules, root, e)
  }

  ghost predicate Holds(rules: Rules, sources: seq<string>, imports: seq<Import>, cause: Cause) {
    match cause
    case Placement(file) => file in sources && rules.misplaced(file)
    case Leak(root, e) => Exposed(rules, sources, imports, root, e)
  }

  ghost predicate Due(rules: Rules, sources: seq<string>, imports: seq<Import>, v: Violation) {
    exists cause :: Holds(rules, sources, imports, cause) && v == ReportOf(rules, cause)
  }

  /** Each finding reports the cause beside it. */
  ghost predicate Justified(rules: Rules, sources: seq<string>, imports: seq<Import>, causes: seq<Cause>,
                            result: seq<Violation>) {
    |causes| == |result| &&
    forall i {:trigger Holds(rules, sources, imports, causes[i])} :: 0 <= i < |causes| ==>
      Holds(rules, sources, imports, causes[i]) && result[i] == ReportOf(rules, causes[i])
  }

  lemma JustifiedNext(rules: Rules, sources: seq<string>, imports: seq<Import>, causes: seq<Cause>,
                      result: seq<Violation>, cause: Cause)
    requires Justified(rules, sources, imports, causes, result) && Holds(rules, sources, imports, cause)
    ensures Justified(rules, sources, imports, causes + [cause], result + [ReportOf(rules, cause)])
  {
    var all := causes + [cause];
    forall i | 0 <= i < |all|
      ensures Holds(rules, sources, imports, all[i]) &&
              (result + [ReportOf(rules, cause)])[i] == ReportOf(rules, all[i])
    {
      assert i < |causes| ==> Holds(rules, sources, imports, causes[i]);
    }
  }

  lemma JustifiedAreDue(rules: Rules, sources: seq<string>, imports: seq<Import>, causes: seq<Cause>,
                        result: seq<Violation>)
    requires Justified(rules, sources, imports, causes, result)
    ensures forall v :: v in result ==> Due(rules, sources, imports, v)
  {
    forall v | v in result
      ensures Due(rules, sources, imports, v)
    {
      var i :| 0 <= i < |result| && result[i] == v;
      assert Holds(rules, sources, imports, causes[i]);
    }
  }

  /** `adjacency` lists the imports of every source file, in order. */
  ghost predicate Lists(adjacency: map<string, seq<Import>>, sources: seq<string>, imports: seq<Import>) {
    && (forall file :: file in adjacency <==> file in sources)
    && (forall file :: file in adjacency ==> adjacency[file] == ImportsOf(imports, file))
  }

  function KeysOf(result: seq<Violation>): set<Key> {
    if result == [] then {} else KeysOf(result[..|result| - 1]) + {KeyOf(result[|result| - 1])}
  }

  /** The same finding is among the reported ones. */
  ghost predicate Reports(result: seq<Violation>, v: Violation) {
    exists r :: r in result && KeyOf(r) == KeyOf(v)
  }

  lemma {:induction false} InKeysOf(result: seq<Violation>, v: Violation)
    ensures KeyOf(v) in KeysOf(result) <==> Reports(result, v)
    decreases |result|
  {
    if result != [] {
      var init, last := result[..|result| - 1], result[|result| - 1];
      InKeysOf(init, v);
      assert result == init + [last];
      if KeyOf(last) == KeyOf(v) {
        assert last in result;
      }
    }
  }

  /** No finding is reported twice. */
  ghost predicate DistinctKeys(result: seq<Violation>) {
    forall i, j :: 0 <= i < j < |result| ==> KeyOf(result[i]) != KeyOf(result[j])
  }

  /** The same, one finding at a time. */
  ghost predicate EachNew(result: seq<Violation>) {
    result == [] ||
    (KeyOf(result[|result| - 1]) !in KeysOf(result[..|result| - 1]) && EachNew(result[..|result| - 1]))
  }

  lemma {:induction false} EachNewIsDistinct(result: seq<Violation>)
    requires EachNew(result)
    ensures DistinctKeys(result)
    decreases |result|
  {
    if result != [] {
      var init := result[..|result| - 1];
      EachNewIsDistinct(init);
      InKeysOf(init, result[|result| - 1]);
      forall i, j | 0 <= i < j < |result|
        ensures KeyOf(result[i]) != KeyOf(result[j])
      {
        assert init[i] == result[i] && init[i] in init;
        assert j < |init| ==> init[j] == result[j];
      }
    }
  }

  lemma AppendKey(result: seq<Violation>, v: Violation)
    ensures KeysOf(result + [v]) == KeysOf(result) + {KeyOf(v)}
    ensures EachNew(result + [v]) <==> EachNew(result) && KeyOf(v) !in KeysOf(result)
  {
    assert (result + [v])[..|result|] == result;
  }

  /** Reports every rejected import within reach of an entry, each message once. */
  class PrivilegeCheck {
    const rules: Rules
    const sources: seq<string>
    const imports: seq<Import>
    const adjacency: map<string, seq<Import>>
    var seen: set<Key>
    var result: seq<Violation>
    ghost var causes: seq<Cause>

    ghost predicate Valid()
      reads this
    {
      && seen == KeysOf(result)
      && EachNew(result)
      && Justified(rules, sources, imports, causes, result)
    }

    constructor (rules: Rules, sources: seq<string>, imports: seq<Import>)
      ensures this.rules == rules && this.sources == sources && this.imports == imports
      ensures Valid() && Lists(adjacency, sources, imports)
    {
      this.rules, this.sources, this.imports := rules, sources, imports;
      seen, result, causes := {}, [], [];
      var lists: map<string, seq<Import>> := map file | file in sources :: [];
      for i := 0 to |imports|
        invariant Lists(lists, sources, imports[..i])
      {
        assert imports[..i + 1][..i] == imports[..i];
        if imports[i].from in lists {
          lists := lists[imports[i].from := lists[imports[i].from] + [imports[i]]];
        }
      }
      assert imports[..|imports|] == imports;
      adjacency := lists;
    }

    method Report(cause: Cause)
      requires Valid() && Holds(rules, sources, imports, cause)
      modifies this`seen, this`result, this`causes
      ensures Valid() && seen == old(seen) + {KeyOf(ReportOf(rules, cause))}
    {
      var v := ReportOf(rules, cause);
      if KeyOf(v) in seen {
        return;
      }
      AppendKey(result, v);
      JustifiedNext(rules, sources, imports, causes, result, cause);
      causes := causes + [cause];
      seen := seen + {KeyOf(v)};
      result := result + [v];
    }

    method CheckPlacement()
      requires Valid()
      modifies this`seen, this`result, this`causes
      ensures Valid() && old(seen) <= seen
      ensures ReportedPlacement(rules, sources, seen)
    {
      for i := 0 to |sources|
        invariant Valid() && old(seen) <= seen
        invariant forall j :: 0 <= j < i && rules.misplaced(sources[j]) ==>
                  KeyOf(MisplacedAs(rules, sources[j])) in seen
      {
        if rules.misplaced(sources[i]) {
          Report(Placement(sources[i]));
        }
      }
    }

    /** Reports what `root` rejects among the imports of a file and puts the files behind the rest on the worklist. */
    method Expand(root: string, edges: seq<Import>, pending: seq<string>) returns (pending': seq<string>)
      requires Valid() && Lists(adjacency, sources, imports) && RejectedHold(rules, sources, imports, root, edges)
      modifies this`seen, this`result, this`causes
      ensures Valid() && old(seen) <= seen
      ensures ReportedAll(rules, root, edges, seen)
      ensures pending' == pending + Followed(rules, sources, root, edges, |edges|)
    {
      pending' := pending;
      for i := 0 to |edges|
        invariant Valid() && old(seen) <= seen
        invariant forall j :: 0 <= j < i && rules.Rejects(root, edges[j]) ==>
                  KeyOf(ExposedAs(rules, root, edges[j])) in seen
        invariant pending' == pending + Followed(rules, sources, root, edges, i)
      {
        assert rules.Rejects(root, edges[i]) ==> Holds(rules, sources, imports, Leak(root, edges[i]));
        pending' := Follow(root, edges[i], pending');
      }
    }

    method Follow(root: string, e: Import, pending: seq<string>) returns (pending': seq<string>)
      requires Valid() && Lists(adjacency, sources, imports) &&
               (rules.Rejects(root, e) ==> Holds(rules, sources, imports, Leak(root, e)))
      modifies this`seen, this`result, this`causes
      ensures Valid() && old(seen) <= seen && (rules.Rejects(root, e) ==> KeyOf(ExposedAs(rules, root, e)) in seen)
      ensures pending' == pending + Onward(rules, sources, root, e)
    {
      pending' := pending;
      if rules.Rejects(root, e) {
        Report(Leak(root, e));
      } else if e.target.Some? && e.target.value in adjacency {
        pending' := pending' + [e.target.value];
      }
    }

    /** One worklist search: visits exactly the files that `root` reaches. */
    method SearchFrom(root: string)
      requires Valid() && Lists(adjacency, sources, imports) && root in sources && rules.Entry(root)
      modifies this`seen, this`result, this`causes
      ensures Valid() && old(seen) <= seen
      ensures ReportedEntry(rules, sources, imports, root, seen)
    {
      ghost var g := AllowedGraph(rules, sources, imports, root);
      ghost var all := set file | file in sources;
      var visited: set<string> := {};
      var pending := [root];
      ReachSelf(g, root);
      while pending != []
        invariant Valid() && old(seen) <= seen
        invariant visited <= all && Searching(sources, g, root, visited, pending)
        invariant Searched(rules, imports, root, visited, seen)
        decreases all - visited, |pending|
      {
        var file := pending[|pending| - 1];
        ghost var before, known := pending, seen;
        pending := pending[..|pending| - 1];
        assert before == pending + [file];
        HeadReached(sources, g, root, visited, before);
        if file !in visited {
          ReachedHold(rules, sources, imports, root, file);
          ghost var next := TargetsReached(rules, sources, imports, root, file);
          pending := Expand(root, adjacency[file], pending);
          SearchingNext(sources, g, root, visited, before, next);
          SearchedNext(rules, imports, root, visited, known, file, seen);
          visited := visited + {file};
        }
      }
      EntryIsReported(rules, sources, imports, root, visited, seen);
    }

    /** Reports exactly what is due: everything reported is, and nothing due is missing. */
    method Run()
      requires Valid() && Lists(adjacency, sources, imports)
      modifies this`seen, this`result, this`causes
      ensures Valid()
      ensures forall v :: Due(rules, sources, imports, v) ==> Reports(result, v)
    {
      CheckPlacement();
      for i := 0 to |sources|
        invariant Valid()
        invariant ReportedUpTo(rules, sources, imports, i, seen)
      {
        ghost var before := seen;
        if rules.Entry(sources[i]) {
          SearchFrom(sources[i]);
        }
        ReportedNext(rules, sources, imports, i, before, seen);
      }
      forall v | Due(rules, sources, imports, v)
        ensures Reports(result, v)
      {
        DueIsReported(rules, sources, imports, v, seen);
        InKeysOf(result, v);
      }
    }
  }

  /** In the search from `root`: waiting files are reached, and targets of visited files are visited or waiting. */
  ghost predicate Searching(sources: seq<string>, g: Graph, root: string, visited: set<string>, pending: seq<string>) {
    && (forall f :: f in pending ==> f in sources && Reach(g, root, f))
    && (root in visited || root in pending)
    && (forall f, t :: f in visited && Edge(g, f, t) ==> t in visited || t in pending)
  }

  /** What `root` rejects in the visited files is reported. */
  ghost predicate Searched(rules: Rules, imports: seq<Import>, root: string, visited: set<string>, seen: set<Key>) {
    forall f :: f in visited ==> ReportedAll(rules, root, ImportsOf(imports, f), seen)
  }

  lemma HeadReached(sources: seq<string>, g: Graph, root: string, visited: set<string>, pending: seq<string>)
    requires pending != [] && Searching(sources, g, root, visited, pending)
    ensures var file := pending[|pending| - 1];
            && file in sources && Reach(g, root, file)
            && (file in visited ==> Searching(sources, g, root, visited, pending[..|pending| - 1]))
  {
    assert pending == pending[..|pending| - 1] + [pending[|pending| - 1]];
  }

  lemma SearchingNext(sources: seq<string>, g: Graph, root: string, visited: set<string>, pending: seq<string>,
                      next: seq<string>)
    requires pending != [] && Searching(sources, g, root, visited, pending)
    requires forall t :: Edge(g, pending[|pending| - 1], t) ==> t in next
    requires forall t :: t in next ==> t in sources && Reach(g, root, t)
    ensures Searching(sources, g, root, visited + {pending[|pending| - 1]}, pending[..|pending| - 1] + next)
  {
    assert pending == pending[..|pending| - 1] + [pending[|pending| - 1]];
  }

  lemma SearchedNext(rules: Rules, imports: seq<Import>, root: string, visited: set<string>, seen: set<Key>,
                     file: string, seen': set<Key>)
    requires Searched(rules, imports, root, visited, seen) && seen <= seen'
    requires ReportedAll(rules, root, ImportsOf(imports, file), seen')
    ensures Searched(rules, imports, root, visited + {file}, seen')
  {
    forall f | f in visited
      ensures ReportedAll(rules, root, ImportsOf(imports, f), seen')
    {
      ReportedMore(rules, root, ImportsOf(imports, f), seen, seen');
    }
  }

  lemma ReportedMore(rules: Rules, root: string, edges: seq<Import>, seen: set<Key>, seen': set<Key>)
    requires ReportedAll(rules, root, edges, seen) && seen <= seen'
    ensures ReportedAll(rules, root, edges, seen')
  {
  }

  /** Every import in `edges` that `root` rejects is reported. */
  ghost predicate ReportedAll(rules: Rules, root: string, edges: seq<Import>, seen: set<Key>) {
    forall e :: e in edges && rules.Rejects(root, e) ==> KeyOf(ExposedAs(rules, root, e)) in seen
  }

  ghost predicate ReportedEntry(rules: Rules, sources: seq<string>, imports: seq<Import>, root: string,
                                seen: set<Key>) {
    forall e :: Exposed(rules, sources, imports, root, e) ==> KeyOf(ExposedAs(rules, root, e)) in seen
  }

  ghost predicate ReportedPlacement(rules: Rules, sources: seq<string>, seen: set<Key>) {
    forall file :: file in sources && rules.misplaced(file) ==> KeyOf(MisplacedAs(rules, file)) in seen
  }

  /** Misplaced files and the findings of the first `n` entries are reported. */
  ghost predicate ReportedUpTo(rules: Rules, sources: seq<string>, imports: seq<Import>, n: nat, seen: set<Key>)
    requires n <= |sources|
  {
    && ReportedPlacement(rules, sources, seen)
    && forall j :: 0 <= j < n && rules.Entry(sources[j]) ==> ReportedEntry(rules, sources, imports, sources[j], seen)
  }

  lemma ReportedNext(rules: Rules, sources: seq<string>, imports: seq<Import>, n: nat, before: set<Key>, seen: set<Key>)
    requires n < |sources| && ReportedUpTo(rules, sources, imports, n, before) && before <= seen
    requires rules.Entry(sources[n]) ==> ReportedEntry(rules, sources, imports, sources[n], seen)
    ensures ReportedUpTo(rules, sources, imports, n + 1, seen)
  {
    forall j | 0 <= j < n && rules.Entry(sources[j])
      ensures ReportedEntry(rules, sources, imports, sources[j], seen)
    {
      assert ReportedEntry(rules, sources, imports, sources[j], before);
    }
  }

  ghost predicate RejectedHold(rules: Rules, sources: seq<string>, imports: seq<Import>, root: string,
                               edges: seq<Import>) {
    forall j {:trigger Holds(rules, sources, imports, Leak(root, edges[j]))} ::
      0 <= j < |edges| && rules.Rejects(root, edges[j]) ==> Holds(rules, sources, imports, Leak(root, edges[j]))
  }

  lemma ReachedHold(rules: Rules, sources: seq<string>, imports: seq<Import>, root: string, file: string)
    requires root in sources && rules.Entry(root) && file in sources
    requires Reach(AllowedGraph(rules, sources, imports, root), root, file)
    ensures RejectedHold(rules, sources, imports, root, ImportsOf(imports, file))
  {
    ImportsOfAre(imports, file);
    var edges := ImportsOf(imports, file);
    forall j | 0 <= j < |edges| && rules.Rejects(root, edges[j])
      ensures Holds(rules, sources, imports, Leak(root, edges[j]))
    {
      assert edges[j] in edges;
      assert Exposed(rules, sources, imports, root, edges[j]);
    }
  }

  lemma TargetsReached(rules: Rules, sources: seq<string>, imports: seq<Import>, root: string, file: string)
    returns (next: seq<string>)
    requires file in sources && Reach(AllowedGraph(rules, sources, imports, root), root, file)
    ensures var edges := ImportsOf(imports, file); next == Followed(rules, sources, root, edges, |edges|)
    ensures forall t :: Edge(AllowedGraph(rules, sources, imports, root), file, t) <==> t in next
    ensures forall t :: t in next ==> t in sources && Reach(AllowedGraph(rules, sources, imports, root), root, t)
  {
    var g := AllowedGraph(rules, sources, imports, root);
    next := g[file];
    forall t | Edge(g, file, t)
      ensures t in sources && Reach(g, root, t)
    {
      AllowedEdge(rules, sources, imports, root, file, t);
      ReachExtend(g, root, file, t);
    }
  }

  /** A visited set that is closed and contains the entry contains every file the entry reaches. */
  lemma EntryIsReported(rules: Rules, sources: seq<string>, imports: seq<Import>, root: string, visited: set<string>,
                        seen: set<Key>)
    requires root in visited && Closed(AllowedGraph(rules, sources, imports, root), visited)
    requires forall f :: f in visited ==> ReportedAll(rules, root, ImportsOf(imports, f), seen)
    ensures ReportedEntry(rules, sources, imports, root, seen)
  {
    forall e | Exposed(rules, sources, imports, root, e)
      ensures KeyOf(ExposedAs(rules, root, e)) in seen
    {
      ClosedReach(AllowedGraph(rules, sources, imports, root), visited, root, e.from);
      ImportsOfAre(imports, e.from);
    }
  }

  lemma DueIsReported(rules: Rules, sources: seq<string>, imports: seq<Import>, v: Violation, seen: set<Key>)
    requires ReportedUpTo(rules, sources, imports, |sources|, seen)
    requires Due(rules, sources, imports, v)
    ensures KeyOf(v) in seen
  {
    var cause :| Holds(rules, sources, imports, cause) && v == ReportOf(rules, cause);
    if cause.Leak? {
      var j :| 0 <= j < |sources| && sources[j] == cause.root;
      assert ReportedEntry(rules, sources, imports, sources[j], seen);
    }
  }

  /** An import from a source file to another, not privileged, nor unportable where the root is portable. */
  ghost predicate LeadsOn(rules: Rules, sources: seq<string>, imports: seq<Import>, root: string, e: Import,
                          file: string) {
    && e in imports && e.from in sources && e.target == Some(file) && file in sources
    && !rules.privileged(e) && !(rules.portableEntry(root) && rules.unportable(e))
  }

  /** In `n` such imports one gets from `root` to `file`. */
  ghost predicate LeadsIn(rules: Rules, sources: seq<string>, imports: seq<Import>, root: string, file: string, n: nat)
    decreases n
  {
    if n == 0 then file == root
    else
      exists e ::
        LeadsOn(rules, sources, imports, root, e, file) && LeadsIn(rules, sources, imports, root, e.from, n - 1)
  }

  ghost predicate Leads(rules: Rules, sources: seq<string>, imports: seq<Import>, root: string, file: string) {
    exists n: nat :: LeadsIn(rules, sources, imports, root, file, n)
  }

  /** A web or portable entry gets to a file holding an import that is privileged, or unportable for a portable one. */
  ghost predicate Leaks(rules: Rules, sources: seq<string>, imports: seq<Import>, root: string, e: Import) {
    && root in sources && (rules.webEntry(root) || rules.portableEntry(root))
    && e in imports && e.from in sources && Leads(rules, sources, imports, root, e.from)
    && (rules.privileged(e) || (rules.portableEntry(root) && rules.unportable(e)))
  }

  lemma StepIffLeadsOn(rules: Rules, sources: seq<string>, imports: seq<Import>, root: string, u: string, v: string)
    ensures Edge(AllowedGraph(rules, sources, imports, root), u, v) <==>
            exists e :: LeadsOn(rules, sources, imports, root, e, v) && e.from == u
  {
    AllowedEdge(rules, sources, imports, root, u, v);
    if AllowedStep(rules, sources, imports, root, u, v) {
      var e :| e in imports && e.from == u && !rules.Rejects(root, e) && e.target == Some(v);
      assert LeadsOn(rules, sources, imports, root, e, v);
    }
  }

  lemma {:induction false} LeadsInIffReachIn(rules: Rules, sources: seq<string>, imports: seq<Import>, g: Graph,
                                             root: string, file: string, n: nat)
    requires forall u, v :: Edge(g, u, v) <==> exists e :: LeadsOn(rules, sources, imports, root, e, v) && e.from == u
    ensures LeadsIn(rules, sources, imports, root, file, n) <==> ReachIn(g, root, file, n)
    decreases n
  {
    if n > 0 {
      if LeadsIn(rules, sources, imports, root, file, n) {
        var e :| LeadsOn(rules, sources, imports, root, e, file)
                 && LeadsIn(rules, sources, imports, root, e.from, n - 1);
        LeadsInIffReachIn(rules, sources, imports, g, root, e.from, n - 1);
        assert Edge(g, e.from, file);
      }
      if ReachIn(g, root, file, n) {
        var w :| ReachIn(g, root, w, n - 1) && Edge(g, w, file);
        LeadsInIffReachIn(rules, sources, imports, g, root, w, n - 1);
      }
    }
  }

  lemma LeaksIffExposed(rules: Rules, sources: seq<string>, imports: seq<Import>, root: string, e: Import)
    ensures Leaks(rules, sources, imports, root, e) <==> Exposed(rules, sources, imports, root, e)
  {
    var g := AllowedGraph(rules, sources, imports, root);
    forall u, v
      ensures Edge(g, u, v) <==> exists e :: LeadsOn(rules, sources, imports, root, e, v) && e.from == u
    {
      StepIffLeadsOn(rules, sources, imports, root, u, v);
    }
    forall n: nat
      ensures LeadsIn(rules, sources, imports, root, e.from, n) <==> ReachIn(g, root, e.from, n)
    {
      LeadsInIffReachIn(rules, sources, imports, g, root, e.from, n);
    }
  }

  /** The finding for an import that an entry leaks. */
  ghost predicate LeakFinding(rules: Rules, root: string, e: Import, v: Violation) {
    && v.kind == (if rules.portableEntry(root) then PortableLeak else WebPrivilege)
    && v.file == e.from && v.message == ReachedFrom(root, e.specifier, e.target) && v.packet == rules.packet(e.from)
  }

  ghost predicate PlacementFinding(rules: Rules, file: string, v: Violation) {
    v.kind == ServerPlacement && v.file == file && v.message == Misplaced && v.packet == rules.packet(file)
  }

  /** Reports every misplaced file and every leak of every entry, nothing else, and nothing twice. */
  method CheckPrivilegeBoundaries(rules: Rules, sources: seq<string>, imports: seq<Import>)
    returns (result: seq<Violation>)
    ensures forall root, e :: Leaks(rules, sources, imports, root, e) ==>
              exists v :: v in result && LeakFinding(rules, root, e, v)
    ensures forall file :: file in sources && rules.misplaced(file) ==>
              exists v :: v in result && PlacementFinding(rules, file, v)
    ensures forall v :: v in result ==>
              || (exists file :: file in sources && rules.misplaced(file) && PlacementFinding(rules, file, v))
              || (exists root, e :: Leaks(rules, sources, imports, root, e) && LeakFinding(rules, root, e, v))
    ensures forall i, j :: 0 <= i < j < |result| ==> result[i] != result[j]
    ensures forall v :: v in result ==> Due(rules, sources, imports, v)
    ensures forall v :: Due(rules, sources, imports, v) ==> Reports(result, v)
    ensures DistinctKeys(result)
  {
    var check := new PrivilegeCheck(rules, sources, imports);
    check.Run();
    result := check.result;
    JustifiedAreDue(rules, sources, imports, check.causes, result);
    EachNewIsDistinct(result);
    FindingsAre(rules, sources, imports, result);
  }

  lemma FindingsAre(rules: Rules, sources: seq<string>, imports: seq<Import>, result: seq<Violation>)
    requires forall v :: v in result ==> Due(rules, sources, imports, v)
    requires forall v :: Due(rules, sources, imports, v) ==> Reports(result, v)
    ensures forall root, e :: Leaks(rules, sources, imports, root, e) ==>
              exists v :: v in result && LeakFinding(rules, root, e, v)
    ensures forall file :: file in sources && rules.misplaced(file) ==>
              exists v :: v in result && PlacementFinding(rules, file, v)
    ensures forall v :: v in result ==>
              || (exists file :: file in sources && rules.misplaced(file) && PlacementFinding(rules, file, v))
              || (exists root, e :: Leaks(rules, sources, imports, root, e) && LeakFinding(rules, root, e, v))
  {
    forall root, e | Leaks(rules, sources, imports, root, e)
      ensures exists v :: v in result && LeakFinding(rules, root, e, v)
    {
      LeaksIffExposed(rules, sources, imports, root, e);
      var v := CauseIsReported(rules, sources, imports, result, Leak(root, e));
      assert LeakFinding(rules, root, e, v);
    }
    forall file | file in sources && rules.misplaced(file)
      ensures exists v :: v in result && PlacementFinding(rules, file, v)
    {
      var v := CauseIsReported(rules, sources, imports, result, Placement(file));
      assert PlacementFinding(rules, file, v);
    }
    forall v | v in result
      ensures || (exists file :: file in sources && rules.misplaced(file) && PlacementFinding(rules, file, v))
              || (exists root, e :: Leaks(rules, sources, imports, root, e) && LeakFinding(rules, root, e, v))
    {
      FindingIs(rules, sources, imports, v);
    }
  }

  /** A cause is reported under its own packet: the packet depends on the file alone. */
  lemma CauseIsReported(rules: Rules, sources: seq<string>, imports: seq<Import>, result: seq<Violation>, cause: Cause)
    returns (v: Violation)
    requires forall v :: v in result ==> Due(rules, sources, imports, v)
    requires forall v :: Due(rules, sources, imports, v) ==> Reports(result, v)
    requires Holds(rules, sources, imports, cause)
    ensures v in result && v == ReportOf(rules, cause)
  {
    var wanted := ReportOf(rules, cause);
    assert Due(rules, sources, imports, wanted);
    v :| v in result && KeyOf(v) == KeyOf(wanted);
    var other :| Holds(rules, sources, imports, other) && v == ReportOf(rules, other);
  }

  lemma FindingIs(rules: Rules, sources: seq<string>, imports: seq<Import>, v: Violation)
    requires Due(rules, sources, imports, v)
    ensures || (exists file :: file in sources && rules.misplaced(file) && PlacementFinding(rules, file, v))
            || (exists root, e :: Leaks(rules, sources, imports, root, e) && LeakFinding(rules, root, e, v))
  {
    var cause :| Holds(rules, sources, imports, cause) && v == ReportOf(rules, cause);
    match cause
    case Placement(file) => assert PlacementFinding(rules, file, v);
    case Leak(root, e) =>
      LeaksIffExposed(rules, sources, imports, root, e);
      assert LeakFinding(rules, root, e, v);
  }

  /** A chain of imports, each from the file the one before it led to. */
  ghost predicate Chain(sources: seq<string>, imports: seq<Import>, root: string, chain: seq<Import>) {
    && |chain| > 0 && chain[0].from == root
    && (forall i :: 0 <= i < |chain| ==> chain[i] in imports && chain[i].from in sources)
    && (forall i, j :: 0 <= i < j < |chain| && j == i + 1 ==> chain[i].target == Some(chain[j].from))
  }

  /**
   * Nothing to report for an entry means no chain of imports from it, allowed or not, contains an import it
   * rejects: the first rejected one of a chain would have been reported.
   */
  lemma NoFindingMeansNoPath(rules: Rules, sources: seq<string>, imports: seq<Import>, root: string)
    requires root in sources && (rules.webEntry(root) || rules.portableEntry(root))
    ensures (forall e :: !Leaks(rules, sources, imports, root, e)) <==>
            (forall chain, i ::
               Chain(sources, imports, root, chain) && 0 <= i < |chain| ==>
               !rules.privileged(chain[i]) && !(rules.portableEntry(root) && rules.unportable(chain[i])))
  {
    NothingExposedMeansNoPath(rules, sources, imports, root);
    forall e
      ensures Leaks(rules, sources, imports, root, e) <==> Exposed(rules, sources, imports, root, e)
    {
      LeaksIffExposed(rules, sources, imports, root, e);
    }
  }

  lemma NothingExposedMeansNoPath(rules: Rules, sources: seq<string>, imports: seq<Import>, root: string)
    requires root in sources && rules.Entry(root)
    ensures (forall e :: !Exposed(rules, sources, imports, root, e)) <==>
            (forall chain, i ::
               Chain(sources, imports, root, chain) && 0 <= i < |chain| ==> !rules.Rejects(root, chain[i]))
  {
    if forall e :: !Exposed(rules, sources, imports, root, e) {
      forall chain, i | Chain(sources, imports, root, chain) && 0 <= i < |chain|
        ensures !rules.Rejects(root, chain[i])
      {
        ChainIsAllowed(rules, sources, imports, root, chain, i);
      }
    }
    forall e | Exposed(rules, sources, imports, root, e)
      ensures exists chain, i ::
                Chain(sources, imports, root, chain) && 0 <= i < |chain| && rules.Rejects(root, chain[i])
    {
      var g := AllowedGraph(rules, sources, imports, root);
      var n: nat :| ReachIn(g, root, e.from, n);
      forall u, v | Edge(g, u, v)
        ensures AllowedStep(rules, sources, imports, root, u, v)
      {
        AllowedEdge(rules, sources, imports, root, u, v);
      }
      var chain := ChainTo(rules, sources, imports, root, g, e, n);
      assert rules.Rejects(root, chain[|chain| - 1]);
    }
  }

  lemma {:induction false} ChainIsAllowed(rules: Rules, sources: seq<string>, imports: seq<Import>, root: string,
                                          chain: seq<Import>, i: nat)
    requires root in sources && rules.Entry(root)
    requires forall e :: !Exposed(rules, sources, imports, root, e)
    requires Chain(sources, imports, root, chain) && i < |chain|
    ensures Reach(AllowedGraph(rules, sources, imports, root), root, chain[i].from) && !rules.Rejects(root, chain[i])
  {
    var g := AllowedGraph(rules, sources, imports, root);
    if i == 0 {
      ReachSelf(g, root);
    } else {
      ChainIsAllowed(rules, sources, imports, root, chain, i - 1);
      var e := chain[i - 1];
      assert e.target == Some(chain[i].from);
      AllowedEdge(rules, sources, imports, root, e.from, chain[i].from);
      ReachExtend(g, root, e.from, chain[i].from);
    }
    assert !Exposed(rules, sources, imports, root, chain[i]);
  }

  lemma ChainGrows(sources: seq<string>, imports: seq<Import>, root: string, chain: seq<Import>, e: Import)
    requires Chain(sources, imports, root, chain) && chain[|chain| - 1].target == Some(e.from)
    requires e in imports && e.from in sources
    ensures Chain(sources, imports, root, chain + [e])
  {
  }

  lemma {:induction false} ChainTo(rules: Rules, sources: seq<string>, imports: seq<Import>, root: string, g: Graph,
                                   e: Import, n: nat)
    returns (chain: seq<Import>)
    requires forall u, v :: Edge(g, u, v) ==> AllowedStep(rules, sources, imports, root, u, v)
    requires root in sources && e in imports && e.from in sources
    requires ReachIn(g, root, e.from, n)
    ensures Chain(sources, imports, root, chain) && chain[|chain| - 1] == e
    decreases n
  {
    if n == 0 {
      chain := [e];
    } else {
      var w :| ReachIn(g, root, w, n - 1) && Edge(g, w, e.from);
      assert AllowedStep(rules, sources, imports, root, w, e.from);
      var step :| step in imports && step.from == w && !rules.Rejects(root, step) && step.target == Some(e.from);
      var before := ChainTo(rules, sources, imports, root, g, step, n - 1);
      ChainGrows(sources, imports, root, before, e);
      chain := before + [e];
    }
  }
}
