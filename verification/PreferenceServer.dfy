/** Concurrent saves of one account's preference row: a bounded compare-and-swap loop per call. */
module PreferenceServer {
  import opened Options
  import opened Preferences

  const MAX_ATTEMPTS: nat := 3

  /**
   * Where one call stands. `at` is the number of commits there were when its snapshot was read; a call that broke may
   * have committed first, when only the answer to its write was lost or unreadable.
   */
  datatype Phase =
    | Reading(attempt: nat)
    | Writing(attempt: nat, snapshot: Option<Raw>, ghost at: nat)
    | Saved(value: Preferences)
    | Conflict
    | Broken(committed: bool)

  datatype Call = Call(patch: Patch, phase: Phase)

  datatype Commit = Commit(caller: nat, patch: Patch)

  datatype State = State(row: Option<Raw>, calls: seq<Call>, commits: seq<Commit>)

  function Current(row: Option<Raw>): (p: Preferences)
    ensures Complete(p)
  {
    match row
    case None => Default()
    case Some(raw) => Normalize(raw)
  }

  // ---------------------------------------------------------------- steps

  ghost predicate Init(s: State) {
    && s.commits == []
    && forall i :: 0 <= i < |s.calls| ==> s.calls[i].phase == Reading(0) && Typed(s.calls[i].patch)
  }

  ghost function Moved(s: State, i: nat, phase: Phase): State
    requires i < |s.calls|
  {
    s.(calls := s.calls[i := s.calls[i].(phase := phase)])
  }

  ghost predicate ReadRow(s: State, s': State, i: nat)
    requires i < |s.calls|
  {
    && s.calls[i].phase.Reading?
    && s' == Moved(s, i, Writing(s.calls[i].phase.attempt, s.row, |s.commits|))
  }

  /** The row, or its absence, is exactly what the call read. */
  ghost predicate Unchanged(s: State, i: nat)
    requires i < |s.calls| && s.calls[i].phase.Writing?
  {
    s.row == s.calls[i].phase.snapshot
  }

  ghost function Merged(s: State, i: nat): Preferences
    requires i < |s.calls| && s.calls[i].phase.Writing?
  {
    Merge(Current(s.calls[i].phase.snapshot), s.calls[i].patch)
  }

  /** The write matched and committed; its answer confirms the save or gets lost on the way. */
  ghost predicate CommitRow(s: State, s': State, i: nat)
    requires i < |s.calls|
  {
    && s.calls[i].phase.Writing? && Unchanged(s, i)
    && (s' == Committing(s, i, Saved(Merged(s, i))) || s' == Committing(s, i, Broken(true)))
  }

  ghost function Committing(s: State, i: nat, phase: Phase): State
    requires i < |s.calls| && s.calls[i].phase.Writing?
  {
    Moved(s, i, phase).(row := Some(Stored(Merged(s, i))), commits := s.commits + [Commit(i, s.calls[i].patch)])
  }

  /** The write matched no row: the call reads again, or gives up after its last attempt. */
  ghost predicate MissRow(s: State, s': State, i: nat)
    requires i < |s.calls|
  {
    && s.calls[i].phase.Writing? && !Unchanged(s, i)
    && var next := s.calls[i].phase.attempt + 1;
       s' == Moved(s, i, if next < MAX_ATTEMPTS then Reading(next) else Conflict)
  }

  /** A read or a write failed before it changed anything. */
  ghost predicate BreakCall(s: State, s': State, i: nat)
    requires i < |s.calls|
  {
    && (s.calls[i].phase.Reading? || s.calls[i].phase.Writing?)
    && s' == Moved(s, i, Broken(false))
  }

  ghost predicate StepOf(s: State, s': State, i: nat)
    requires i < |s.calls|
  {
    ReadRow(s, s', i) || CommitRow(s, s', i) || MissRow(s, s', i) || BreakCall(s, s', i)
  }

  ghost predicate Next(s: State, s': State) {
    exists i: nat :: i < |s.calls| && StepOf(s, s', i)
  }

  ghost predicate Run(run: seq<State>) {
    && run != [] && Init(run[0])
    && forall k, l :: 0 <= k < l < |run| && l == k + 1 ==> Next(run[k], run[l])
  }

  /** A call that is reading can read the row as it is, and one that is done takes no step. */
  lemma ReadingMoves(s: State, i: nat)
    requires i < |s.calls|
    ensures s.calls[i].phase.Reading? ==>
              StepOf(s, Moved(s, i, Writing(s.calls[i].phase.attempt, s.row, |s.commits|)), i)
    ensures !s.calls[i].phase.Reading? && !s.calls[i].phase.Writing? ==> forall s' :: !StepOf(s, s', i)
    ensures s.calls[i].phase.Reading? || s.calls[i].phase.Writing? ==> StepOf(s, Moved(s, i, Broken(false)), i)
  {
  }

  /**
   * A write goes through exactly on the row that was read; then the row holds the merged set and the answer may be
   * heard or lost. On any other row it changes nothing and is tried again, or given up after the third attempt.
   */
  lemma WritingMoves(s: State, i: nat)
    requires i < |s.calls| && s.calls[i].phase.Writing?
    ensures var call := s.calls[i];
            var merged := Merge(Current(call.phase.snapshot), call.patch);
            var written := s.(row := Some(Stored(merged)), commits := s.commits + [Commit(i, call.patch)]);
            if s.row == call.phase.snapshot then
              && StepOf(s, Moved(written, i, Saved(merged)), i) && StepOf(s, Moved(written, i, Broken(true)), i)
              && forall s' :: StepOf(s, s', i) ==>
                   s'.row == s.row || s' in {Moved(written, i, Saved(merged)), Moved(written, i, Broken(true))}
            else
              && StepOf(s, Moved(s, i, if call.phase.attempt < 2 then Reading(call.phase.attempt + 1) else Conflict), i)
              && forall s' :: StepOf(s, s', i) ==> s'.row == s.row && s'.commits == s.commits
  {
  }

  /** A call that is not interfered with reads, writes and saves the row merged with its patch. */
  lemma AloneItSaves(s: State, i: nat) returns (s1: State, s2: State)
    requires i < |s.calls| && s.calls[i].phase.Reading? && Typed(s.calls[i].patch)
    ensures Next(s, s1) && Next(s1, s2)
    ensures s2.calls[i].phase == Saved(Merge(Current(s.row), s.calls[i].patch))
    ensures Current(s2.row) == Merge(Current(s.row), s.calls[i].patch)
    ensures s2.commits == s.commits + [Commit(i, s.calls[i].patch)]
  {
    ReadingMoves(s, i);
    s1 := Moved(s, i, Writing(s.calls[i].phase.attempt, s.row, |s.commits|));
    WritingMoves(s1, i);
    var merged := Merge(Current(s.row), s.calls[i].patch);
    MergeComplete(Current(s.row), s.calls[i].patch);
    NormalizeStored(merged);
    var commits := s1.commits + [Commit(i, s1.calls[i].patch)];
    s2 := Moved(s1.(row := Some(Stored(merged)), commits := commits), i, Saved(merged));
  }

  // ---------------------------------------------------------------- what every run keeps

  /** The patches of `commits` applied to `p`, the oldest first. */
  ghost function Fold(p: Preferences, commits: seq<Commit>): Preferences {
    if commits == [] then p
    else Merge(Fold(p, commits[..|commits| - 1]), commits[|commits| - 1].patch)
  }

  ghost predicate Committed(phase: Phase) {
    phase.Saved? || phase == Broken(true)
  }

  /** `k` is the commit made by call `i`. */
  ghost predicate CommitOf(s: State, i: nat, k: nat)
    requires i < |s.calls|
  {
    && k < |s.commits| && s.commits[k] == Commit(i, s.calls[i].patch)
    && (forall l :: 0 <= l < |s.commits| && s.commits[l].caller == i ==> l == k)
  }

  ghost predicate CallInvariant(start: Preferences, s: State, i: nat)
    requires i < |s.calls|
  {
    var phase := s.calls[i].phase;
    && Typed(s.calls[i].patch)
    && (Committed(phase) ==>
        exists k: nat :: CommitOf(s, i, k) && (phase.Saved? ==> phase.value == Fold(start, s.commits[..k + 1])))
    && (!Committed(phase) ==> forall l :: 0 <= l < |s.commits| ==> s.commits[l].caller != i)
    && (phase.Reading? ==> phase.attempt < MAX_ATTEMPTS && phase.attempt <= |s.commits|)
    && (phase.Writing? ==> phase.attempt < MAX_ATTEMPTS && phase.attempt <= phase.at <= |s.commits| &&
                           (phase.at == |s.commits| ==> phase.snapshot == s.row))
    && (phase.Conflict? ==> MAX_ATTEMPTS <= |s.commits|)
  }

  ghost predicate Invariant(start: Preferences, s: State) {
    && Current(s.row) == Fold(start, s.commits)
    && (forall l :: 0 <= l < |s.commits| ==> s.commits[l].caller < |s.calls|)
    && (forall i :: 0 <= i < |s.calls| ==> CallInvariant(start, s, i))
  }

  lemma InitHolds(s: State)
    requires Init(s)
    ensures Invariant(Current(s.row), s)
  {
  }

  /** A step of `i` that commits nothing keeps what is known of the other calls. */
  lemma QuietStep(start: Preferences, s: State, s': State, i: nat)
    requires Invariant(start, s) && i < |s.calls|
    requires ReadRow(s, s', i) || MissRow(s, s', i) || BreakCall(s, s', i)
    ensures Invariant(start, s')
  {
    forall j | 0 <= j < |s'.calls|
      ensures CallInvariant(start, s', j)
    {
      assert CallInvariant(start, s, j) && CallInvariant(start, s, i);
      if Committed(s.calls[j].phase) {
        var k: nat :| CommitOf(s, j, k) &&
          (s.calls[j].phase.Saved? ==> s.calls[j].phase.value == Fold(start, s.commits[..k + 1]));
        assert CommitOf(s', j, k);
      }
    }
  }

  lemma CommitKeepsOthers(start: Preferences, s: State, s': State, i: nat, j: nat)
    requires i < |s.calls| && j < |s.calls| && j != i && CallInvariant(start, s, j)
    requires |s'.calls| == |s.calls| && s'.calls[j] == s.calls[j]
    requires s'.commits == s.commits + [Commit(i, s.calls[i].patch)]
    ensures CallInvariant(start, s', j)
  {
    assert forall l :: 0 <= l < |s.commits| ==> s'.commits[l] == s.commits[l];
    if Committed(s.calls[j].phase) {
      var k: nat :| CommitOf(s, j, k) &&
        (s.calls[j].phase.Saved? ==> s.calls[j].phase.value == Fold(start, s.commits[..k + 1]));
      assert s'.commits[..k + 1] == s.commits[..k + 1];
      assert CommitOf(s', j, k);
    }
  }

  lemma CommitKeepsOwn(start: Preferences, s: State, s': State, i: nat)
    requires Invariant(start, s) && i < |s.calls| && CommitRow(s, s', i)
    ensures Current(s'.row) == Fold(start, s'.commits)
    ensures CallInvariant(start, s', i)
  {
    assert CallInvariant(start, s, i);
    MergeComplete(Current(s.row), s.calls[i].patch);
    NormalizeStored(Merged(s, i));
    assert s'.commits[..|s.commits|] == s.commits;
    assert s'.commits[..|s.commits| + 1] == s'.commits;
    assert CommitOf(s', i, |s.commits|);
  }

  lemma NextKeepsInvariant(start: Preferences, s: State, s': State)
    requires Invariant(start, s) && Next(s, s')
    ensures Invariant(start, s')
  {
    var i: nat :| i < |s.calls| && StepOf(s, s', i);
    if CommitRow(s, s', i) {
      CommitKeepsOwn(start, s, s', i);
      forall j | 0 <= j < |s'.calls|
        ensures CallInvariant(start, s', j)
      {
        assert CallInvariant(start, s, j);
        if j != i {
          CommitKeepsOthers(start, s, s', i, j);
        }
      }
    } else {
      QuietStep(start, s, s', i);
    }
  }

  /** A new call changes nothing for the others. */
  lemma CallAdded(start: Preferences, s: State, patch: Patch)
    requires Invariant(start, s) && Typed(patch)
    ensures Invariant(start, s.(calls := s.calls + [Call(patch, Reading(0))]))
  {
    var s' := s.(calls := s.calls + [Call(patch, Reading(0))]);
    forall j | 0 <= j < |s'.calls|
      ensures CallInvariant(start, s', j)
    {
      if j < |s.calls| {
        assert CallInvariant(start, s, j);
        if Committed(s.calls[j].phase) {
          var k: nat :| CommitOf(s, j, k) &&
            (s.calls[j].phase.Saved? ==> s.calls[j].phase.value == Fold(start, s.commits[..k + 1]));
          assert CommitOf(s', j, k);
        }
      }
    }
  }

  /** A step appends commits at most, and changes no call's patch. */
  lemma NextExtends(s: State, s': State)
    requires Next(s, s')
    ensures s.commits <= s'.commits && |s.calls| == |s'.calls|
    ensures forall i :: 0 <= i < |s.calls| ==> s'.calls[i].patch == s.calls[i].patch
  {
  }

  lemma CommitsAreTyped(start: Preferences, s: State)
    requires Invariant(start, s)
    ensures forall l :: 0 <= l < |s.commits| ==> Typed(s.commits[l].patch)
  {
    forall l | 0 <= l < |s.commits|
      ensures Typed(s.commits[l].patch)
    {
      var i := s.commits[l].caller;
      assert CallInvariant(start, s, i);
      var k: nat :| CommitOf(s, i, k);
      assert l == k;
    }
  }

  lemma {:induction false} RunKeepsInvariant(run: seq<State>, k: nat)
    requires Run(run) && k < |run|
    ensures Invariant(Current(run[0].row), run[k])
    decreases k
  {
    if k == 0 {
      InitHolds(run[0]);
    } else {
      RunKeepsInvariant(run, k - 1);
      assert Next(run[k - 1], run[k]);
      NextKeepsInvariant(Current(run[0].row), run[k - 1], run[k]);
    }
  }

  // ---------------------------------------------------------------- consequences

  /** No update is lost: at every moment the row reads as all committed patches, applied in commit order. */
  lemma NoLostUpdate(run: seq<State>, k: nat)
    requires Run(run) && k < |run|
    ensures Current(run[k].row) == Fold(Current(run[0].row), run[k].commits)
  {
    RunKeepsInvariant(run, k);
  }

  /** A confirmed save committed exactly once and returned the row as it stood right after that commit. */
  lemma SavedOnce(run: seq<State>, k: nat, i: nat)
    requires Run(run) && k < |run| && i < |run[k].calls| && run[k].calls[i].phase.Saved?
    ensures exists c: nat :: CommitOf(run[k], i, c) &&
              run[k].calls[i].phase.value == Fold(Current(run[0].row), run[k].commits[..c + 1])
  {
    RunKeepsInvariant(run, k);
    assert CallInvariant(Current(run[0].row), run[k], i);
  }

  /**
   * A call ends in a conflict only after three saves of other calls got in its way, and it wrote nothing itself. So
   * some call always makes progress.
   */
  lemma ConflictWroteNothing(run: seq<State>, k: nat, i: nat)
    requires Run(run) && k < |run| && i < |run[k].calls| && run[k].calls[i].phase.Conflict?
    ensures |run[k].commits| >= MAX_ATTEMPTS
    ensures forall l :: 0 <= l < |run[k].commits| ==> run[k].commits[l].caller != i
  {
    RunKeepsInvariant(run, k);
    assert CallInvariant(Current(run[0].row), run[k], i);
  }

  ghost predicate LastSetter(commits: seq<Commit>, f: Field, l: int) {
    && 0 <= l < |commits| && Sets(commits[l].patch, f) != None
    && forall m :: l < m < |commits| ==> Sets(commits[m].patch, f) == None
  }

  lemma {:induction false} FoldComplete(p: Preferences, commits: seq<Commit>)
    requires Complete(p) && forall l :: 0 <= l < |commits| ==> Typed(commits[l].patch)
    ensures Complete(Fold(p, commits))
    decreases |commits|
  {
    if commits != [] {
      var init := commits[..|commits| - 1];
      FoldComplete(p, init);
      MergeComplete(Fold(p, init), commits[|commits| - 1].patch);
    }
  }

  lemma FoldReads(p: Preferences, commits: seq<Commit>, f: Field)
    requires Complete(p) && commits != [] && forall l :: 0 <= l < |commits| ==> Typed(commits[l].patch)
    ensures var init, last := commits[..|commits| - 1], commits[|commits| - 1].patch;
            && Complete(Fold(p, commits)) && Complete(Fold(p, init))
            && Read(Fold(p, commits), f) ==
               if Sets(last, f) != None then Sets(last, f).value else Read(Fold(p, init), f)
  {
    FoldComplete(p, commits);
    FoldComplete(p, commits[..|commits| - 1]);
    MergeReads(Fold(p, commits[..|commits| - 1]), commits[|commits| - 1].patch, f);
  }

  /** The last patch to set a field decides it; a field no patch sets keeps its first value. */
  lemma {:induction false} LastWriterDecides(p: Preferences, commits: seq<Commit>, f: Field)
    requires Complete(p) && forall l :: 0 <= l < |commits| ==> Typed(commits[l].patch)
    ensures Complete(Fold(p, commits))
    ensures (forall l :: 0 <= l < |commits| ==> Sets(commits[l].patch, f) == None) ==>
            Read(Fold(p, commits), f) == Read(p, f)
    ensures forall l :: LastSetter(commits, f, l) ==> Sets(commits[l].patch, f) == Some(Read(Fold(p, commits), f))
    decreases |commits|
  {
    FoldComplete(p, commits);
    if commits != [] {
      var init := commits[..|commits| - 1];
      LastWriterDecides(p, init, f);
      FoldReads(p, commits, f);
      forall l | LastSetter(commits, f, l)
        ensures Sets(commits[l].patch, f) == Some(Read(Fold(p, commits), f))
      {
        if l < |init| {
          assert Sets(commits[|commits| - 1].patch, f) == None;
          assert LastSetter(init, f, l);
        }
      }
    }
  }

  lemma MergeReads(p: Preferences, patch: Patch, f: Field)
    requires Complete(p) && Complete(Merge(p, patch))
    ensures Read(Merge(p, patch), f) == if Sets(patch, f) != None then Sets(patch, f).value else Read(p, f)
  {
  }
}
