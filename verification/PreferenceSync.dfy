/**
 * The whole preference protocol: any number of clients of one account, opened and closed at any time, whose saves are
 * calls to the server. Edits, timers, steps of the server and answers interleave freely; any answer may get lost.
 */
module PreferenceSync {
  import opened Options
  import opened Preferences
  import opened PreferenceClient
  import S = PreferenceServer

  /** A client, and the server call that its save under way is. */
  datatype Slot = Slot(client: Client, call: Option<nat>)

  datatype System = System(server: S.State, slots: seq<Slot>)

  // ---------------------------------------------------------------- steps

  /** Slot `i` moves on to `after`; a save that just started becomes a new call. */
  ghost function Launch(s: System, i: nat, after: Client, started: bool): System
    requires i < |s.slots|
  {
    if started && after.sent.Some? then
      System(s.server.(calls := s.server.calls + [S.Call(after.sent.value, S.Reading(0))]),
             s.slots[i := Slot(after, Some(|s.server.calls|))])
    else s.(slots := s.slots[i := Slot(after, if after.sent == None then None else s.slots[i].call)])
  }

  /** A page opens and reads the row as it stands. */
  ghost predicate OpenStep(s: System, s': System) {
    s' == s.(slots := s.slots + [Slot(Opened(S.Current(s.server.row)), None)])
  }

  ghost predicate EditStep(s: System, s': System, i: nat, patch: Patch)
    requires i < |s.slots|
  {
    Typed(patch) && s' == Launch(s, i, Edited(s.slots[i].client, patch), false)
  }

  ghost predicate TimerStep(s: System, s': System, i: nat)
    requires i < |s.slots|
  {
    var c := s.slots[i].client;
    c.timer && s' == Launch(s, i, TimerFired(c), c.sent == None)
  }

  /** What a client may hear of its call: the value a finished save returned, or a failure, whatever became of it. */
  ghost predicate MayHear(s: System, i: nat, reply: Reply)
    requires i < |s.slots|
  {
    match reply
    case Failed => true
    case Answered(None) => true
    case Answered(Some(saved)) =>
      s.slots[i].call.Some? && s.slots[i].call.value < |s.server.calls|
      && s.server.calls[s.slots[i].call.value].phase == S.Saved(saved)
  }

  ghost predicate EndStep(s: System, s': System, i: nat, reply: Reply)
    requires i < |s.slots|
  {
    var c := s.slots[i].client;
    c.sent.Some? && MayHear(s, i, reply) && s' == Launch(s, i, SaveEnded(c, reply), true)
  }

  ghost predicate DisposeStep(s: System, s': System, i: nat)
    requires i < |s.slots|
  {
    s' == Launch(s, i, Disposed(s.slots[i].client), false)
  }

  ghost predicate SlotStep(s: System, s': System, i: nat)
    requires i < |s.slots|
  {
    || (exists patch :: EditStep(s, s', i, patch))
    || TimerStep(s, s', i)
    || (exists reply :: EndStep(s, s', i, reply))
    || DisposeStep(s, s', i)
  }

  ghost predicate Next(s: System, s': System) {
    || OpenStep(s, s')
    || (S.Next(s.server, s'.server) && s'.slots == s.slots)
    || exists i: nat :: i < |s.slots| && SlotStep(s, s', i)
  }

  ghost predicate Init(s: System) {
    s.server.commits == [] && s.server.calls == [] && s.slots == []
  }

  ghost predicate Run(run: seq<System>) {
    && run != [] && Init(run[0])
    && forall k, l :: 0 <= k < l < |run| && l == k + 1 ==> Next(run[k], run[l])
  }

  // ---------------------------------------------------------------- what every run keeps

  /** What the client has acknowledged is the row as it stood after some commit, or before the first. */
  ghost predicate BaseWasRow(start: Preferences, commits: seq<S.Commit>, c: Client) {
    exists k: nat :: k <= |commits| && c.base == S.Fold(start, commits[..k])
  }

  ghost predicate SlotInvariant(start: Preferences, server: S.State, slot: Slot) {
    && Sound(slot.client) && BaseWasRow(start, server.commits, slot.client)
    && (slot.client.sent.Some? <==> slot.call.Some?)
    && (slot.call.Some? ==>
          slot.call.value < |server.calls| && server.calls[slot.call.value].patch == slot.client.sent.value)
  }

  ghost predicate Invariant(start: Preferences, s: System) {
    S.Invariant(start, s.server) && forall i :: 0 <= i < |s.slots| ==> SlotInvariant(start, s.server, s.slots[i])
  }

  /** The server only appends commits and calls, and never changes a call's patch. */
  ghost predicate Extends(a: S.State, b: S.State) {
    && a.commits <= b.commits && |a.calls| <= |b.calls|
    && forall i :: 0 <= i < |a.calls| ==> b.calls[i].patch == a.calls[i].patch
  }

  lemma SlotStays(start: Preferences, a: S.State, b: S.State, slot: Slot)
    requires SlotInvariant(start, a, slot) && Extends(a, b)
    ensures SlotInvariant(start, b, slot)
  {
    var k: nat :| k <= |a.commits| && slot.client.base == S.Fold(start, a.commits[..k]);
    assert b.commits[..k] == a.commits[..k];
  }

  lemma OthersStay(start: Preferences, s: System, server: S.State)
    requires Invariant(start, s) && Extends(s.server, server)
    ensures forall i :: 0 <= i < |s.slots| ==> SlotInvariant(start, server, s.slots[i])
  {
    forall i | 0 <= i < |s.slots|
      ensures SlotInvariant(start, server, s.slots[i])
    {
      SlotStays(start, s.server, server, s.slots[i]);
    }
  }

  lemma LaunchKeeps(start: Preferences, s: System, i: nat, after: Client, started: bool)
    requires Invariant(start, s) && i < |s.slots|
    requires Sound(after) && BaseWasRow(start, s.server.commits, after)
    requires !started ==> after.sent == s.slots[i].client.sent
    ensures Invariant(start, Launch(s, i, after, started))
  {
    var next := Launch(s, i, after, started);
    if started && after.sent.Some? {
      S.CallAdded(start, s.server, after.sent.value);
    }
    OthersStay(start, s, next.server);
    forall j | 0 <= j < |next.slots|
      ensures SlotInvariant(start, next.server, next.slots[j])
    {
      if j != i {
        assert next.slots[j] == s.slots[j];
      } else {
        assert SlotInvariant(start, s.server, s.slots[i]);
      }
    }
  }

  /** An answer heard is the row right after the call's commit, and confirms everything the call sent. */
  lemma HeardIsCommitted(start: Preferences, s: System, i: nat, saved: Preferences) returns (k: nat)
    requires Invariant(start, s) && i < |s.slots| && s.slots[i].client.sent.Some?
    requires MayHear(s, i, Answered(Some(saved)))
    ensures k < |s.server.commits| &&
            s.server.commits[k] == S.Commit(s.slots[i].call.value, s.slots[i].client.sent.value)
    ensures saved == S.Fold(start, s.server.commits[..k + 1])
    ensures Complete(start) ==> Complete(saved)
    ensures Confirms(saved, s.slots[i].client.sent.value)
  {
    var call := s.slots[i].call.value;
    assert SlotInvariant(start, s.server, s.slots[i]);
    assert S.CallInvariant(start, s.server, call);
    k :| 0 <= k < |s.server.commits| && S.CommitOf(s.server, call, k) &&
      saved == S.Fold(start, s.server.commits[..k + 1]);
    FoldConfirms(start, s.server.commits[..k + 1]);
    if Complete(start) {
      S.CommitsAreTyped(start, s.server);
      S.FoldComplete(start, s.server.commits[..k + 1]);
    }
  }

  /** Right after a commit the row has everything the commit set. */
  lemma FoldConfirms(start: Preferences, commits: seq<S.Commit>)
    requires commits != []
    ensures Confirms(S.Fold(start, commits), commits[|commits| - 1].patch)
  {
  }

  lemma EndKeeps(start: Preferences, s: System, s': System, i: nat, reply: Reply)
    requires Complete(start) && Invariant(start, s) && i < |s.slots| && EndStep(s, s', i, reply)
    ensures Invariant(start, s')
  {
    var c := s.slots[i].client;
    assert SlotInvariant(start, s.server, s.slots[i]);
    if Accepted(c, reply) {
      var k := HeardIsCommitted(start, s, i, reply.saved.value);
      assert BaseWasRow(start, s.server.commits, SaveEnded(c, reply));
    }
    SaveEndedKeeps(c, reply);
    LaunchKeeps(start, s, i, SaveEnded(c, reply), true);
  }

  lemma SlotStepKeeps(start: Preferences, s: System, s': System, i: nat)
    requires Complete(start) && Invariant(start, s) && i < |s.slots| && SlotStep(s, s', i)
    ensures Invariant(start, s')
  {
    var c := s.slots[i].client;
    assert SlotInvariant(start, s.server, s.slots[i]);
    if patch :| EditStep(s, s', i, patch) {
      EditedKeeps(c, patch);
      LaunchKeeps(start, s, i, Edited(c, patch), false);
    } else if TimerStep(s, s', i) {
      TimerFiredKeeps(c);
      LaunchKeeps(start, s, i, TimerFired(c), c.sent == None);
    } else if reply :| EndStep(s, s', i, reply) {
      EndKeeps(start, s, s', i, reply);
    } else {
      DisposedKeeps(c);
      LaunchKeeps(start, s, i, Disposed(c), false);
    }
  }

  lemma NextKeeps(start: Preferences, s: System, s': System)
    requires Complete(start) && Invariant(start, s) && Next(s, s')
    ensures Invariant(start, s')
  {
    if OpenStep(s, s') {
      OpenedKeeps(S.Current(s.server.row));
      assert s.server.commits[..|s.server.commits|] == s.server.commits;
    } else if S.Next(s.server, s'.server) && s'.slots == s.slots {
      S.NextKeepsInvariant(start, s.server, s'.server);
      S.NextExtends(s.server, s'.server);
      OthersStay(start, s, s'.server);
    } else {
      var i: nat :| i < |s.slots| && SlotStep(s, s', i);
      SlotStepKeeps(start, s, s', i);
    }
  }

  lemma {:induction false} RunKeeps(run: seq<System>, k: nat)
    requires Run(run) && k < |run|
    ensures Invariant(S.Current(run[0].server.row), run[k])
    decreases k
  {
    if k == 0 {
      S.InitHolds(run[0].server);
    } else {
      RunKeeps(run, k - 1);
      assert Next(run[k - 1], run[k]);
      NextKeeps(S.Current(run[0].server.row), run[k - 1], run[k]);
    }
  }

  // ---------------------------------------------------------------- what the clients can rely on

  /** At every moment the row reads as all committed saves of all clients, in commit order. */
  lemma RowIsFold(run: seq<System>, k: nat)
    requires Run(run) && k < |run|
    ensures S.Current(run[k].server.row) == S.Fold(S.Current(run[0].server.row), run[k].server.commits)
  {
    RunKeeps(run, k);
  }

  /**
   * An active client gives up a dirty field only when it hears that its call committed a patch with that same value:
   * the edit is in the fold, for good.
   */
  lemma ClearedIsCommitted(run: seq<System>, k: nat, s': System, i: nat, reply: Reply, f: Field) returns (l: nat)
    requires Run(run) && k < |run| && i < |run[k].slots| && EndStep(run[k], s', i, reply)
    requires var c := run[k].slots[i].client;
             c.active && Sets(c.dirty, f) != None && Sets(SaveEnded(c, reply).dirty, f) == None
    ensures l < |run[k].server.commits| && run[k].server.commits[l].caller == run[k].slots[i].call.value
    ensures Sets(run[k].server.commits[l].patch, f) == Sets(run[k].slots[i].client.dirty, f)
  {
    RunKeeps(run, k);
    var c := run[k].slots[i].client;
    assert SlotInvariant(S.Current(run[0].server.row), run[k].server, run[k].slots[i]);
    if reply.Answered? && reply.saved.Some? {
      l := HeardIsCommitted(S.Current(run[0].server.row), run[k], i, reply.saved.value);
    }
    ClearedWasSaved(c, reply, f);
  }

  /** The answer of a call that saved is never refused: a client reports a failure only when the call did not answer. */
  lemma SavedIsAccepted(run: seq<System>, k: nat, i: nat, saved: Preferences)
    requires Run(run) && k < |run| && i < |run[k].slots| && run[k].slots[i].client.sent.Some?
    requires MayHear(run[k], i, Answered(Some(saved)))
    ensures Accepted(run[k].slots[i].client, Answered(Some(saved)))
  {
    RunKeeps(run, k);
    var _ := HeardIsCommitted(S.Current(run[0].server.row), run[k], i, saved);
  }

  /** Every idle client without a failure is clean, and shows the row as it stood at some moment. */
  lemma IdleShowsRow(run: seq<System>, k: nat, i: nat)
    requires Run(run) && k < |run| && i < |run[k].slots|
    requires var c := run[k].slots[i].client; c.active && !c.timer && c.sent == None && !c.failed
    ensures Empty(run[k].slots[i].client.dirty)
    ensures BaseWasRow(S.Current(run[0].server.row), run[k].server.commits, run[k].slots[i].client)
    ensures run[k].slots[i].client.value == run[k].slots[i].client.base
  {
    RunKeeps(run, k);
    assert SlotInvariant(S.Current(run[0].server.row), run[k].server, run[k].slots[i]);
    IdleIsClean(run[k].slots[i].client);
  }
}
