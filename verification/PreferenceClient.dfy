/** One client's preference state: edits are debounced and at most one save is in flight. */
module PreferenceClient {
  import opened Options
  import opened Preferences

  /** Fields whose dirty value is the one just sent are no longer dirty; a section left empty goes away. */
  function RemainingSection<K>(dirty: Option<map<K, Value>>, sent: Option<map<K, Value>>): Option<map<K, Value>> {
    var acknowledged := Fields(sent);
    var left := map k | k in Fields(dirty) && !(k in acknowledged && acknowledged[k] == Fields(dirty)[k])
                  :: Fields(dirty)[k];
    if left == map[] then None else Some(left)
  }

  function Remaining(dirty: Patch, sent: Patch): Patch {
    Patch(RemainingSection(dirty.calendar, sent.calendar), RemainingSection(dirty.training, sent.training))
  }

  predicate Empty(patch: Patch) {
    Fields(patch.calendar) == map[] && Fields(patch.training) == map[]
  }

  /** Every field of the patch has the saved value. */
  predicate Confirms(saved: Preferences, patch: Patch) {
    && (forall f :: f in Fields(patch.calendar) ==> f in saved.calendar && saved.calendar[f] == patch.calendar.value[f])
    && (forall f :: f in Fields(patch.training) ==> f in saved.training && saved.training[f] == patch.training.value[f])
  }

  /** How a save ends: the request failed, or it was answered, with a full set of preferences or without. */
  datatype Reply = Failed | Answered(saved: Option<Preferences>)

  /** Why the field `f` need not be sent by hand: a send is due or under way, or its failure was reported. */
  ghost predicate Covered(f: Field, dirty: Patch, pending: bool, flight: Option<Patch>, failed: bool) {
    pending || failed || (flight.Some? && Sets(flight.value, f) == Sets(dirty, f))
  }

  /** `wider` sets every field that `patch` sets. */
  ghost predicate Within(patch: Patch, wider: Patch) {
    && Fields(patch.calendar).Keys <= Fields(wider.calendar).Keys
    && Fields(patch.training).Keys <= Fields(wider.training).Keys
  }

  lemma RemainingIsUnsent(dirty: Patch, sent: Patch, f: Field)
    ensures Sets(Remaining(dirty, sent), f) == if Sets(dirty, f) == Sets(sent, f) then None else Sets(dirty, f)
  {
  }

  lemma EmptySetsNothing(patch: Patch)
    ensures Empty(patch) <==> forall f :: Sets(patch, f) == None
  {
    if !Empty(patch) {
      if c :| c in Fields(patch.calendar) {
        assert Sets(patch, InCalendar(c)) != None;
      } else {
        var t :| t in Fields(patch.training);
        assert Sets(patch, InTraining(t)) != None;
      }
    }
  }

  // ---------------------------------------------------------------- what one event does

  /**
   * A client's state. `sent` is the body of the request that is under way, `base` what the server last acknowledged,
   * and `failed` whether a save failed since the last edit.
   */
  datatype Client = Client(value: Preferences, dirty: Patch, timer: bool, ready: bool, active: bool,
                           sent: Option<Patch>, base: Preferences, failed: bool)

  ghost predicate Sound(c: Client) {
    && Complete(c.base) && Typed(c.dirty) && (c.sent.Some? ==> Typed(c.sent.value))
    && (c.active ==> c.value == Merge(c.base, c.dirty))
    && (c.active ==> forall f :: Sets(c.dirty, f) != None ==> Covered(f, c.dirty, c.timer || c.ready, c.sent, c.failed))
    && (c.active && c.sent.Some? ==> Within(c.sent.value, c.dirty))
    && (c.ready ==> c.sent.Some?)
    && (!c.active ==> !c.timer && !c.ready && Empty(c.dirty))
  }

  function Opened(preferences: Preferences): Client {
    Client(Merge(preferences, NO_PATCH), NO_PATCH, false, false, true, None, preferences, false)
  }

  function Edited(c: Client, patch: Patch): Client {
    if !c.active then c
    else
      c.(dirty := MergePatch(c.dirty, patch), value := Merge(c.value, patch), ready := false, timer := true,
         failed := false)
  }

  /** A due save starts with everything dirty, unless one is under way or nothing is dirty. */
  function Flushed(c: Client): Client {
    if !c.active || c.sent.Some? || !c.ready then c
    else if Empty(c.dirty) then c.(ready := false)
    else c.(ready := false, sent := Some(c.dirty))
  }

  function TimerFired(c: Client): Client {
    Flushed(c.(timer := false, ready := true))
  }

  predicate Accepted(c: Client, reply: Reply) {
    c.sent.Some? && reply.Answered? && reply.saved.Some? && Confirms(reply.saved.value, c.sent.value)
  }

  /** Acknowledgments sit underneath all newer or previously failed edits. */
  function Acknowledged(c: Client, saved: Preferences, sent: Patch): Client {
    var dirty := Remaining(c.dirty, sent);
    c.(dirty := dirty, value := Merge(saved, dirty), base := saved)
  }

  function SaveEnded(c: Client, reply: Reply): Client {
    var after :=
      if !c.active then c
      else if Accepted(c, reply) then Acknowledged(c, reply.saved.value, c.sent.value)
      else c.(failed := true);
    Flushed(after.(sent := None))
  }

  function Disposed(c: Client): Client {
    c.(active := false, timer := false, ready := false, dirty := NO_PATCH)
  }

  // ---------------------------------------------------------------- what every event keeps

  lemma OpenedKeeps(preferences: Preferences)
    requires Complete(preferences)
    ensures Sound(Opened(preferences)) && Opened(preferences).value == preferences
  {
  }

  lemma EditedKeeps(c: Client, patch: Patch)
    requires Sound(c) && Typed(patch)
    ensures Sound(Edited(c, patch))
  {
    MergePatchComposes(c.base, c.dirty, patch);
  }

  /** Starting a due save restores what is due without one: a reason for every dirty field. */
  lemma FlushedKeeps(c: Client)
    requires c.ready && c.active && Sound(c.(ready := false, failed := true))
    ensures Sound(Flushed(c))
    ensures Flushed(c).sent == if c.sent.Some? then c.sent else if Empty(c.dirty) then None else Some(c.dirty)
  {
    EmptySetsNothing(c.dirty);
  }

  lemma TimerFiredKeeps(c: Client)
    requires Sound(c) && c.timer
    ensures Sound(TimerFired(c))
  {
    FlushedKeeps(c.(timer := false, ready := true));
  }

  lemma AcknowledgedKeeps(c: Client, saved: Preferences)
    requires Sound(c) && c.active && c.sent.Some? && Complete(saved)
    ensures Sound(Acknowledged(c, saved, c.sent.value).(sent := None, ready := false, failed := c.failed || c.ready))
  {
    forall f
      ensures Sets(Remaining(c.dirty, c.sent.value), f) ==
              if Sets(c.dirty, f) == Sets(c.sent.value, f) then None else Sets(c.dirty, f)
    {
      RemainingIsUnsent(c.dirty, c.sent.value, f);
    }
  }

  lemma SaveEndedKeeps(c: Client, reply: Reply)
    requires Sound(c) && c.sent.Some? && (Accepted(c, reply) ==> Complete(reply.saved.value))
    ensures Sound(SaveEnded(c, reply))
  {
    if c.active {
      if Accepted(c, reply) {
        AcknowledgedKeeps(c, reply.saved.value);
      }
      if c.ready {
        var after :=
          if Accepted(c, reply) then Acknowledged(c, reply.saved.value, c.sent.value) else c.(failed := true);
        FlushedKeeps(after.(sent := None));
      }
    }
  }

  /**
   * What the end of a save does to an active client: a failure changes no field and is remembered; either way the next
   * save starts only if one was due and something is still dirty.
   */
  lemma SaveEndedIs(c: Client, reply: Reply)
    requires Sound(c) && c.active && c.sent.Some? && (Accepted(c, reply) ==> Complete(reply.saved.value))
    ensures var after := SaveEnded(c, reply);
            && after.active && after.timer == c.timer && !after.ready
            && (!Accepted(c, reply) ==>
                after.dirty == c.dirty && after.value == c.value && after.base == c.base && after.failed)
            && (Accepted(c, reply) ==> after.base == reply.saved.value && after.failed == c.failed)
            && after.sent == if c.ready && !Empty(after.dirty) then Some(after.dirty) else None
  {
  }

  /** A field stops being dirty only when the server answered with that same value. */
  lemma ClearedWasSaved(c: Client, reply: Reply, f: Field)
    requires Sound(c) && c.active && c.sent.Some? && (Accepted(c, reply) ==> Complete(reply.saved.value))
    requires Sets(c.dirty, f) != None && Sets(SaveEnded(c, reply).dirty, f) == None
    ensures Accepted(c, reply) && Sets(c.sent.value, f) == Sets(c.dirty, f) == Some(Read(reply.saved.value, f))
  {
    RemainingIsUnsent(c.dirty, c.sent.value, f);
  }

  lemma DisposedKeeps(c: Client)
    requires Sound(c)
    ensures Sound(Disposed(c))
  {
  }

  // ---------------------------------------------------------------- the client

  class AccountPreferencesState {
    var value: Preferences
    var dirty: Patch
    var timer: bool
    var ready: bool
    var saving: bool
    var active: bool
    /** The body of the request that is under way. */
    var sent: Option<Patch>
    /** What the server last acknowledged, and whether a save failed since the last edit. */
    ghost var base: Preferences
    ghost var failed: bool

    ghost function Now(): Client
      reads this
    {
      Client(value, dirty, timer, ready, active, sent, base, failed)
    }

    ghost predicate Valid()
      reads this
    {
      saving == sent.Some? && Sound(Now())
    }

    constructor (preferences: Preferences)
      requires Complete(preferences)
      ensures Valid() && Now() == Opened(preferences) && value == preferences
      ensures active && Empty(dirty) && !timer && !ready && !saving && sent == None && !failed && base == preferences
    {
      value := Merge(preferences, NO_PATCH);
      dirty, timer, ready, saving, active, sent := NO_PATCH, false, false, false, true, None;
      base, failed := preferences, false;
    }

    method Edit(patch: Patch)
      requires Valid() && Typed(patch)
      modifies this
      ensures Valid() && Now() == Edited(old(Now()), patch)
      ensures !old(active) ==> Now() == old(Now())
      ensures old(active) ==>
              value == Merge(old(value), patch) && dirty == MergePatch(old(dirty), patch) && timer && !ready
      ensures saving == old(saving) && sent == old(sent) && base == old(base) && (active ==> !failed)
    {
      EditedKeeps(Now(), patch);
      if !active {
        return;
      }
      dirty := MergePatch(dirty, patch);
      value := Merge(value, patch);
      ready := false;
      timer := true;
      failed := false;
    }

    method TimerFires() returns (request: Option<Patch>)
      requires Valid() && timer
      modifies this
      ensures Valid() && !timer && active && Now() == TimerFired(old(Now()))
      ensures value == old(value) && dirty == old(dirty) && base == old(base) && failed == old(failed)
      ensures request.Some? ==> !old(saving) && request == Some(dirty) && sent == request && !ready
      ensures request == None ==> if old(saving) then ready && sent == old(sent) else Empty(dirty) && !ready && !saving
    {
      TimerFiredKeeps(Now());
      timer := false;
      ready := true;
      request := Flush();
    }

    /** Starts a save of everything dirty, unless one is under way or none is due. */
    method Flush() returns (request: Option<Patch>)
      requires saving == sent.Some?
      modifies this`ready, this`saving, this`sent
      ensures Now() == Flushed(old(Now())) && saving == sent.Some?
      ensures request == if old(active && !saving && ready) && !Empty(dirty) then Some(dirty) else None
    {
      if !active || saving || !ready {
        return None;
      }
      ready := false;
      if Empty(dirty) {
        return None;
      }
      saving := true;
      sent := Some(dirty);
      return sent;
    }

    /**
     * The save under way ends. Only a full answer that confirms every sent field takes effect; whatever was edited
     * since stays dirty and visible.
     */
    method SaveEnds(reply: Reply) returns (request: Option<Patch>, reported: bool)
      requires Valid() && saving
      requires reply.Answered? && reply.saved.Some? ==> Complete(reply.saved.value)
      modifies this
      ensures Valid() && Now() == SaveEnded(old(Now()), reply)
      ensures reported == (old(active) && !Accepted(old(Now()), reply))
      ensures request == sent && (request.Some? ==> old(ready) && request == Some(dirty))
    {
      SaveEndedKeeps(Now(), reply);
      reported, request := false, None;
      if active {
        if reply.Answered? && reply.saved.Some? && Confirms(reply.saved.value, sent.value) {
          Acknowledge(reply.saved.value);
        } else {
          reported, failed := true, true;
        }
      }
      saving, sent := false, None;
      if active && ready {
        request := Flush();
      }
      assert Now() == SaveEnded(old(Now()), reply);
    }

    method Acknowledge(saved: Preferences)
      requires sent.Some?
      modifies this`dirty, this`value, this`base
      ensures Now() == Acknowledged(old(Now()), saved, sent.value)
    {
      dirty := Remaining(dirty, sent.value);
      value := Merge(saved, dirty);
      base := saved;
    }

    method Dispose()
      requires Valid()
      modifies this
      ensures Valid() && Now() == Disposed(old(Now()))
      ensures !active && !timer && !ready && Empty(dirty)
      ensures value == old(value) && saving == old(saving) && sent == old(sent)
    {
      active := false;
      timer := false;
      ready := false;
      dirty := NO_PATCH;
    }

    /** The timer and the saves run their course against a server that holds what it last acknowledged. */
    method Quiesce(server: Preferences)
      requires Valid() && active && server == base
      modifies this
      ensures Valid() && active && !timer && !ready && !saving && value == old(value)
      ensures !old(failed) ==> Empty(dirty) && value == base
    {
      var held := server;
      while timer || saving
        invariant held == base
        invariant Valid() && active && value == old(value) && failed == old(failed)
        decreases timer, ready, saving
      {
        if timer {
          var _ := TimerFires();
        } else {
          held := Merge(held, sent.value);
          EchoIsAccepted(Now(), held);
          var _, _ := SaveEnds(Answered(Some(held)));
        }
      }
      IdleIsClean(Now());
    }
  }

  /** The answer a server with no other edits gives confirms the save and leaves the visible value alone. */
  lemma EchoConfirms(base: Preferences, dirty: Patch, sent: Patch)
    requires Complete(base) && Typed(dirty) && Typed(sent)
    ensures Complete(Merge(base, sent))
    ensures Confirms(Merge(base, sent), sent)
    ensures Within(sent, dirty) ==> Merge(Merge(base, sent), Remaining(dirty, sent)) == Merge(base, dirty)
  {
    MergeComplete(base, sent);
    if Within(sent, dirty) {
      RestoresSection(base.calendar, dirty.calendar, sent.calendar);
      RestoresSection(base.training, dirty.training, sent.training);
    }
  }

  lemma EchoIsAccepted(c: Client, saved: Preferences)
    requires Sound(c) && c.active && c.sent.Some? && saved == Merge(c.base, c.sent.value)
    ensures Complete(saved) && Accepted(c, Answered(Some(saved)))
    ensures var after := SaveEnded(c, Answered(Some(saved)));
            after.value == c.value && after.base == saved && after.failed == c.failed && after.timer == c.timer &&
              !after.ready
    ensures SaveEnded(c, Answered(Some(saved))).sent.Some? ==> c.ready
  {
    EchoConfirms(c.base, c.dirty, c.sent.value);
  }

  lemma RestoresSection<K>(base: map<K, Value>, dirty: Option<map<K, Value>>, sent: Option<map<K, Value>>)
    requires Fields(sent).Keys <= Fields(dirty).Keys
    ensures base + Fields(sent) + Fields(RemainingSection(dirty, sent)) == base + Fields(dirty)
  {
    var left, right := base + Fields(sent) + Fields(RemainingSection(dirty, sent)), base + Fields(dirty);
    assert left.Keys == right.Keys;
  }

  /** Idle with no failure since the last edit: nothing is dirty and the visible value is the acknowledged one. */
  lemma IdleIsClean(c: Client)
    requires Sound(c) && c.active && !c.timer && c.sent == None
    ensures !c.failed ==> Empty(c.dirty) && c.value == c.base
  {
    EmptySetsNothing(c.dirty);
  }

  /** A dirty field is what the client shows. */
  lemma DirtyIsVisible(c: Client, f: Field)
    requires Sound(c) && c.active && Sets(c.dirty, f) != None
    ensures Complete(c.value) && Sets(c.dirty, f) == Some(Read(c.value, f))
  {
    MergeComplete(c.base, c.dirty);
  }
}
