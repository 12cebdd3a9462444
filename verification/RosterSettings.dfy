/** Saving one roster's settings: excusals first, then the rules, each step safe to repeat. */
module RosterSettings {
  import opened Options
  import opened RosterForms
  import E = RosterExcusals
  import Sorting
  import Text

  // ---------------------------------------------------------------- comparing rules

  /** The values without repeats, each where it first occurs. */
  function Dedup(xs: seq<string>): seq<string> {
    if xs == [] then []
    else
      var before := Dedup(xs[..|xs| - 1]);
      if xs[|xs| - 1] in before then before else before + [xs[|xs| - 1]]
  }

  function Trimmed(xs: seq<string>): seq<string> {
    seq(|xs|, i requires 0 <= i < |xs| => Text.Trim(xs[i]))
  }

  function DistinctSorted(xs: seq<string>): seq<string> {
    Sorting.Sort(Sorting.StringLe, Dedup(Trimmed(xs)))
  }

  function TrimmedRank(rank: Option<(string, string)>): Option<(string, string)> {
    if rank.Some? then Some((Text.Trim(rank.value.0), Text.Trim(rank.value.1))) else None
  }

  /** One spelling per rule set; a rule set with nothing in it is no rule set. */
  function NormalizePoolRules(rules: PoolRules): Option<PoolRules> {
    var n := PoolRules(TrimmedRank(rules.rank), DistinctSorted(rules.mos), DistinctSorted(rules.role),
                       DistinctSorted(rules.groupIds));
    if n == PoolRules(None, [], [], []) then None else Some(n)
  }

  function NormalizePool(pool: Option<PoolRules>): Option<PoolRules> {
    if pool.Some? then NormalizePoolRules(pool.value) else None
  }

  predicate SameRules(a: Rules, b: Rules) {
    a.weekendMode == b.weekendMode && NormalizePool(a.pool) == NormalizePool(b.pool)
  }

  lemma {:induction false} DedupIs(xs: seq<string>)
    ensures Sorting.Distinct(Dedup(xs)) && forall x :: x in Dedup(xs) <==> x in xs
    decreases |xs|
  {
    if xs != [] {
      var init := xs[..|xs| - 1];
      DedupIs(init);
      assert xs == init + [xs[|xs| - 1]];
    }
  }

  function Values(xs: seq<string>): set<string> {
    set x | x in Trimmed(xs)
  }

  /** The sorted list of distinct values says exactly which values there are. */
  lemma DistinctSortedIsCanonical(a: seq<string>, b: seq<string>)
    ensures DistinctSorted(a) == DistinctSorted(b) <==> Values(a) == Values(b)
  {
    var da, db := Dedup(Trimmed(a)), Dedup(Trimmed(b));
    DedupIs(Trimmed(a));
    DedupIs(Trimmed(b));
    Sorting.SameMembers(DistinctSorted(a), da);
    Sorting.SameMembers(DistinctSorted(b), db);
    if Values(a) == Values(b) {
      forall x
        ensures x in da <==> x in db
      {
        assert x in Trimmed(a) <==> x in Values(a);
        assert x in Trimmed(b) <==> x in Values(b);
      }
      Sorting.DistinctSameMembers(da, db);
      Sorting.StringLeIsTotalOrder();
      Sorting.SortSorts(Sorting.StringLe, da);
      Sorting.SortSorts(Sorting.StringLe, db);
      Sorting.SortedIsUnique(Sorting.StringLe, DistinctSorted(a), DistinctSorted(b));
    }
    if DistinctSorted(a) == DistinctSorted(b) {
      forall x
        ensures x in Values(a) <==> x in Values(b)
      {
        assert x in da <==> x in DistinctSorted(a);
        assert x in db <==> x in DistinctSorted(b);
      }
    }
  }

  /** What a rule set says, whatever its spelling. */
  ghost predicate SameMeaning(a: PoolRules, b: PoolRules) {
    && (a.rank.Some? <==> b.rank.Some?)
    && (a.rank.Some? ==>
          Text.Trim(a.rank.value.0) == Text.Trim(b.rank.value.0) &&
          Text.Trim(a.rank.value.1) == Text.Trim(b.rank.value.1))
    && Values(a.mos) == Values(b.mos) && Values(a.role) == Values(b.role) && Values(a.groupIds) == Values(b.groupIds)
  }

  /** Rule sets normalise alike exactly when they say the same. */
  lemma NormalizeIsCanonical(a: PoolRules, b: PoolRules)
    ensures NormalizePoolRules(a) == NormalizePoolRules(b) <==> SameMeaning(a, b)
  {
    DistinctSortedIsCanonical(a.mos, b.mos);
    DistinctSortedIsCanonical(a.role, b.role);
    DistinctSortedIsCanonical(a.groupIds, b.groupIds);
  }

  /** Each value of the one is, trimmed, a value of the other, which lists every value once and in order. */
  ghost predicate ListsValues(list: seq<string>, given: seq<string>) {
    && (forall x :: x in list <==> exists y :: y in given && Text.Trim(y) == x)
    && Sorting.Distinct(list) && Sorting.Sorted(Sorting.StringLe, list)
  }

  lemma DistinctSortedLists(given: seq<string>)
    ensures ListsValues(DistinctSorted(given), given)
  {
    var kept := Dedup(Trimmed(given));
    DedupIs(Trimmed(given));
    Sorting.StringLeIsTotalOrder();
    Sorting.SortSorts(Sorting.StringLe, kept);
    Sorting.SortKeepsDistinct(Sorting.StringLe, kept);
    Sorting.SameMembers(DistinctSorted(given), kept);
    forall x
      ensures x in Trimmed(given) <==> exists y :: y in given && Text.Trim(y) == x
    {
      if x in Trimmed(given) {
        var i :| 0 <= i < |given| && Trimmed(given)[i] == x;
        assert given[i] in given;
      }
      if y :| y in given && Text.Trim(y) == x {
        var i :| 0 <= i < |given| && given[i] == y;
        assert Trimmed(given)[i] == x;
      }
    }
  }

  /** Normalising keeps what a rule set says, in each of its parts. */
  lemma NormalizeMeans(a: PoolRules)
    ensures NormalizePoolRules(a).Some? ==>
              var n := NormalizePoolRules(a).value;
              && (n.rank.Some? <==> a.rank.Some?)
              && (a.rank.Some? ==>
                    n.rank.value.0 == Text.Trim(a.rank.value.0) && n.rank.value.1 == Text.Trim(a.rank.value.1))
              && ListsValues(n.mos, a.mos) && ListsValues(n.role, a.role) && ListsValues(n.groupIds, a.groupIds)
  {
    DistinctSortedLists(a.mos);
    DistinctSortedLists(a.role);
    DistinctSortedLists(a.groupIds);
  }

  /** No rule set and a rule set without constraints are the same. */
  lemma NoRulesMeansEveryone(a: PoolRules)
    ensures NormalizePoolRules(a) == None <==> a.rank == None && a.mos == [] && a.role == [] && a.groupIds == []
  {
    EmptyOnlyFromEmpty(a.mos);
    EmptyOnlyFromEmpty(a.role);
    EmptyOnlyFromEmpty(a.groupIds);
  }

  lemma EmptyOnlyFromEmpty(xs: seq<string>)
    ensures DistinctSorted(xs) == [] <==> xs == []
  {
    DedupIs(Trimmed(xs));
    Sorting.SameMembers(DistinctSorted(xs), Dedup(Trimmed(xs)));
    if xs != [] {
      assert Trimmed(xs)[0] in Dedup(Trimmed(xs));
    }
  }

  // ---------------------------------------------------------------- the save

  /** A roster with its excusals. */
  datatype Db = Db(roster: Roster, excusals: seq<E.Excusal>)

  /** A checked request: reasons are trimmed and each person is named once. */
  datatype Settings = Settings(rules: Rules, excusals: seq<(string, string)>, today: int)

  ghost predicate Checked(s: Settings) {
    && (forall i :: 0 <= i < |s.excusals| ==> Text.Trim(s.excusals[i].1) == s.excusals[i].1)
    && (forall i, j :: 0 <= i < j < |s.excusals| ==> s.excusals[i].0 != s.excusals[j].0)
  }

  /** The roster engine: the record and the counts that closing a form on a day gives, and counts under a new mode. */
  datatype Engine = Engine(close: (Db, Form, int) -> (Record, seq<Number>),
                           carryOver: (seq<Number>, WeekendMode, WeekendMode) -> seq<Number>)

  function OpenPairs(rows: seq<E.Excusal>): seq<(string, string)> {
    if rows == [] then []
    else (if rows[0].endsOn == None then [(rows[0].personId, rows[0].reason)] else []) + OpenPairs(rows[1..])
  }

  predicate ExcusalsChanged(rows: seq<E.Excusal>, s: Settings) {
    multiset(OpenPairs(rows)) != multiset(s.excusals)
  }

  function ExcusalStep(db: Db, s: Settings): Db {
    if !ExcusalsChanged(db.excusals, s) then db
    else db.(excusals := E.Final(db.excusals, E.WantedOf(s.excusals), s.today))
  }

  function ClosingOf(db: Db, form: Form, s: Settings, engine: Engine): (Closing, seq<Number>) {
    var mode := form.rules.weekendMode;
    if EffectiveStart(db.roster, form) > s.today then
      (Closing(form.id, s.today, None), engine.carryOver(NumbersOf(db.roster, form.id), mode, s.rules.weekendMode))
    else
      var (record, carry) := engine.close(db, form, s.today);
      (Closing(form.id, s.today, Some(record)), engine.carryOver(carry, mode, s.rules.weekendMode))
  }

  /** Closes or rewrites the open form when the rules differ; `status` is the refusal, if any. */
  function RulesStep(db: Db, s: Settings, engine: Engine, utcDay: int): (Db, Outcome<()>) {
    if SameRules(db.roster.rules, s.rules) then (db, Ok(()))
    else
      match OpenForm(db.roster.forms)
      case None => (db, Fail(409))
      case Some(form) =>
        var (closing, carry) := ClosingOf(db, form, s, engine);
        match Close(db.roster, closing, s.rules, carry, utcDay)
        case Fail(status) => (db, Fail(status))
        case Ok(roster) => (db.(roster := roster), Ok(()))
  }

  function Save(db: Db, s: Settings, engine: Engine, utcDay: int): (Db, Outcome<()>) {
    if !DeviceDate(s.today, utcDay) then (db, Fail(400))
    else if db.roster.assignTo != Personnel then (db, Fail(404))
    else RulesStep(ExcusalStep(db, s), s, engine, utcDay)
  }

  // ---------------------------------------------------------------- retrying a save

  lemma {:induction false} WantedPair(excusals: seq<(string, string)>, p: string, r: string)
    requires forall i :: 0 <= i < |excusals| ==> Text.Trim(excusals[i].1) == excusals[i].1
    requires forall i, j :: 0 <= i < j < |excusals| ==> excusals[i].0 != excusals[j].0
    ensures (p, r) in excusals <==> p in E.WantedOf(excusals).reasons && E.WantedOf(excusals).reasons[p] == r
    decreases |excusals|
  {
    if excusals != [] {
      var init, last := excusals[..|excusals| - 1], excusals[|excusals| - 1];
      WantedPair(init, p, r);
      InLonger(excusals, (p, r));
      assert E.WantedOf(excusals).reasons == E.WantedOf(init).reasons[last.0 := last.1];
      if i :| 0 <= i < |init| && init[i] == (p, r) {
        assert excusals[i].0 != last.0;
      }
    }
  }

  lemma InLonger<T>(xs: seq<T>, x: T)
    requires xs != []
    ensures x in xs <==> x in xs[..|xs| - 1] || x == xs[|xs| - 1]
  {
    assert xs == xs[..|xs| - 1] + [xs[|xs| - 1]];
  }

  lemma {:induction false} OpenPairsAre(rows: seq<E.Excusal>)
    ensures forall i :: 0 <= i < |rows| && rows[i].endsOn == None ==>
            (rows[i].personId, rows[i].reason) in OpenPairs(rows)
    ensures forall x :: x in OpenPairs(rows) ==> E.IsOpen(rows, x.0)
  {
    if rows != [] {
      OpenPairsAre(rows[1..]);
      forall x | x in OpenPairs(rows)
        ensures E.IsOpen(rows, x.0)
      {
        E.IsOpenCons(rows, x.0);
      }
    }
  }

  lemma {:induction false} OneEachFromPairs(rows: seq<E.Excusal>)
    requires forall i, j :: 0 <= i < j < |OpenPairs(rows)| ==> OpenPairs(rows)[i].0 != OpenPairs(rows)[j].0
    ensures E.OneOpenEach(rows)
  {
    if rows != [] {
      var head := if rows[0].endsOn == None then [(rows[0].personId, rows[0].reason)] else [];
      var tail := OpenPairs(rows[1..]);
      assert OpenPairs(rows) == head + tail;
      forall i, j | 0 <= i < j < |tail|
        ensures tail[i].0 != tail[j].0
      {
        assert (head + tail)[|head| + i].0 != (head + tail)[|head| + j].0;
      }
      OneEachFromPairs(rows[1..]);
      OpenPairsAre(rows[1..]);
      forall j | 0 < j < |rows| && rows[0].endsOn == None && rows[j].endsOn == None
        ensures rows[0].personId != rows[j].personId
      {
        assert rows[1..][j - 1] == rows[j];
        var k :| 0 <= k < |tail| && tail[k] == (rows[j].personId, rows[j].reason);
        assert (head + tail)[0].0 != (head + tail)[1 + k].0;
      }
    }
  }

  /** Rows whose open ones are wanted as they are, one per person, settle to themselves. */
  lemma {:induction false} SettleIsIdentity(rows: seq<E.Excusal>, reasons: map<string, string>, today: int)
    requires E.OneOpenEach(rows) && E.OpenWith(rows, reasons)
    ensures E.Settle(rows, reasons, today) == rows
  {
    if rows != [] {
      var smaller := E.Spent(rows[0], reasons);
      forall i | 0 <= i < |rows[1..]| && rows[1..][i].endsOn == None
        ensures rows[1..][i].personId in smaller && rows[1..][i].reason == smaller[rows[1..][i].personId]
      {
        assert rows[1..][i] == rows[i + 1];
      }
      assert E.OneOpenEach(rows[1..]);
      SettleIsIdentity(rows[1..], smaller, today);
      assert E.SettleRow(rows[0], reasons, today) == [rows[0]];
    }
  }

  /** When the open excusals are already the wanted ones, the command has nothing to do. */
  lemma UnchangedIsFinal(rows: seq<E.Excusal>, s: Settings)
    requires Checked(s) && !ExcusalsChanged(rows, s)
    ensures E.Final(rows, E.WantedOf(s.excusals), s.today) == rows
  {
    var w := E.WantedOf(s.excusals);
    OpenAreWanted(rows, s);
    SettleIsIdentity(rows, w.reasons, s.today);
    NobodyLeft(rows, w.reasons);
    E.InsertsNone(w.order, E.Left(rows, w.reasons), s.today);
  }

  lemma OpenAreWanted(rows: seq<E.Excusal>, s: Settings)
    requires Checked(s) && !ExcusalsChanged(rows, s)
    ensures E.OneOpenEach(rows) && E.OpenWith(rows, E.WantedOf(s.excusals).reasons)
    ensures forall p :: p in E.WantedOf(s.excusals).reasons ==> E.IsOpen(rows, p)
  {
    DistinctPersons(OpenPairs(rows), s.excusals);
    OneEachFromPairs(rows);
    OpenRowsWanted(rows, s);
    WantedAreOpen(rows, s);
  }

  lemma OpenRowsWanted(rows: seq<E.Excusal>, s: Settings)
    requires Checked(s) && !ExcusalsChanged(rows, s)
    ensures E.OpenWith(rows, E.WantedOf(s.excusals).reasons)
  {
    OpenPairsAre(rows);
    Sorting.SameMembers(OpenPairs(rows), s.excusals);
    forall i | 0 <= i < |rows| && rows[i].endsOn == None
      ensures var reasons := E.WantedOf(s.excusals).reasons;
              rows[i].personId in reasons && rows[i].reason == reasons[rows[i].personId]
    {
      WantedPair(s.excusals, rows[i].personId, rows[i].reason);
    }
  }

  lemma WantedAreOpen(rows: seq<E.Excusal>, s: Settings)
    requires Checked(s) && !ExcusalsChanged(rows, s)
    ensures forall p :: p in E.WantedOf(s.excusals).reasons ==> E.IsOpen(rows, p)
  {
    OpenPairsAre(rows);
    Sorting.SameMembers(OpenPairs(rows), s.excusals);
    forall p | p in E.WantedOf(s.excusals).reasons
      ensures E.IsOpen(rows, p)
    {
      WantedPair(s.excusals, p, E.WantedOf(s.excusals).reasons[p]);
    }
  }

  lemma NobodyLeft(rows: seq<E.Excusal>, reasons: map<string, string>)
    requires forall p :: p in reasons ==> E.IsOpen(rows, p)
    ensures E.Left(rows, reasons) == map[]
  {
    E.LeftIs(rows, reasons);
    assert E.Left(rows, reasons).Keys == {};
  }

  lemma DistinctPersons(a: seq<(string, string)>, b: seq<(string, string)>)
    requires multiset(a) == multiset(b)
    requires forall i, j :: 0 <= i < j < |b| ==> b[i].0 != b[j].0
    ensures forall i, j :: 0 <= i < j < |a| ==> a[i].0 != a[j].0
  {
    Sorting.SameMembers(a, b);
    assert Sorting.Distinct(b);
    Sorting.DistinctCounts(b);
    Sorting.DistinctCounts(a);
    forall i, j | 0 <= i < j < |a|
      ensures a[i].0 != a[j].0
    {
      assert a[i] in b && a[j] in b && a[i] != a[j];
    }
  }

  /** The excusal step always ends as the whole command would. */
  lemma ExcusalStepIsFinal(db: Db, s: Settings)
    requires Checked(s)
    ensures ExcusalStep(db, s) == db.(excusals := E.Final(db.excusals, E.WantedOf(s.excusals), s.today))
  {
    if !ExcusalsChanged(db.excusals, s) {
      UnchangedIsFinal(db.excusals, s);
    }
  }

  /**
   * A save stopped anywhere in its excusal writes, or between them and the closing of the form, and then sent again,
   * ends exactly as one that was never stopped: same excusals, same rules, same forms, same answer. The second
   * request may arrive on another server day, as long as the device day is still accepted.
   */
  lemma RetryFinishesSave(db: Db, s: Settings, engine: Engine, utcDay: int, later: int, stopped: seq<E.Excusal>)
    requires Checked(s) && E.Interrupted(db.excusals, E.WantedOf(s.excusals), s.today, stopped)
    requires DeviceDate(s.today, utcDay) && DeviceDate(s.today, later) && db.roster.assignTo == Personnel
    ensures Save(db.(excusals := stopped), s, engine, later) == Save(db, s, engine, utcDay)
  {
    E.WantedOfWellFormed(s.excusals);
    ExcusalStepIsFinal(db, s);
    ExcusalStepIsFinal(db.(excusals := stopped), s);
    E.RetryCompletes(db.excusals, E.WantedOf(s.excusals), s.today, stopped);
    RulesStepAnyDay(ExcusalStep(db, s), s, engine, utcDay, later);
  }

  /** The server's day only decides whether the device day is accepted. */
  lemma RulesStepAnyDay(db: Db, s: Settings, engine: Engine, utcDay: int, later: int)
    requires DeviceDate(s.today, utcDay) && DeviceDate(s.today, later)
    ensures RulesStep(db, s, engine, utcDay) == RulesStep(db, s, engine, later)
  {
  }

  /**
   * Once a save has gone through, sending it again changes nothing, so it closes one form at most. The repeat may
   * arrive on another server day, as long as the device day is still accepted.
   */
  lemma RepeatedSaveIsNoChange(db: Db, s: Settings, engine: Engine, utcDay: int, later: int)
    requires Checked(s) && Save(db, s, engine, utcDay).1.Ok? && DeviceDate(s.today, later)
    ensures Save(Save(db, s, engine, utcDay).0, s, engine, later) == Save(db, s, engine, utcDay)
    ensures |Save(db, s, engine, utcDay).0.roster.forms| <= |db.roster.forms| + 1
  {
    E.WantedOfWellFormed(s.excusals);
    var mid := ExcusalStep(db, s);
    var after := Save(db, s, engine, utcDay).0;
    ExcusalStepIsFinal(db, s);
    ExcusalStepIsFinal(after, s);
    E.RepeatIsNoChange(db.excusals, E.WantedOf(s.excusals), s.today);
    SavedRules(mid, s, engine, utcDay);
  }

  lemma SavedRules(db: Db, s: Settings, engine: Engine, utcDay: int)
    requires RulesStep(db, s, engine, utcDay).1.Ok?
    ensures var after := RulesStep(db, s, engine, utcDay).0;
            && SameRules(after.roster.rules, s.rules) && after.excusals == db.excusals
            && after.roster.assignTo == db.roster.assignTo && |after.roster.forms| <= |db.roster.forms| + 1
  {
    if !SameRules(db.roster.rules, s.rules) {
      var form := OpenForm(db.roster.forms).value;
      var (closing, carry) := ClosingOf(db, form, s, engine);
      ReplaceLength(db.roster.forms, form.(rules := s.rules));
      ReplaceLength(db.roster.forms, Ended(db.roster, form, closing));
    }
  }

  /** Two rule sets are the same when their weekend mode is, and both pools are Everyone or say the same. */
  lemma SameRulesIff(a: Rules, b: Rules)
    ensures SameRules(a, b) <==> a.weekendMode == b.weekendMode && SamePool(a.pool, b.pool)
  {
    if a.pool.Some? && b.pool.Some? {
      NormalizeIsCanonical(a.pool.value, b.pool.value);
    }
    if a.pool.Some? {
      NoRulesMeansEveryone(a.pool.value);
    }
    if b.pool.Some? {
      NoRulesMeansEveryone(b.pool.value);
    }
  }

  ghost predicate MeansEveryone(pool: Option<PoolRules>) {
    pool.Some? ==>
      pool.value.rank == None && pool.value.mos == [] && pool.value.role == [] && pool.value.groupIds == []
  }

  ghost predicate SamePool(a: Option<PoolRules>, b: Option<PoolRules>) {
    if a.Some? && b.Some? then SameMeaning(a.value, b.value) else MeansEveryone(a) && MeansEveryone(b)
  }

  /** A save on an accepted day for a roster with an open form always goes through. */
  lemma SaveGoesThrough(db: Db, s: Settings, engine: Engine, utcDay: int)
    requires Valid(db.roster)
    ensures var near := utcDay - 1 <= s.today <= utcDay + 1;
            Save(db, s, engine, utcDay).1 ==
            if !near then Fail(400) else if db.roster.assignTo == Groups then Fail(404) else Ok(())
    ensures Save(db, s, engine, utcDay).1.Fail? ==> Save(db, s, engine, utcDay).0 == db
  {
    OpenIsLast(db.roster.forms);
    if DeviceDate(s.today, utcDay) && db.roster.assignTo == Personnel {
      RulesGoThrough(ExcusalStep(db, s), s, engine, utcDay);
    }
  }

  lemma RulesGoThrough(db: Db, s: Settings, engine: Engine, utcDay: int)
    requires Valid(db.roster) && DeviceDate(s.today, utcDay) && db.roster.assignTo == Personnel
    ensures RulesStep(db, s, engine, utcDay).1.Ok?
  {
    OpenIsLast(db.roster.forms);
    var form := OpenForm(db.roster.forms).value;
    var (closing, _) := ClosingOf(db, form, s, engine);
    assert Closable(db.roster, closing, utcDay) == Ok(form);
  }

  /**
   * What a save leaves behind: the excusals of the command; the roster as it was if the rules say the same; otherwise
   * the roster closed with the engine's record and counts if the open form has begun, or with its own numbers if not.
   */
  lemma SaveIs(db: Db, s: Settings, engine: Engine, utcDay: int)
    requires Checked(s) && Valid(db.roster) && Save(db, s, engine, utcDay).1.Ok?
    ensures var after := Save(db, s, engine, utcDay).0;
            var excused := E.Final(db.excusals, E.WantedOf(s.excusals), s.today);
            && after.excusals == excused && db.roster.forms != []
            && var form := db.roster.forms[|db.roster.forms| - 1];
               if SameRules(db.roster.rules, s.rules) then after.roster == db.roster
               else if s.today < EffectiveStart(db.roster, form) then
                 var numbers := if form.id in db.roster.numbers then db.roster.numbers[form.id] else [];
                 var carry := engine.carryOver(numbers, form.rules.weekendMode, s.rules.weekendMode);
                 ClosedTo(db.roster, after.roster, Closing(form.id, s.today, None), s.rules, carry)
               else
                 var (record, counts) := engine.close(db.(excusals := excused), form, s.today);
                 var carry := engine.carryOver(counts, form.rules.weekendMode, s.rules.weekendMode);
                 ClosedTo(db.roster, after.roster, Closing(form.id, s.today, Some(record)), s.rules, carry)
  {
    ExcusalStepIsFinal(db, s);
    OpenIsLast(db.roster.forms);
    if !SameRules(db.roster.rules, s.rules) {
      var mid := ExcusalStep(db, s);
      var form := OpenForm(db.roster.forms).value;
      var (closing, carry) := ClosingOf(mid, form, s, engine);
      CloseIs(db.roster, closing, s.rules, carry, utcDay);
    }
  }

  lemma {:induction false} ReplaceLength(forms: seq<Form>, row: Form)
    ensures |Replace(forms, row)| == |forms|
  {
    if forms != [] {
      ReplaceLength(forms[1..], row);
    }
  }
}
