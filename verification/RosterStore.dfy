/** The store of one roster: its commands change rows one statement at a time. */
module RosterStore {
  import opened Options
  import opened RosterForms
  import opened RosterSettings
  import E = RosterExcusals

  datatype ExcusalRow = ExcusalRow(id: nat, excusal: E.Excusal)

  function Excusals(rows: seq<ExcusalRow>): seq<E.Excusal> {
    seq(|rows|, i requires 0 <= i < |rows| => rows[i].excusal)
  }

  function UpdateRow(rows: seq<ExcusalRow>, row: ExcusalRow): seq<ExcusalRow> {
    if rows == [] then []
    else if rows[0].id == row.id then [row] + rows[1..]
    else [rows[0]] + UpdateRow(rows[1..], row)
  }

  function DeleteRow(rows: seq<ExcusalRow>, id: nat): seq<ExcusalRow> {
    if rows == [] then []
    else if rows[0].id == id then rows[1..]
    else [rows[0]] + DeleteRow(rows[1..], id)
  }

  ghost predicate DistinctRows(rows: seq<ExcusalRow>, nextRow: nat) {
    && (forall row :: row in rows ==> row.id < nextRow)
    && (forall i, j :: 0 <= i < j < |rows| ==> rows[i].id != rows[j].id)
  }

  lemma {:induction false} RowFound(before: seq<ExcusalRow>, row: ExcusalRow, after: seq<ExcusalRow>, next: ExcusalRow)
    requires next.id == row.id && forall i :: 0 <= i < |before| ==> before[i].id != row.id
    ensures UpdateRow(before + [row] + after, next) == before + [next] + after
    ensures DeleteRow(before + [row] + after, row.id) == before + after
  {
    var rows := before + [row] + after;
    if before == [] {
      assert rows[1..] == after;
    } else {
      assert rows[1..] == before[1..] + [row] + after;
      RowFound(before[1..], row, after, next);
    }
  }

  lemma RowReplaced(before: seq<ExcusalRow>, row: ExcusalRow, after: seq<ExcusalRow>, nextRow: nat, next: ExcusalRow)
    requires DistinctRows(before + [row] + after, nextRow) && next.id == row.id
    ensures UpdateRow(before + [row] + after, next) == before + [next] + after
    ensures DeleteRow(before + [row] + after, row.id) == before + after
    ensures DistinctRows(before + [next] + after, nextRow) && DistinctRows(before + after, nextRow)
  {
    var rows := before + [row] + after;
    forall k | 0 <= k < |before|
      ensures before[k].id != row.id
    {
      assert rows[k].id != rows[|before|].id;
    }
    RowFound(before, row, after, next);
    UpdateKeepsDistinct(rows, |before|, next, nextRow);
    assert rows[|before| := next] == before + [next] + after;
    DeleteKeepsDistinct(rows, |before|, nextRow);
    assert rows[..|before|] + rows[|before| + 1..] == before + after;
  }

  lemma UpdateKeepsDistinct(rows: seq<ExcusalRow>, k: nat, next: ExcusalRow, nextRow: nat)
    requires DistinctRows(rows, nextRow) && k < |rows| && next.id == rows[k].id
    ensures DistinctRows(rows[k := next], nextRow)
  {
    assert rows[k] in rows;
  }

  lemma DeleteKeepsDistinct(rows: seq<ExcusalRow>, k: nat, nextRow: nat)
    requires DistinctRows(rows, nextRow) && k < |rows|
    ensures DistinctRows(rows[..k] + rows[k + 1..], nextRow)
  {
    var left := rows[..k] + rows[k + 1..];
    forall i, j | 0 <= i < j < |left|
      ensures left[i].id != left[j].id
    {
      assert left[i] == rows[if i < k then i else i + 1] && left[j] == rows[if j < k then j else j + 1];
    }
  }

  /** How far an interrupted command got: it may be cut off before any of its writes. */
  datatype Progress = Finished | CutOff | Refused(status: nat)

  class Roster {
    var assignTo: AssignTo
    var rules: Rules
    var forms: seq<Form>
    var numbers: map<nat, seq<Number>>
    var nextId: nat
    var firstDuty: Option<int>
    var excusalRows: seq<ExcusalRow>
    var nextRow: nat

    ghost function Now(): RosterForms.Roster
      reads this
    {
      RosterForms.Roster(assignTo, rules, forms, numbers, nextId, firstDuty)
    }

    ghost predicate Valid()
      reads this
    {
      RosterForms.Valid(Now()) && DistinctRows(excusalRows, nextRow)
    }

    constructor Create(assignTo: AssignTo, rules: Rules, utcDay: int)
      ensures Valid() && Now() == RosterForms.Create(assignTo, rules, utcDay) && excusalRows == []
    {
      this.assignTo, this.rules, forms, numbers, nextId, firstDuty := assignTo, rules, [], map[], 0, None;
      excusalRows, nextRow := [], 0;
      new;
      EnsureOpenForm(utcDay);
    }

    method EnsureOpenForm(utcDay: int)
      requires Tiled(forms) && DistinctIds(Now()) && DistinctRows(excusalRows, nextRow)
      requires OpenForm(forms) != None ==> assignTo == Personnel
      modifies this`forms, this`nextId
      ensures Valid() && Now() == RosterForms.EnsureOpenForm(old(Now()), utcDay)
    {
      EnsureOpenFormKeeps(Now(), utcDay);
      if assignTo != Personnel || OpenForm(forms) != None {
        return;
      }
      var afterClosed := LastEnd(forms);
      var start := if afterClosed.Some? then afterClosed.value + 1 else utcDay;
      forms := forms + [Form(nextId, start, None, rules, None)];
      nextId := nextId + 1;
    }

    method UpdateAssignmentType(change: Option<AssignTo>, utcDay: int) returns (outcome: Outcome<()>)
      requires Valid()
      modifies this`assignTo, this`forms, this`nextId
      ensures Valid()
      ensures match Update(old(Now()), change, utcDay)
              case Ok(r) => outcome.Ok? && Now() == r
              case Fail(status) => outcome == Fail(status) && Now() == old(Now())
    {
      OpenIsLast(forms);
      if change == Some(Groups) && OpenForm(forms) != None {
        return Fail(500);
      }
      if change.Some? {
        assignTo := change.value;
      }
      EnsureOpenForm(utcDay);
      return Ok(());
    }

    /** Returns the id of the open form afterwards. */
    method CloseRosterForm(c: Closing, newRules: Rules, carry: seq<Number>, utcDay: int) returns (outcome: Outcome<nat>)
      requires Valid()
      modifies this`forms, this`numbers, this`nextId, this`rules
      ensures Valid()
      ensures match Close(old(Now()), c, newRules, carry, utcDay)
              case Ok(r) => outcome.Ok? && Now() == r && OpenForm(forms).Some? &&
                OpenForm(forms).value.id == outcome.value
              case Fail(status) => outcome == Fail(status) && Now() == old(Now())
      ensures outcome.Ok? ==> ClosedTo(old(Now()), Now(), c, newRules, carry)
    {
      var closable := FormToClose(c, utcDay);
      if closable.Fail? {
        return Fail(closable.status);
      }
      var form := closable.value;
      var start := StartOf(form);
      ghost var closed := Close(Now(), c, newRules, carry, utcDay).value;
      CloseOpens(Now(), c, newRules, carry, utcDay);
      CloseIs(Now(), c, newRules, carry, utcDay);
      SetAgain(numbers, form.id, WithOrigin(carry, Carried));
      var next := form.id;
      if c.record == None {
        forms := Replace(forms, form.(rules := newRules));
        numbers := numbers - {form.id};
      } else {
        forms := Replace(forms, form.(startsOn := start, endsOn := Some(c.today), record := c.record));
        next := nextId;
        forms := forms + [Form(next, c.today + 1, None, newRules, None)];
        nextId := nextId + 1;
      }
      numbers := numbers[next := WithOrigin(carry, Carried)];
      rules := newRules;
      assert Now() == closed;
      return Ok(next);
    }

    method EndRosterForm(c: Closing, utcDay: int) returns (outcome: Outcome<()>)
      requires Valid()
      modifies this`forms, this`numbers, this`assignTo
      ensures Valid()
      ensures match End(old(Now()), c, utcDay)
              case Ok(r) => outcome.Ok? && Now() == r
              case Fail(status) => outcome == Fail(status) && Now() == old(Now())
      ensures outcome.Ok? ==> EndedTo(old(Now()), Now(), c)
    {
      var closable := FormToClose(c, utcDay);
      if closable.Fail? {
        return Fail(closable.status);
      }
      var form := closable.value;
      var start := StartOf(form);
      EndIs(Now(), c, utcDay);
      EndKeeps(Now(), c, utcDay);
      if c.record == None {
        numbers := numbers - {form.id};
        forms := Remove(forms, form.id);
      } else {
        forms := Replace(forms, form.(startsOn := start, endsOn := Some(c.today), record := c.record));
      }
      assignTo := Groups;
      return Ok(());
    }

    /** The checks that closing and ending share. */
    method FormToClose(c: Closing, utcDay: int) returns (closable: Outcome<Form>)
      ensures closable == Closable(Now(), c, utcDay)
    {
      if !DeviceDate(c.today, utcDay) {
        return Fail(400);
      }
      if assignTo != Personnel {
        return Fail(404);
      }
      var open := OpenForm(forms);
      if open == None || open.value.id != c.formId {
        return Fail(409);
      }
      var form := open.value;
      var start := StartOf(form);
      if (start > c.today) != (c.record == None) {
        return Fail(400);
      }
      return Ok(form);
    }

    /** Reads what decides a form's effective start. */
    method StartOf(form: Form) returns (start: int)
      ensures start == EffectiveStart(Now(), form)
    {
      var read := RosterForms.Roster(assignTo, rules, forms, numbers, nextId, firstDuty);
      return EffectiveStart(read, form);
    }

    /**
     * Makes the wanted excusals the open ones. Each write may be the last one before an interruption: `writes` is how
     * many there are time for.
     */
    method SetRosterExcusals(today: int, excusals: seq<(string, string)>, utcDay: int, writes: nat)
      returns (progress: Progress)
      requires Valid()
      modifies this`excusalRows, this`nextRow
      ensures Valid() && Now() == old(Now())
      ensures progress == Refused(400) <==> !(utcDay - 1 <= today <= utcDay + 1)
      ensures progress == Refused(404) <==> utcDay - 1 <= today <= utcDay + 1 && assignTo == Groups
      ensures !progress.Refused? ==>
              (progress == CutOff <==> writes < E.Writes(old(Excusals(excusalRows)), E.WantedOf(excusals), today))
      ensures progress.Refused? ==> excusalRows == old(excusalRows) && progress.status in {400, 404}
      ensures progress == CutOff ==>
              E.Interrupted(old(Excusals(excusalRows)), E.WantedOf(excusals), today, Excusals(excusalRows))
      ensures progress == CutOff ==> writes < |old(excusalRows)| + |E.WantedOf(excusals).order|
      ensures progress == Finished ==>
              Excusals(excusalRows) == E.Final(old(Excusals(excusalRows)), E.WantedOf(excusals), today)
    {
      if !DeviceDate(today, utcDay) {
        return Refused(400);
      }
      if assignTo != Personnel {
        return Refused(404);
      }
      var wanted := E.WantedOf(excusals);
      E.ChangesAtMost(Excusals(excusalRows), wanted.reasons, today);
      E.InsertsAtMost(wanted.order, E.Left(Excusals(excusalRows), wanted.reasons), today);
      var reasons, budget, more := SettleRows(today, wanted.reasons, writes);
      if !more {
        assert E.Interrupted(old(Excusals(excusalRows)), wanted, today, Excusals(excusalRows));
        return CutOff;
      }
      progress := InsertRows(today, wanted, reasons, budget, old(Excusals(excusalRows)));
    }

    /** Ends, deletes or relabels the open rows; returns the reasons nobody had a row for, unless cut off. */
    method SettleRows(today: int, wanted: map<string, string>, writes: nat)
      returns (reasons: map<string, string>, budget: nat, more: bool)
      requires DistinctRows(excusalRows, nextRow)
      modifies this`excusalRows
      ensures DistinctRows(excusalRows, nextRow)
      ensures var changes := E.Changes(old(Excusals(excusalRows)), wanted, today);
              if more then writes == budget + changes else writes < changes
      ensures !more ==> E.SettledUpTo(old(Excusals(excusalRows)), wanted, today, Excusals(excusalRows))
      ensures more ==> Excusals(excusalRows) == E.Settle(old(Excusals(excusalRows)), wanted, today)
                       && reasons == E.Left(old(Excusals(excusalRows)), wanted)
    {
      var rows := excusalRows;
      ghost var done: seq<ExcusalRow> := [];
      reasons, budget, more := wanted, writes, true;
      for i := 0 to |rows|
        invariant excusalRows == done + rows[i..]
        invariant DistinctRows(excusalRows, nextRow)
        invariant SettledTo(rows, i, wanted, today, done, reasons)
        invariant more && writes == budget + E.Changes(Excusals(rows)[..i], wanted, today)
      {
        RowsSplit(done, rows, i);
        NextChange(rows, i, wanted, today, reasons);
        ghost var kept: seq<ExcusalRow>;
        kept, budget, more := SettleRow(done, rows[i], rows[i + 1..], reasons, today, budget);
        if !more {
          SettledSoFar(rows, i, wanted, today, done, reasons);
          return;
        }
        SettledNext(rows, i, wanted, today, done, reasons, kept);
        if rows[i].excusal.endsOn == None {
          reasons := reasons - {rows[i].excusal.personId};
        }
        done := done + kept;
      }
      assert Excusals(rows)[..|rows|] == Excusals(rows);
    }

    /** Writes what becomes of one row, which stands between `done` and `rest`, if there is time for it. */
    method SettleRow(ghost done: seq<ExcusalRow>, row: ExcusalRow, ghost rest: seq<ExcusalRow>,
                     reasons: map<string, string>, today: int, writes: nat)
      returns (ghost kept: seq<ExcusalRow>, budget: nat, more: bool)
      requires excusalRows == done + [row] + rest && DistinctRows(excusalRows, nextRow)
      modifies this`excusalRows
      ensures DistinctRows(excusalRows, nextRow)
      ensures more ==> excusalRows == done + kept + rest && Excusals(kept) == E.SettleRow(row.excusal, reasons, today)
      ensures var same := E.SettleRow(row.excusal, reasons, today) == [row.excusal];
              if more then writes == budget + (if same then 0 else 1)
              else writes == 0 && !same && excusalRows == old(excusalRows)
    {
      var e := row.excusal;
      kept, budget, more := [row], writes, true;
      if e.endsOn.Some? {
        return;
      }
      var gone := e.personId !in reasons && e.startsOn >= today;
      var settled := if e.personId in reasons then e.(reason := reasons[e.personId]) else e.(endsOn := Some(today - 1));
      var next := row.(excusal := settled);
      RowReplaced(done, row, rest, nextRow, next);
      kept := if gone then [] else [next];
      if !gone && next == row {
        return;
      }
      if budget == 0 {
        more := false;
        return;
      }
      budget := budget - 1;
      if gone {
        excusalRows := DeleteRow(excusalRows, row.id);
        assert done + kept + rest == done + rest;
      } else {
        excusalRows := UpdateRow(excusalRows, next);
      }
    }

    /** Adds a row for each person left, in the order they were named. */
    method InsertRows(today: int, wanted: E.Wanted, reasons: map<string, string>, writes: nat,
                      ghost was: seq<E.Excusal>)
      returns (progress: Progress)
      requires DistinctRows(excusalRows, nextRow)
      requires Excusals(excusalRows) == E.Settle(was, wanted.reasons, today) && reasons == E.Left(was, wanted.reasons)
      modifies this`excusalRows, this`nextRow
      ensures DistinctRows(excusalRows, nextRow)
      ensures progress == Finished || progress == CutOff
      ensures progress == CutOff <==> writes < |E.Inserts(wanted.order, reasons, today)|
      ensures progress == CutOff ==> E.Interrupted(was, wanted, today, Excusals(excusalRows))
      ensures progress == Finished ==> Excusals(excusalRows) == E.Final(was, wanted, today)
    {
      var budget: nat := writes;
      ghost var settled := Excusals(excusalRows);
      for m := 0 to |wanted.order|
        invariant DistinctRows(excusalRows, nextRow)
        invariant Excusals(excusalRows) == settled + E.Inserts(wanted.order[..m], reasons, today)
        invariant writes == budget + |E.Inserts(wanted.order[..m], reasons, today)|
      {
        var person := wanted.order[m];
        assert wanted.order[..m + 1] == wanted.order[..m] + [person];
        E.InsertsSplit(wanted.order[..m], [person], reasons, today);
        if person in reasons {
          if budget == 0 {
            assert wanted.order == wanted.order[..m + 1] + wanted.order[m + 1..];
            E.InsertsSplit(wanted.order[..m + 1], wanted.order[m + 1..], reasons, today);
            return CutOff;
          }
          budget := budget - 1;
          var row := ExcusalRow(nextRow, E.Excusal(person, reasons[person], today, None));
          ExcusalsJoin(excusalRows, [row]);
          excusalRows := excusalRows + [row];
          nextRow := nextRow + 1;
        }
      }
      assert wanted.order[..|wanted.order|] == wanted.order;
      return Finished;
    }

    /**
     * Excusals change first, then changed rules close or rewrite the open form. The save may be interrupted at any of
     * its excusal writes, or, with `reachesForm` false, right before the form closes.
     */
    method SaveRosterSettings(s: Settings, engine: Engine, utcDay: int, writes: nat, reachesForm: bool)
      returns (progress: Progress)
      requires Valid() && Checked(s)
      modifies this
      ensures Valid()
      ensures progress == CutOff ==> Now() == old(Now())
      ensures progress == CutOff ==> !reachesForm || writes < |old(excusalRows)| + |E.WantedOf(s.excusals).order|
      ensures progress == CutOff ==>
              E.Interrupted(old(Excusals(excusalRows)), E.WantedOf(s.excusals), s.today, Excusals(excusalRows))
      ensures progress != CutOff ==>
                var (after, answer) := Save(old(Db(Now(), Excusals(excusalRows))), s, engine, utcDay);
                && Db(Now(), Excusals(excusalRows)) == after
                && progress == if answer.Ok? then Finished else Refused(answer.status)
    {
      if !DeviceDate(s.today, utcDay) {
        return Refused(400);
      }
      if assignTo != Personnel {
        return Refused(404);
      }
      ghost var before := Db(Now(), Excusals(excusalRows));
      var rulesChanged := !SameRules(rules, s.rules);
      if ExcusalsChanged(Excusals(excusalRows), s) {
        var step := SetRosterExcusals(s.today, s.excusals, utcDay, writes);
        if step == CutOff {
          return CutOff;
        }
      }
      ExcusalStepIsFinal(before, s);
      assert Db(Now(), Excusals(excusalRows)) == ExcusalStep(before, s);
      if rulesChanged {
        if !reachesForm {
          FinishedIsInterrupted(before.excusals, E.WantedOf(s.excusals), s.today);
          return CutOff;
        }
        var form := OpenForm(forms);
        if form == None {
          return Refused(409);
        }
        var db := Db(RosterForms.Roster(assignTo, rules, forms, numbers, nextId, firstDuty), Excusals(excusalRows));
        var (closing, carry) := ClosingOf(db, form.value, s, engine);
        var outcome := CloseRosterForm(closing, s.rules, carry, utcDay);
        if outcome.Fail? {
          return Refused(outcome.status);
        }
      }
      return Finished;
    }
  }

  lemma SetAgain<T>(m: map<nat, T>, k: nat, v: T)
    ensures (m - {k})[k := v] == m[k := v]
  {
  }

  /** The form open afterwards is the rewritten one or the one just opened. */
  lemma CloseOpens(r: RosterForms.Roster, c: Closing, rules: Rules, carry: seq<Number>, utcDay: int)
    requires RosterForms.Valid(r) && Close(r, c, rules, carry, utcDay).Ok?
    ensures RosterForms.Valid(Close(r, c, rules, carry, utcDay).value)
    ensures var open := OpenForm(Close(r, c, rules, carry, utcDay).value.forms);
            open.Some? && open.value.id == if c.record == None then c.formId else r.nextId
  {
    CloseKeeps(r, c, rules, carry, utcDay);
    ClosableIsLast(r, c, utcDay);
    ReplaceLast(r.forms, r.forms[|r.forms| - 1].(rules := rules));
    OpenIsLast(Close(r, c, rules, carry, utcDay).value.forms);
  }

  lemma FinishedIsInterrupted(rows: seq<E.Excusal>, w: E.Wanted, today: int)
    ensures E.Interrupted(rows, w, today, E.Final(rows, w, today))
  {
    assert w.order[..|w.order|] == w.order;
  }

  lemma ExcusalsJoin(a: seq<ExcusalRow>, b: seq<ExcusalRow>)
    ensures Excusals(a + b) == Excusals(a) + Excusals(b)
  {
  }

  /** The first `i` rows are settled, into `done`, and these reasons are left. */
  ghost predicate SettledTo(rows: seq<ExcusalRow>, i: nat, wanted: map<string, string>, today: int,
                            done: seq<ExcusalRow>, reasons: map<string, string>) {
    i <= |rows| && Excusals(done) == E.Settle(Excusals(rows)[..i], wanted, today) &&
      reasons == E.Left(Excusals(rows)[..i], wanted)
  }

  lemma SettledNext(rows: seq<ExcusalRow>, i: nat, wanted: map<string, string>, today: int, done: seq<ExcusalRow>,
                    reasons: map<string, string>, kept: seq<ExcusalRow>)
    requires i < |rows| && SettledTo(rows, i, wanted, today, done, reasons)
    requires Excusals(kept) == E.SettleRow(rows[i].excusal, reasons, today)
    ensures SettledTo(rows, i + 1, wanted, today, done + kept, E.Spent(rows[i].excusal, reasons))
  {
    var was := Excusals(rows);
    assert was[..i + 1] == was[..i] + [was[i]];
    E.SettleSplits(was[..i], [was[i]], wanted, today);
    assert [was[i]][1..] == [];
    ExcusalsJoin(done, kept);
  }

  /** The next row adds a write if settling changes it, and the rows after it add more or none. */
  lemma NextChange(rows: seq<ExcusalRow>, i: nat, wanted: map<string, string>, today: int, reasons: map<string, string>)
    requires i < |rows| && reasons == E.Left(Excusals(rows)[..i], wanted)
    ensures var step := if E.SettleRow(rows[i].excusal, reasons, today) == [rows[i].excusal] then 0 else 1;
            && E.Changes(Excusals(rows)[..i + 1], wanted, today) == E.Changes(Excusals(rows)[..i], wanted, today) + step
            && E.Changes(Excusals(rows)[..i], wanted, today) + step <= E.Changes(Excusals(rows), wanted, today)
  {
    var was := Excusals(rows);
    assert was[..i + 1] == was[..i] + [was[i]];
    E.ChangesSplit(was[..i], [was[i]], wanted, today);
    assert was == was[..i + 1] + was[i + 1..];
    E.ChangesSplit(was[..i + 1], was[i + 1..], wanted, today);
    assert [was[i]][1..] == [];
  }

  lemma SettledSoFar(rows: seq<ExcusalRow>, i: nat, wanted: map<string, string>, today: int, done: seq<ExcusalRow>,
                     reasons: map<string, string>)
    requires SettledTo(rows, i, wanted, today, done, reasons)
    ensures E.SettledUpTo(Excusals(rows), wanted, today, Excusals(done + rows[i..]))
  {
    ExcusalsJoin(done, rows[i..]);
    assert Excusals(rows[i..]) == Excusals(rows)[i..];
  }

  lemma RowsSplit(done: seq<ExcusalRow>, rows: seq<ExcusalRow>, i: nat)
    requires i < |rows|
    ensures done + rows[i..] == done + [rows[i]] + rows[i + 1..]
  {
  }
}
