/** The DA 6 sheets of one roster for one month. */
module Da6Sheets {
  import opened Options
  import opened RosterForms

  /** A form's part of the month; an open form's sheet has no end while the month is not over. */
  datatype Sheet = Sheet(formId: nat, from: int, through: Option<int>)

  /** The month's first and last day, and the day the page is read. */
  datatype Month = Month(first: int, last: int, today: int)

  function Later(a: int, b: int): int {
    if a > b then a else b
  }

  function Earlier(a: int, b: int): int {
    if a < b then a else b
  }

  /**
   * A closed form that overlaps the month has a sheet, unless its record is readable and holds no duty this month
   * (`dutiless`). Forms stand in the order they were opened, which is the order of their first days.
   */
  function ClosedSheet(form: Form, m: Month, dutiless: Form -> bool): seq<Sheet> {
    if form.endsOn.Some? && form.startsOn <= m.last && form.endsOn.value >= m.first && !dutiless(form)
    then [Sheet(form.id, Later(m.first, form.startsOn), Some(Earlier(form.endsOn.value, m.last)))]
    else []
  }

  function ClosedSheets(forms: seq<Form>, m: Month, dutiless: Form -> bool): seq<Sheet> {
    if forms == [] then [] else ClosedSheet(forms[0], m, dutiless) + ClosedSheets(forms[1..], m, dutiless)
  }

  function OpenSheet(r: Roster, m: Month, openHasDuty: bool): seq<Sheet> {
    match OpenForm(r.forms)
    case None => []
    case Some(form) =>
      var start := EffectiveStart(r, form);
      if start > m.last || !openHasDuty then []
      else [Sheet(form.id, Later(m.first, start), if m.today > m.last then Some(m.last) else None)]
  }

  function Sheets(r: Roster, m: Month, dutiless: Form -> bool, openHasDuty: bool): seq<Sheet> {
    ClosedSheets(r.forms, m, dutiless) + OpenSheet(r, m, openHasDuty)
  }

  /** The sheet lies inside the month and holds a day. */
  predicate InMonth(s: Sheet, m: Month) {
    m.first <= s.from <= m.last && (s.through.Some? ==> s.from <= s.through.value <= m.last)
  }

  /** `a` ends, and does so before `b` begins. */
  predicate Before(a: Sheet, b: Sheet) {
    a.through.Some? && a.through.value < b.from
  }

  /** Every sheet but the last ends, before the next one begins. */
  ghost predicate Ascending(sheets: seq<Sheet>) {
    forall i, j :: 0 <= i < j < |sheets| ==> Before(sheets[i], sheets[j])
  }

  predicate Shows(s: Sheet, day: int) {
    s.from <= day && (s.through.Some? ==> day <= s.through.value)
  }

  /** `s` shows exactly the days of the month that `form` holds. */
  ghost predicate ShowsForm(s: Sheet, form: Form, m: Month) {
    s.formId == form.id && forall day :: m.first <= day <= m.last ==> (Shows(s, day) <==> Holds(form, day))
  }

  /** The sheet of a closed form lies in the month, from `first` on and before `bound`. */
  predicate Fits(s: Sheet, m: Month, first: int, bound: int) {
    InMonth(s, m) && first <= s.from && s.through.Some? && s.through.value < bound
  }

  ghost predicate AllFit(sheets: seq<Sheet>, m: Month, first: int, bound: int) {
    Ascending(sheets) && forall i :: 0 <= i < |sheets| ==> Fits(sheets[i], m, first, bound)
  }

  lemma FitsBefore(head: seq<Sheet>, tail: seq<Sheet>, m: Month, first: int, next: int, bound: int)
    requires |head| <= 1 && AllFit(head, m, first, next) && AllFit(tail, m, next, bound)
    requires tail != [] ==> first <= next
    requires head != [] ==> next <= bound
    ensures AllFit(head + tail, m, first, bound)
  {
    var all := head + tail;
    forall i, j | 0 <= i < j < |all|
      ensures Before(all[i], all[j])
    {
      assert all[j] == tail[j - |head|];
      assert all[i] == if i < |head| then head[i] else tail[i - |head|];
    }
  }

  /** Sheets of closed forms stay between the first start and `bound`, a day after every end. */
  lemma {:induction false} ClosedSheetsAscend(forms: seq<Form>, m: Month, dutiless: Form -> bool, first: int,
                                              bound: int)
    requires Tiled(forms) && m.first <= m.last && (forms != [] ==> first <= forms[0].startsOn)
    requires forall i :: 0 <= i < |forms| && forms[i].endsOn.Some? ==> forms[i].endsOn.value < bound
    ensures AllFit(ClosedSheets(forms, m, dutiless), m, first, bound)
  {
    if forms != [] {
      assert ClosedWell(forms[0]);
      if forms[0].endsOn.Some? {
        var next := forms[0].endsOn.value + 1;
        TiledTail(forms);
        assert |forms| > 1 ==> FollowedBy(forms[0], forms[1]);
        ClosedSheetsAscend(forms[1..], m, dutiless, next, bound);
        FitsBefore(ClosedSheet(forms[0], m, dutiless), ClosedSheets(forms[1..], m, dutiless), m, first, next, bound);
      } else {
        assert |forms| > 1 ==> FollowedBy(forms[0], forms[1]);
        assert ClosedSheets(forms[1..], m, dutiless) == [];
      }
    }
  }

  /** A day after the end of every closed form, and no later than an open one starts. */
  function Bound(forms: seq<Form>): int
    requires forms != []
  {
    var last := forms[|forms| - 1];
    if last.endsOn.Some? then last.endsOn.value + 1 else last.startsOn
  }

  lemma ClosedBeforeBound(forms: seq<Form>)
    requires Tiled(forms) && forms != []
    ensures forall i :: 0 <= i < |forms| && forms[i].endsOn.Some? ==> forms[i].endsOn.value < Bound(forms)
  {
    forall i | 0 <= i < |forms| - 1
      ensures forms[i].endsOn.Some? && forms[i].endsOn.value < Bound(forms)
    {
      TilesAscend(forms, i, |forms| - 1);
      assert ClosedWell(forms[|forms| - 1]);
    }
  }

  lemma Appended(sheets: seq<Sheet>, open: seq<Sheet>)
    requires Ascending(sheets) && |open| <= 1
    requires forall i :: 0 <= i < |sheets| && open != [] ==> Before(sheets[i], open[0])
    ensures Ascending(sheets + open)
  {
    var all := sheets + open;
    forall i, j | 0 <= i < j < |all|
      ensures Before(all[i], all[j])
    {
      assert all[i] == sheets[i] && all[j] == if j < |sheets| then sheets[j] else open[0];
    }
  }

  /** The sheets of any month are in the month, in order, and never share a day. */
  lemma SheetsTileMonth(r: Roster, m: Month, dutiless: Form -> bool, openHasDuty: bool)
    requires Valid(r) && m.first <= m.last
    ensures var sheets := Sheets(r, m, dutiless, openHasDuty);
            Ascending(sheets) && forall i :: 0 <= i < |sheets| ==> InMonth(sheets[i], m)
  {
    if r.forms != [] {
      ClosedBeforeBound(r.forms);
      ClosedSheetsAscend(r.forms, m, dutiless, r.forms[0].startsOn, Bound(r.forms));
      assert forall s :: Fits(s, m, r.forms[0].startsOn, Bound(r.forms)) ==> InMonth(s, m);
      OpenSheetFollows(r, m, dutiless, openHasDuty);
      Appended(ClosedSheets(r.forms, m, dutiless), OpenSheet(r, m, openHasDuty));
    }
  }

  /** The open form's sheet lies in the month, and starts no earlier than the closed forms end. */
  lemma OpenSheetFollows(r: Roster, m: Month, dutiless: Form -> bool, openHasDuty: bool)
    requires Valid(r) && m.first <= m.last && r.forms != []
    ensures var open := OpenSheet(r, m, openHasDuty);
            && |open| <= 1
            && (open != [] ==> InMonth(open[0], m) &&
                               (Bound(r.forms) <= open[0].from || ClosedSheets(r.forms, m, dutiless) == []))
  {
    OpenIsLast(r.forms);
    if OpenForm(r.forms).Some? {
      if |r.forms| == 1 {
        assert ClosedSheets(r.forms[1..], m, dutiless) == [];
      } else {
        StartIsStored(r);
      }
    }
  }

  /** A closed form with duty on record is shown for exactly its days of the month. */
  lemma {:induction false} ClosedFormIsShown(forms: seq<Form>, m: Month, dutiless: Form -> bool, k: nat, day: int)
    returns (i: nat)
    requires k < |forms| && forms[k].endsOn.Some? && !dutiless(forms[k])
    requires m.first <= day <= m.last && Holds(forms[k], day)
    ensures i < |ClosedSheets(forms, m, dutiless)| && ShowsForm(ClosedSheets(forms, m, dutiless)[i], forms[k], m)
  {
    if k == 0 {
      i := 0;
    } else {
      var j := ClosedFormIsShown(forms[1..], m, dutiless, k - 1, day);
      i := |ClosedSheet(forms[0], m, dutiless)| + j;
    }
  }

  /** A sheet of a closed form comes from one with duty that has a day in the month, and shows exactly those days. */
  lemma {:induction false} ClosedSheetIsOf(forms: seq<Form>, m: Month, dutiless: Form -> bool, i: nat) returns (k: nat)
    requires i < |ClosedSheets(forms, m, dutiless)|
    ensures k < |forms| && forms[k].endsOn.Some? && !dutiless(forms[k])
    ensures forms[k].startsOn <= m.last && m.first <= forms[k].endsOn.value
    ensures ShowsForm(ClosedSheets(forms, m, dutiless)[i], forms[k], m)
  {
    var head := ClosedSheet(forms[0], m, dutiless);
    if i < |head| {
      k := 0;
    } else {
      var rest := ClosedSheetIsOf(forms[1..], m, dutiless, i - |head|);
      k := rest + 1;
    }
  }

  /** The sheets of the open form: one if it has duty and begins by the end of the month, and none otherwise. */
  lemma OpenFormIsShown(r: Roster, m: Month, openHasDuty: bool)
    requires Valid(r) && m.first <= m.last
    ensures var open := OpenSheet(r, m, openHasDuty);
            if r.assignTo == Groups then open == []
            else
              r.forms != [] &&
              var form := r.forms[|r.forms| - 1];
              var start := EffectiveStart(r, form);
              if !openHasDuty || m.last < start then open == []
              else
                && |open| == 1 && open[0].formId == form.id
                && (open[0].through.Some? <==> m.last < m.today)
                && forall day :: m.first <= day <= m.last ==> (Shows(open[0], day) <==> start <= day)
  {
    OpenIsLast(r.forms);
  }

  /** A form without duty, or without a day in the month, has no sheet. */
  lemma DutilessIsHidden(r: Roster, m: Month, dutiless: Form -> bool, openHasDuty: bool, k: nat, i: nat)
    requires Valid(r) && m.first <= m.last && k < |r.forms| && i < |Sheets(r, m, dutiless, openHasDuty)|
    requires var form := r.forms[k];
             if form.endsOn == None then !openHasDuty || m.last < EffectiveStart(r, form)
             else dutiless(form) || m.last < form.startsOn || form.endsOn.value < m.first
    ensures Sheets(r, m, dutiless, openHasDuty)[i].formId != r.forms[k].id
  {
    var closed := ClosedSheets(r.forms, m, dutiless);
    OpenFormIsShown(r, m, openHasDuty);
    OpenIsLast(r.forms);
    var from := |r.forms| - 1;
    if i < |closed| {
      from := ClosedSheetIsOf(r.forms, m, dutiless, i);
    }
    assert Sheets(r, m, dutiless, openHasDuty)[i].formId == r.forms[from].id;
    if r.forms[k].endsOn == None && k < |r.forms| - 1 {
      TilesAscend(r.forms, k, |r.forms| - 1);
    }
    assert from != k;
    assert from < k ==> r.forms[from].id != r.forms[k].id;
    assert k < from ==> r.forms[k].id != r.forms[from].id;
  }
}
