/**
 * The DA 6 forms of one assignment type, in the order they were opened. Days are day numbers. Every query the store
 * makes here filters by the assignment type, so the rows of other types play no part.
 */
module RosterForms {
  import opened Options

  datatype AssignTo = Personnel | Groups

  datatype WeekendMode = Same | Separate | NoDuty

  datatype PoolRules = PoolRules(rank: Option<(string, string)>, mos: seq<string>, role: seq<string>,
                                 groupIds: seq<string>)

  datatype Rules = Rules(pool: Option<PoolRules>, weekendMode: WeekendMode)

  datatype Record = Record(segments: string)

  datatype Origin = Typed | Carried

  datatype Number = Number(personId: string, track: string, count: nat, origin: Origin)

  datatype Form = Form(id: nat, startsOn: int, endsOn: Option<int>, rules: Rules, record: Option<Record>)

  /** One type's row, forms and starting numbers, and the first day a person of its has duty. */
  datatype Roster = Roster(assignTo: AssignTo, rules: Rules, forms: seq<Form>, numbers: map<nat, seq<Number>>,
                           nextId: nat, firstDuty: Option<int>)

  datatype Outcome<+T> = Ok(value: T) | Fail(status: nat)

  // ---------------------------------------------------------------- reads

  function OpenForm(forms: seq<Form>): Option<Form> {
    if forms == [] then None
    else if forms[0].endsOn == None then Some(forms[0])
    else OpenForm(forms[1..])
  }

  predicate AnyClosed(forms: seq<Form>) {
    exists i :: 0 <= i < |forms| && forms[i].endsOn != None
  }

  /** The latest end of a closed form. */
  function LastEnd(forms: seq<Form>): Option<int> {
    if forms == [] then None
    else
      match (forms[0].endsOn, LastEnd(forms[1..]))
      case (None, rest) => rest
      case (end, None) => end
      case (Some(end), Some(rest)) => Some(if end > rest then end else rest)
  }

  function NumbersOf(r: Roster, formId: nat): seq<Number> {
    if formId in r.numbers then r.numbers[formId] else []
  }

  predicate AnyCarried(numbers: seq<Number>) {
    exists i :: 0 <= i < |numbers| && numbers[i].origin == Carried
  }

  /** Duty entered early moves the start back, but only of a first form without carried numbers. */
  function EffectiveStart(r: Roster, form: Form): int {
    if AnyClosed(r.forms) || AnyCarried(NumbersOf(r, form.id)) then form.startsOn
    else if r.firstDuty.Some? && r.firstDuty.value < form.startsOn then r.firstDuty.value
    else form.startsOn
  }

  /** The device day lies within a day of the server's. */
  predicate DeviceDate(today: int, utcDay: int) {
    utcDay - 1 <= today <= utcDay + 1
  }

  // ---------------------------------------------------------------- commands

  function EnsureOpenForm(r: Roster, utcDay: int): Roster {
    if r.assignTo != Personnel || OpenForm(r.forms) != None then r
    else
      var start := match LastEnd(r.forms) case None => utcDay case Some(end) => end + 1;
      r.(forms := r.forms + [Form(r.nextId, start, None, r.rules, None)], nextId := r.nextId + 1)
  }

  function Create(assignTo: AssignTo, rules: Rules, utcDay: int): Roster {
    EnsureOpenForm(Roster(assignTo, rules, [], map[], 0, None), utcDay)
  }

  function Update(r: Roster, assignTo: Option<AssignTo>, utcDay: int): Outcome<Roster> {
    if assignTo == Some(Groups) && OpenForm(r.forms) != None then Fail(500)
    else Ok(EnsureOpenForm(if assignTo.Some? then r.(assignTo := assignTo.value) else r, utcDay))
  }

  datatype Closing = Closing(formId: nat, today: int, record: Option<Record>)

  /** The open form that a closing names, unless the closing does not fit the roster as it stands. */
  function Closable(r: Roster, c: Closing, utcDay: int): Outcome<Form> {
    if !DeviceDate(c.today, utcDay) then Fail(400)
    else if r.assignTo != Personnel then Fail(404)
    else
      match OpenForm(r.forms)
      case None => Fail(409)
      case Some(form) =>
        if form.id != c.formId then Fail(409)
        else if (EffectiveStart(r, form) > c.today) != (c.record == None) then Fail(400)
        else Ok(form)
  }

  /** Replaces the row with this id. */
  function Replace(forms: seq<Form>, row: Form): seq<Form> {
    if forms == [] then []
    else if forms[0].id == row.id then [row] + forms[1..]
    else [forms[0]] + Replace(forms[1..], row)
  }

  function Remove(forms: seq<Form>, id: nat): seq<Form> {
    if forms == [] then []
    else if forms[0].id == id then forms[1..]
    else [forms[0]] + Remove(forms[1..], id)
  }

  function Ended(r: Roster, form: Form, c: Closing): Form {
    form.(startsOn := EffectiveStart(r, form), endsOn := Some(c.today), record := c.record)
  }

  function WithOrigin(numbers: seq<Number>, origin: Origin): seq<Number> {
    seq(|numbers|, i requires 0 <= i < |numbers| => numbers[i].(origin := origin))
  }

  /** A started form ends today and the next one opens tomorrow; one that has not started takes the rules in place. */
  function Close(r: Roster, c: Closing, rules: Rules, carry: seq<Number>, utcDay: int): Outcome<Roster> {
    match Closable(r, c, utcDay)
    case Fail(status) => Fail(status)
    case Ok(form) =>
      if c.record == None then
        Ok(r.(forms := Replace(r.forms, form.(rules := rules)),
              numbers := r.numbers[form.id := WithOrigin(carry, Carried)], rules := rules))
      else
        Ok(r.(forms := Replace(r.forms, Ended(r, form, c)) + [Form(r.nextId, c.today + 1, None, rules, None)],
              numbers := r.numbers[r.nextId := WithOrigin(carry, Carried)], nextId := r.nextId + 1, rules := rules))
  }

  /** A started form ends today, one that has not started goes away; the type becomes a Group type. */
  function End(r: Roster, c: Closing, utcDay: int): Outcome<Roster> {
    match Closable(r, c, utcDay)
    case Fail(status) => Fail(status)
    case Ok(form) =>
      if c.record == None then
        Ok(r.(forms := Remove(r.forms, form.id), numbers := r.numbers - {form.id}, assignTo := Groups))
      else Ok(r.(forms := Replace(r.forms, Ended(r, form, c)), assignTo := Groups))
  }

  // ---------------------------------------------------------------- what every command keeps

  /** A form that is closed ends no earlier than it starts and has its record. */
  predicate ClosedWell(form: Form) {
    form.endsOn.Some? ==> form.startsOn <= form.endsOn.value && form.record.Some?
  }

  /** `a` is closed and `b` starts the day after it ends. */
  predicate FollowedBy(a: Form, b: Form) {
    a.endsOn == Some(b.startsOn - 1)
  }

  /** Each form but the last is closed, and the next one starts the day after it ends. */
  ghost predicate Tiled(forms: seq<Form>) {
    && (forall i :: 0 <= i < |forms| ==> ClosedWell(forms[i]))
    && (forall i, j :: 0 <= i < j < |forms| && j == i + 1 ==> FollowedBy(forms[i], forms[j]))
  }

  ghost predicate DistinctIds(r: Roster) {
    && (forall i :: 0 <= i < |r.forms| ==> r.forms[i].id < r.nextId)
    && (forall i, j :: 0 <= i < j < |r.forms| ==> r.forms[i].id != r.forms[j].id)
    && (forall id :: id in r.numbers ==> id < r.nextId)
  }

  /** A person-assigned type has an open form, its last; a Group type has none. */
  ghost predicate Valid(r: Roster) {
    && Tiled(r.forms) && DistinctIds(r)
    && (r.assignTo == Personnel <==> r.forms != [] && r.forms[|r.forms| - 1].endsOn == None)
  }

  lemma {:induction false} OpenIsLast(forms: seq<Form>)
    requires Tiled(forms)
    ensures OpenForm(forms) ==
            if forms != [] && forms[|forms| - 1].endsOn == None then Some(forms[|forms| - 1]) else None
  {
    if |forms| > 1 {
      assert FollowedBy(forms[0], forms[1]);
      TiledTail(forms);
      OpenIsLast(forms[1..]);
    }
  }

  lemma TiledTail(forms: seq<Form>)
    requires Tiled(forms) && forms != []
    ensures Tiled(forms[1..])
  {
    var rest := forms[1..];
    forall i, j | 0 <= i < j < |rest| && j == i + 1
      ensures FollowedBy(rest[i], rest[j])
    {
      assert FollowedBy(forms[i + 1], forms[j + 1]);
    }
  }

  /** Later forms lie wholly after earlier ones. */
  lemma {:induction false} TilesAscend(forms: seq<Form>, i: nat, j: nat)
    requires Tiled(forms) && i < j < |forms|
    ensures forms[i].endsOn.Some? && forms[i].endsOn.value < forms[j].startsOn
  {
    assert FollowedBy(forms[j - 1], forms[j]) && ClosedWell(forms[j - 1]);
    if i + 1 < j {
      TilesAscend(forms, i, j - 1);
    }
  }

  lemma {:induction false} LastEndIsLast(forms: seq<Form>)
    requires Tiled(forms) && forms != [] && forms[|forms| - 1].endsOn.Some?
    ensures LastEnd(forms) == forms[|forms| - 1].endsOn
  {
    if |forms| > 1 {
      TiledTail(forms);
      LastEndIsLast(forms[1..]);
      TilesAscend(forms, 0, |forms| - 1);
    } else {
      assert LastEnd(forms[1..]) == None;
    }
  }

  lemma {:induction false} ReplaceLast(forms: seq<Form>, row: Form)
    requires forms != [] && forms[|forms| - 1].id == row.id
    requires forall i, j :: 0 <= i < j < |forms| ==> forms[i].id != forms[j].id
    ensures Replace(forms, row) == forms[..|forms| - 1] + [row]
    ensures Remove(forms, row.id) == forms[..|forms| - 1]
  {
    if |forms| > 1 {
      assert forms[0].id != forms[|forms| - 1].id;
      ReplaceLast(forms[1..], row);
      assert forms[1..][..|forms| - 2] == forms[1..|forms| - 1];
    }
  }

  /** Appends a form that starts the day after the last one ends. */
  lemma AppendTile(forms: seq<Form>, row: Form)
    requires Tiled(forms) && (forms != [] ==> FollowedBy(forms[|forms| - 1], row)) && ClosedWell(row)
    ensures Tiled(forms + [row])
  {
    forall i, j | 0 <= i < j < |forms + [row]| && j == i + 1
      ensures FollowedBy((forms + [row])[i], (forms + [row])[j])
    {
      if j < |forms| {
        assert FollowedBy(forms[i], forms[j]);
      }
    }
  }

  lemma TiledInit(forms: seq<Form>)
    requires Tiled(forms) && forms != []
    ensures Tiled(forms[..|forms| - 1])
    ensures |forms| > 1 ==> FollowedBy(forms[|forms| - 2], forms[|forms| - 1])
  {
    var init := forms[..|forms| - 1];
    forall i, j | 0 <= i < j < |init| && j == i + 1
      ensures FollowedBy(init[i], init[j])
    {
      assert FollowedBy(forms[i], forms[j]);
    }
  }

  lemma EnsureOpenFormKeeps(r: Roster, utcDay: int)
    requires Tiled(r.forms) && DistinctIds(r)
    requires OpenForm(r.forms) != None ==> r.assignTo == Personnel
    ensures Valid(EnsureOpenForm(r, utcDay))
    ensures r.forms <= EnsureOpenForm(r, utcDay).forms
  {
    OpenIsLast(r.forms);
    if r.assignTo == Personnel && OpenForm(r.forms) == None {
      if r.forms != [] {
        LastEndIsLast(r.forms);
      }
      AppendTile(r.forms, EnsureOpenForm(r, utcDay).forms[|r.forms|]);
    }
  }

  lemma CreateKeeps(assignTo: AssignTo, rules: Rules, utcDay: int)
    ensures Valid(Create(assignTo, rules, utcDay))
  {
    EnsureOpenFormKeeps(Roster(assignTo, rules, [], map[], 0, None), utcDay);
  }

  lemma UpdateKeeps(r: Roster, assignTo: Option<AssignTo>, utcDay: int)
    requires Valid(r) && Update(r, assignTo, utcDay).Ok?
    ensures Valid(Update(r, assignTo, utcDay).value)
  {
    OpenIsLast(r.forms);
    EnsureOpenFormKeeps(if assignTo.Some? then r.(assignTo := assignTo.value) else r, utcDay);
  }

  /** With a form before it, the last one has its effective start stored. */
  lemma StartIsStored(r: Roster)
    requires Tiled(r.forms) && |r.forms| > 1
    ensures EffectiveStart(r, r.forms[|r.forms| - 1]) == r.forms[|r.forms| - 1].startsOn
  {
    assert FollowedBy(r.forms[0], r.forms[1]);
    assert r.forms[0].endsOn != None;
  }

  /** The form a closing names is the last row; its effective start follows the form before it. */
  lemma ClosableIsLast(r: Roster, c: Closing, utcDay: int)
    requires Valid(r) && Closable(r, c, utcDay).Ok?
    ensures r.forms != [] && Closable(r, c, utcDay).value == r.forms[|r.forms| - 1]
    ensures |r.forms| > 1 ==> EffectiveStart(r, r.forms[|r.forms| - 1]) == r.forms[|r.forms| - 1].startsOn
  {
    OpenIsLast(r.forms);
    if |r.forms| > 1 {
      StartIsStored(r);
    }
  }

  lemma EndedTiles(r: Roster, c: Closing, utcDay: int)
    requires Valid(r) && Closable(r, c, utcDay).Ok? && c.record.Some?
    ensures var last := r.forms[|r.forms| - 1];
            Tiled(r.forms[..|r.forms| - 1] + [Ended(r, last, c)])
            && Replace(r.forms, Ended(r, last, c)) == r.forms[..|r.forms| - 1] + [Ended(r, last, c)]
  {
    ClosableIsLast(r, c, utcDay);
    var last := r.forms[|r.forms| - 1];
    TiledInit(r.forms);
    ReplaceLast(r.forms, Ended(r, last, c));
    AppendTile(r.forms[..|r.forms| - 1], Ended(r, last, c));
  }

  lemma RewrittenTiles(r: Roster, rules: Rules)
    requires Valid(r) && r.forms != []
    ensures var row := r.forms[|r.forms| - 1].(rules := rules);
            Replace(r.forms, row) == r.forms[..|r.forms| - 1] + [row] && Tiled(r.forms[..|r.forms| - 1] + [row])
  {
    var row := r.forms[|r.forms| - 1].(rules := rules);
    TiledInit(r.forms);
    ReplaceLast(r.forms, row);
    AppendTile(r.forms[..|r.forms| - 1], row);
  }

  lemma CloseKeeps(r: Roster, c: Closing, rules: Rules, carry: seq<Number>, utcDay: int)
    requires Valid(r) && Close(r, c, rules, carry, utcDay).Ok?
    ensures Valid(Close(r, c, rules, carry, utcDay).value)
  {
    ClosableIsLast(r, c, utcDay);
    var last := r.forms[|r.forms| - 1];
    if c.record == None {
      RewrittenTiles(r, rules);
    } else {
      EndedTiles(r, c, utcDay);
      AppendTile(r.forms[..|r.forms| - 1] + [Ended(r, last, c)], Form(r.nextId, c.today + 1, None, rules, None));
    }
  }

  lemma EndKeeps(r: Roster, c: Closing, utcDay: int)
    requires Valid(r) && End(r, c, utcDay).Ok?
    ensures Valid(End(r, c, utcDay).value)
  {
    ClosableIsLast(r, c, utcDay);
    var last := r.forms[|r.forms| - 1];
    if c.record == None {
      TiledInit(r.forms);
      ReplaceLast(r.forms, last);
    } else {
      EndedTiles(r, c, utcDay);
    }
  }

  // ---------------------------------------------------------------- what one command changes

  /** The stored start holds once a form was closed or numbers were carried; before, the first duty day if earlier. */
  lemma EffectiveStartIs(r: Roster, form: Form)
    ensures var settled := (exists i :: 0 <= i < |r.forms| && r.forms[i].endsOn.Some?) ||
                           (form.id in r.numbers &&
                            exists i :: 0 <= i < |r.numbers[form.id]| && r.numbers[form.id][i].origin == Carried);
            && (settled || r.firstDuty == None ==> EffectiveStart(r, form) == form.startsOn)
            && (!settled && r.firstDuty.Some? ==>
                  EffectiveStart(r, form) <= form.startsOn && EffectiveStart(r, form) <= r.firstDuty.value &&
                  EffectiveStart(r, form) in {form.startsOn, r.firstDuty.value})
  {
  }

  /** Which answer a closing or ending gets: its day, the type, the form it names, and its record, in that order. */
  lemma ClosableIff(r: Roster, c: Closing, utcDay: int)
    requires Valid(r)
    ensures var near := utcDay - 1 <= c.today <= utcDay + 1;
            && (!near ==> Closable(r, c, utcDay) == Fail(400))
            && (near && r.assignTo == Groups ==> Closable(r, c, utcDay) == Fail(404))
            && (near && r.assignTo == Personnel ==>
                  r.forms != [] &&
                  var last := r.forms[|r.forms| - 1];
                  var begun := EffectiveStart(r, last) <= c.today;
                  && (last.id != c.formId ==> Closable(r, c, utcDay) == Fail(409))
                  && (last.id == c.formId && begun != c.record.Some? ==> Closable(r, c, utcDay) == Fail(400))
                  && (last.id == c.formId && begun == c.record.Some? ==> Closable(r, c, utcDay) == Ok(last)))
  {
    OpenIsLast(r.forms);
  }

  /** These numbers are the given ones, all of one origin. */
  ghost predicate SameNumbers(numbers: seq<Number>, given: seq<Number>, origin: Origin) {
    |numbers| == |given| &&
    forall i :: 0 <= i < |given| ==>
      && numbers[i].personId == given[i].personId && numbers[i].track == given[i].track
      && numbers[i].count == given[i].count && numbers[i].origin == origin
  }

  /** The numbers of other forms are as they were. */
  ghost predicate OtherNumbersKept(before: map<nat, seq<Number>>, after: map<nat, seq<Number>>, formId: nat) {
    forall id :: id != formId ==> (id in after <==> id in before) && (id in before ==> after[id] == before[id])
  }

  /** `row` is `was`, ended on the closing's day with its record, from its effective start on. */
  ghost predicate EndedRow(r: Roster, was: Form, row: Form, c: Closing) {
    && row.id == was.id && row.rules == was.rules && row.startsOn == EffectiveStart(r, was)
    && row.endsOn == Some(c.today) && row.record == c.record
  }

  /** All rows but the last of `before` are the first rows of `after`. */
  ghost predicate EarlierKept(before: seq<Form>, after: seq<Form>) {
    before != [] && |after| >= |before| - 1 && forall i :: 0 <= i < |before| - 1 ==> after[i] == before[i]
  }

  /** What a closing leaves behind, field by field. */
  ghost predicate ClosedTo(r: Roster, after: Roster, c: Closing, rules: Rules, carry: seq<Number>) {
    && after.rules == rules && after.assignTo == r.assignTo && after.firstDuty == r.firstDuty
    && EarlierKept(r.forms, after.forms)
    && var k, was := |r.forms| - 1, r.forms[|r.forms| - 1];
       if c.record.Some? then
         && |after.forms| == |r.forms| + 1 && EndedRow(r, was, after.forms[k], c)
         && var next := after.forms[k + 1];
            && next.id == r.nextId && next.startsOn == c.today + 1 && next.endsOn == None
            && next.rules == rules && next.record == None && after.nextId == r.nextId + 1
            && next.id in after.numbers && SameNumbers(after.numbers[next.id], carry, Carried)
            && OtherNumbersKept(r.numbers, after.numbers, next.id)
       else
         && |after.forms| == |r.forms| && after.nextId == r.nextId
         && after.forms[k].rules == rules && after.forms[k].id == was.id && after.forms[k].startsOn == was.startsOn
         && after.forms[k].endsOn == was.endsOn && after.forms[k].record == was.record
         && was.id in after.numbers && SameNumbers(after.numbers[was.id], carry, Carried)
         && OtherNumbersKept(r.numbers, after.numbers, was.id)
  }

  lemma CloseIs(r: Roster, c: Closing, rules: Rules, carry: seq<Number>, utcDay: int)
    requires Valid(r) && Close(r, c, rules, carry, utcDay).Ok?
    ensures ClosedTo(r, Close(r, c, rules, carry, utcDay).value, c, rules, carry)
  {
    ClosableIsLast(r, c, utcDay);
    if c.record == None {
      RewrittenTiles(r, rules);
    } else {
      EndedTiles(r, c, utcDay);
    }
  }

  /** What ending leaves behind: a closed last row, or one row and its numbers less, and a Group type. */
  ghost predicate EndedTo(r: Roster, after: Roster, c: Closing) {
    && after.rules == r.rules && after.assignTo == Groups && after.firstDuty == r.firstDuty
    && after.nextId == r.nextId && EarlierKept(r.forms, after.forms)
    && var k, was := |r.forms| - 1, r.forms[|r.forms| - 1];
       if c.record.Some? then
         |after.forms| == |r.forms| && EndedRow(r, was, after.forms[k], c) && after.numbers == r.numbers
       else
         && |after.forms| == |r.forms| - 1 && was.id !in after.numbers
         && OtherNumbersKept(r.numbers, after.numbers, was.id)
  }

  lemma EndIs(r: Roster, c: Closing, utcDay: int)
    requires Valid(r) && End(r, c, utcDay).Ok?
    ensures EndedTo(r, End(r, c, utcDay).value, c)
  {
    ClosableIsLast(r, c, utcDay);
    var last := r.forms[|r.forms| - 1];
    if c.record == None {
      ReplaceLast(r.forms, last);
    } else {
      EndedTiles(r, c, utcDay);
    }
  }

  /** What opening a form where one is due leaves behind; `given` is the type as it is then to be. */
  ghost predicate OpenedTo(given: Roster, after: Roster, utcDay: int) {
    && after.rules == given.rules && after.assignTo == given.assignTo && after.numbers == given.numbers
    && after.firstDuty == given.firstDuty
    && if given.assignTo == Personnel && (forall i :: 0 <= i < |given.forms| ==> given.forms[i].endsOn.Some?) then
         && |after.forms| == |given.forms| + 1 && after.forms[..|given.forms|] == given.forms
         && after.nextId == given.nextId + 1
         && var next := after.forms[|given.forms|];
            && next.id == given.nextId && next.endsOn == None && next.rules == given.rules && next.record == None
            && (given.forms == [] ==> next.startsOn == utcDay)
            && (given.forms != [] ==> Some(next.startsOn - 1) == given.forms[|given.forms| - 1].endsOn)
       else after.forms == given.forms && after.nextId == given.nextId
  }

  lemma EnsureOpenFormIs(r: Roster, utcDay: int)
    requires Tiled(r.forms)
    ensures OpenedTo(r, EnsureOpenForm(r, utcDay), utcDay)
  {
    OpenIsLast(r.forms);
    if r.forms != [] {
      var last := r.forms[|r.forms| - 1];
      if last.endsOn.Some? {
        LastEndIsLast(r.forms);
        forall i | 0 <= i < |r.forms| - 1
          ensures r.forms[i].endsOn.Some?
        {
          TilesAscend(r.forms, i, |r.forms| - 1);
        }
      }
    }
  }

  /** Starting numbers are typed in only for the open form, and only while it has no carried ones and is not locked. */
  lemma SetNumbersIs(r: Roster, formId: nat, numbers: seq<Number>, locked: bool, utcDay: int)
    requires Valid(r)
    ensures var after := Apply(r, SetNumbers(formId, numbers, locked), utcDay);
            var carried := formId in r.numbers &&
                           exists i :: 0 <= i < |r.numbers[formId]| && r.numbers[formId][i].origin == Carried;
            if !locked && !carried && r.assignTo == Personnel && r.forms[|r.forms| - 1].id == formId then
              && after == r.(numbers := after.numbers) && OtherNumbersKept(r.numbers, after.numbers, formId)
              && formId in after.numbers && SameNumbers(after.numbers[formId], numbers, Typed)
            else after == r
  {
    OpenIsLast(r.forms);
  }

  /** An update to a Group type is refused while a form is open; any other changes the kind and opens a form if due. */
  lemma UpdateIs(r: Roster, assignTo: Option<AssignTo>, utcDay: int)
    requires Valid(r)
    ensures Update(r, assignTo, utcDay).Fail? <==> assignTo == Some(Groups) && r.assignTo == Personnel
    ensures Update(r, assignTo, utcDay).Fail? ==> Update(r, assignTo, utcDay).status == 500
    ensures Update(r, assignTo, utcDay).Ok? ==>
              var given := if assignTo.Some? then r.(assignTo := assignTo.value) else r;
              OpenedTo(given, Update(r, assignTo, utcDay).value, utcDay)
  {
    OpenIsLast(r.forms);
    EnsureOpenFormIs(if assignTo.Some? then r.(assignTo := assignTo.value) else r, utcDay);
  }

  // ---------------------------------------------------------------- every run

  /** The commands on one type, and the two writes elsewhere that its forms depend on. */
  datatype Command =
    | UpdateType(assignTo: Option<AssignTo>)
    | CloseForm(closing: Closing, rules: Rules, carry: seq<Number>)
    | EndForm(closing: Closing)
    | MoveDuty(firstDuty: Option<int>)
    | SetNumbers(formId: nat, numbers: seq<Number>, locked: bool)

  /** A refused command changes nothing. `utcDay` is the server's day when the command arrives. */
  function Apply(r: Roster, command: Command, utcDay: int): Roster {
    match command
    case UpdateType(assignTo) => OrSame(Update(r, assignTo, utcDay), r)
    case CloseForm(closing, rules, carry) => OrSame(Close(r, closing, rules, carry, utcDay), r)
    case EndForm(closing) => OrSame(End(r, closing, utcDay), r)
    case MoveDuty(firstDuty) => r.(firstDuty := firstDuty)
    case SetNumbers(formId, numbers, locked) =>
      match OpenForm(r.forms)
      case Some(form) =>
        if form.id == formId && !AnyCarried(NumbersOf(r, formId)) && !locked
        then r.(numbers := r.numbers[formId := WithOrigin(numbers, Typed)]) else r
      case None => r
  }

  function OrSame(outcome: Outcome<Roster>, r: Roster): Roster {
    match outcome
    case Ok(value) => value
    case Fail(_) => r
  }

  function ApplyAll(r: Roster, commands: seq<(Command, int)>): Roster
    decreases |commands|
  {
    if commands == [] then r else ApplyAll(Apply(r, commands[0].0, commands[0].1), commands[1..])
  }

  lemma ApplyKeeps(r: Roster, command: Command, utcDay: int)
    requires Valid(r)
    ensures Valid(Apply(r, command, utcDay))
  {
    match command
    case UpdateType(assignTo) =>
      if Update(r, assignTo, utcDay).Ok? { UpdateKeeps(r, assignTo, utcDay); }
    case CloseForm(closing, rules, carry) =>
      if Close(r, closing, rules, carry, utcDay).Ok? { CloseKeeps(r, closing, rules, carry, utcDay); }
    case EndForm(closing) =>
      if End(r, closing, utcDay).Ok? { EndKeeps(r, closing, utcDay); }
    case MoveDuty(_) =>
    case SetNumbers(_, _, _) =>
      OpenIsLast(r.forms);
  }

  lemma {:induction false} RunKeeps(r: Roster, commands: seq<(Command, int)>)
    requires Valid(r)
    ensures Valid(ApplyAll(r, commands))
    decreases |commands|
  {
    if commands != [] {
      ApplyKeeps(r, commands[0].0, commands[0].1);
      RunKeeps(Apply(r, commands[0].0, commands[0].1), commands[1..]);
    }
  }

  predicate Holds(form: Form, day: int) {
    form.startsOn <= day && (form.endsOn.Some? ==> day <= form.endsOn.value)
  }

  ghost predicate OnlyOpen(forms: seq<Form>, i: int) {
    0 <= i < |forms| && forall j :: 0 <= j < |forms| ==> (forms[j].endsOn == None <==> i == j)
  }

  /** From the first form's start on, every day up to the last end lies in one form, and in only one. */
  lemma EveryRunTilesTime(assignTo: AssignTo, rules: Rules, utcDay: int, commands: seq<(Command, int)>, day: int)
    ensures var r := ApplyAll(Create(assignTo, rules, utcDay), commands);
            && (r.assignTo == Personnel ==> exists i :: OnlyOpen(r.forms, i))
            && (r.assignTo == Groups ==> forall j :: 0 <= j < |r.forms| ==> r.forms[j].endsOn.Some?)
            && (forall i, j :: 0 <= i < j < |r.forms| ==> !(Holds(r.forms[i], day) && Holds(r.forms[j], day)))
            && (r.forms != [] && r.forms[0].startsOn <= day &&
                (r.assignTo == Groups ==> Holds(r.forms[|r.forms| - 1], day) || day < r.forms[|r.forms| - 1].startsOn)
                ==> exists i :: 0 <= i < |r.forms| && Holds(r.forms[i], day))
  {
    CreateKeeps(assignTo, rules, utcDay);
    RunKeeps(Create(assignTo, rules, utcDay), commands);
    var r := ApplyAll(Create(assignTo, rules, utcDay), commands);
    OpenExactlyWhenLast(r);
    forall i, j | 0 <= i < j < |r.forms|
      ensures !(Holds(r.forms[i], day) && Holds(r.forms[j], day))
    {
      TilesAscend(r.forms, i, j);
    }
    if r.forms != [] && r.forms[0].startsOn <= day &&
       (r.forms[|r.forms| - 1].endsOn.Some? ==> day <= r.forms[|r.forms| - 1].endsOn.value) {
      DayHasForm(r.forms, |r.forms| - 1, day);
    }
  }

  lemma OpenExactlyWhenLast(r: Roster)
    requires Valid(r)
    ensures r.assignTo == Personnel ==> exists i :: OnlyOpen(r.forms, i)
    ensures r.assignTo == Groups ==> forall j :: 0 <= j < |r.forms| ==> r.forms[j].endsOn.Some?
  {
    forall j | 0 <= j < |r.forms| - 1
      ensures r.forms[j].endsOn.Some?
    {
      assert FollowedBy(r.forms[j], r.forms[j + 1]);
    }
    if r.assignTo == Personnel {
      assert OnlyOpen(r.forms, |r.forms| - 1);
    }
  }

  lemma {:induction false} DayHasForm(forms: seq<Form>, k: nat, day: int)
    requires Tiled(forms) && k < |forms| && forms[0].startsOn <= day
    requires forms[k].endsOn.Some? ==> day <= forms[k].endsOn.value
    ensures exists i :: 0 <= i < |forms| && Holds(forms[i], day)
  {
    if forms[k].startsOn <= day {
      assert Holds(forms[k], day);
    } else {
      assert FollowedBy(forms[k - 1], forms[k]);
      DayHasForm(forms, k - 1, day);
    }
  }
}
