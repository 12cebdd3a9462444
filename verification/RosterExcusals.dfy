/** Who is excused from one roster, and since when. Days are day numbers. */
module RosterExcusals {
  import opened Options
  import Sorting
  import Text

  /** An interval of days; an open one has no end. */
  datatype Excusal = Excusal(personId: string, reason: string, startsOn: int, endsOn: Option<int>)

  /** The reasons asked for, by person, and the persons in the order they were first named. */
  datatype Wanted = Wanted(order: seq<string>, reasons: map<string, string>)

  function WantedOf(excusals: seq<(string, string)>): Wanted {
    if excusals == [] then Wanted([], map[])
    else
      var before, (personId, reason) := WantedOf(excusals[..|excusals| - 1]), excusals[|excusals| - 1];
      Wanted(if personId in before.reasons then before.order else before.order + [personId],
             before.reasons[personId := Text.Trim(reason)])
  }

  ghost predicate WellFormed(w: Wanted) {
    Sorting.Distinct(w.order) && forall p :: p in w.order <==> p in w.reasons
  }

  lemma {:induction false} WantedOfWellFormed(excusals: seq<(string, string)>)
    ensures WellFormed(WantedOf(excusals))
    decreases |excusals|
  {
    if excusals != [] {
      WantedOfWellFormed(excusals[..|excusals| - 1]);
    }
  }

  /** The last mention of a person decides the reason, trimmed. */
  lemma {:induction false} WantedOfIs(excusals: seq<(string, string)>, k: nat)
    requires k < |excusals|
    ensures excusals[k].0 in WantedOf(excusals).reasons
    ensures (forall i :: k < i < |excusals| ==> excusals[i].0 != excusals[k].0) ==>
              WantedOf(excusals).reasons[excusals[k].0] == Text.Trim(excusals[k].1)
    decreases |excusals|
  {
    if k < |excusals| - 1 {
      var init := excusals[..|excusals| - 1];
      WantedOfIs(init, k);
      assert forall i :: k < i < |init| ==> init[i] == excusals[i];
    }
  }

  lemma {:induction false} OnlyNamedAreWanted(excusals: seq<(string, string)>, p: string)
    requires p in WantedOf(excusals).reasons
    ensures exists k :: 0 <= k < |excusals| && excusals[k].0 == p
    decreases |excusals|
  {
    var init, last := excusals[..|excusals| - 1], excusals[|excusals| - 1];
    if p == last.0 {
      assert excusals[|excusals| - 1].0 == p;
    } else {
      OnlyNamedAreWanted(init, p);
      var k :| 0 <= k < |init| && init[k].0 == p;
      assert excusals[k].0 == p;
    }
  }

  // ---------------------------------------------------------------- what the command does

  /** What becomes of a row: an ended one stays; an open one goes, ends yesterday, or takes the wanted reason. */
  function SettleRow(e: Excusal, reasons: map<string, string>, today: int): seq<Excusal> {
    if e.endsOn.Some? then [e]
    else if e.personId in reasons then [e.(reason := reasons[e.personId])]
    else if e.startsOn >= today then []
    else [e.(endsOn := Some(today - 1))]
  }

  /** A person's reason is spent on the first open excusal of theirs. */
  function Spent(e: Excusal, reasons: map<string, string>): map<string, string> {
    if e.endsOn.Some? then reasons else reasons - {e.personId}
  }

  function Settle(rows: seq<Excusal>, reasons: map<string, string>, today: int): seq<Excusal> {
    if rows == [] then []
    else SettleRow(rows[0], reasons, today) + Settle(rows[1..], Spent(rows[0], reasons), today)
  }

  /** The reasons left for persons without an open excusal. */
  function Left(rows: seq<Excusal>, reasons: map<string, string>): map<string, string> {
    if rows == [] then reasons else Left(rows[1..], Spent(rows[0], reasons))
  }

  function Inserts(order: seq<string>, reasons: map<string, string>, today: int): seq<Excusal> {
    if order == [] then []
    else
      (if order[0] in reasons then [Excusal(order[0], reasons[order[0]], today, None)] else []) +
      Inserts(order[1..], reasons, today)
  }

  function Final(rows: seq<Excusal>, w: Wanted, today: int): seq<Excusal> {
    Settle(rows, w.reasons, today) + Inserts(w.order, Left(rows, w.reasons), today)
  }

  /** The rows after some of the writes: part of the old rows settled, */
  ghost predicate SettledUpTo(rows: seq<Excusal>, reasons: map<string, string>, today: int, after: seq<Excusal>) {
    exists j :: 0 <= j <= |rows| && after == Settle(rows[..j], reasons, today) + rows[j..]
  }

  /** or all of them, and part of the new ones added. */
  ghost predicate Interrupted(rows: seq<Excusal>, w: Wanted, today: int, after: seq<Excusal>) {
    || SettledUpTo(rows, w.reasons, today, after)
    || (exists m ::
          0 <= m <= |w.order| &&
          after == Settle(rows, w.reasons, today) + Inserts(w.order[..m], Left(rows, w.reasons), today))
  }

  // ---------------------------------------------------------------- reading lists of rows

  ghost predicate IsOpen(rows: seq<Excusal>, personId: string) {
    exists i :: 0 <= i < |rows| && rows[i].personId == personId && rows[i].endsOn == None
  }

  lemma {:induction false} LeftIs(rows: seq<Excusal>, reasons: map<string, string>)
    ensures Left(rows, reasons).Keys <= reasons.Keys
    ensures forall p :: p in Left(rows, reasons) <==> p in reasons && !IsOpen(rows, p)
    ensures forall p :: p in Left(rows, reasons) ==> Left(rows, reasons)[p] == reasons[p]
  {
    if rows != [] {
      LeftIs(rows[1..], Spent(rows[0], reasons));
      forall p
        ensures IsOpen(rows, p) <==> (rows[0].endsOn == None && rows[0].personId == p) || IsOpen(rows[1..], p)
      {
        IsOpenCons(rows, p);
      }
    }
  }

  lemma IsOpenCons(rows: seq<Excusal>, p: string)
    requires rows != []
    ensures IsOpen(rows, p) <==> (rows[0].endsOn == None && rows[0].personId == p) || IsOpen(rows[1..], p)
  {
    if IsOpen(rows[1..], p) {
      var i :| 0 <= i < |rows[1..]| && rows[1..][i].personId == p && rows[1..][i].endsOn == None;
      assert rows[i + 1].personId == p;
    }
  }

  lemma {:induction false} SettleSplits(a: seq<Excusal>, b: seq<Excusal>, reasons: map<string, string>, today: int)
    ensures Settle(a + b, reasons, today) == Settle(a, reasons, today) + Settle(b, Left(a, reasons), today)
    ensures Left(a + b, reasons) == Left(b, Left(a, reasons))
    decreases |a|
  {
    if a == [] {
      assert a + b == b;
    } else {
      var head, smaller := SettleRow(a[0], reasons, today), Spent(a[0], reasons);
      assert (a + b)[0] == a[0] && (a + b)[1..] == a[1..] + b;
      SettleSplits(a[1..], b, smaller, today);
      Associate(head, Settle(a[1..], smaller, today), Settle(b, Left(a[1..], smaller), today));
    }
  }

  lemma Associate<T>(a: seq<T>, b: seq<T>, c: seq<T>)
    ensures a + (b + c) == (a + b) + c
  {
  }

  lemma {:induction false} InsertsSplit(a: seq<string>, b: seq<string>, reasons: map<string, string>, today: int)
    ensures Inserts(a + b, reasons, today) == Inserts(a, reasons, today) + Inserts(b, reasons, today)
  {
    if a == [] {
      assert a + b == b;
    } else {
      assert (a + b)[1..] == a[1..] + b;
      InsertsSplit(a[1..], b, reasons, today);
    }
  }

  // ---------------------------------------------------------------- retrying

  /** Settled rows are not touched again, and spend the same reasons. */
  lemma {:induction false} SettleAgain(rows: seq<Excusal>, reasons: map<string, string>, today: int)
    ensures var s := Settle(rows, reasons, today);
            Settle(s, reasons, today) == s && Left(s, reasons) == Left(rows, reasons)
    decreases |rows|
  {
    if rows != [] {
      var e, smaller := rows[0], Spent(rows[0], reasons);
      SettleAgain(rows[1..], smaller, today);
      SettleSplits(SettleRow(e, reasons, today), Settle(rows[1..], smaller, today), reasons, today);
      SettleRowAgain(e, reasons, today);
    }
  }

  lemma SettleRowAgain(e: Excusal, reasons: map<string, string>, today: int)
    ensures var row := SettleRow(e, reasons, today);
            Settle(row, reasons, today) == row && Left(row, reasons) == Spent(e, reasons)
  {
    if e.endsOn == None && e.personId !in reasons {
      assert Spent(e, reasons) == reasons;
    }
    var row := SettleRow(e, reasons, today);
    if row != [] {
      assert row[1..] == [];
    }
  }

  /** Rows added for wanted persons are open under the wanted reason, so settling leaves them alone. */
  lemma {:induction false} SettleInserts(order: seq<string>, reasons: map<string, string>, today: int)
    requires Sorting.Distinct(order)
    ensures Settle(Inserts(order, reasons, today), reasons, today) == Inserts(order, reasons, today)
    ensures Left(Inserts(order, reasons, today), reasons) == Except(reasons, order)
    decreases |order|
  {
    if order != [] {
      var p, rest := order[0], order[1..];
      if p in reasons {
        var row, smaller := Excusal(p, reasons[p], today, None), reasons - {p};
        InsertsIgnore(rest, reasons, p, today);
        SettleInserts(rest, smaller, today);
        SettleAdded(row, Inserts(rest, smaller, today), reasons, today);
        assert Inserts(order, reasons, today) == [row] + Inserts(rest, smaller, today);
      } else {
        SettleInserts(rest, reasons, today);
        assert Inserts(order, reasons, today) == Inserts(rest, reasons, today);
      }
      ExceptFirst(reasons, order);
    } else {
      assert Except(reasons, order) == reasons;
    }
  }

  /** The reasons of everyone but these persons. */
  function Except(reasons: map<string, string>, persons: seq<string>): map<string, string> {
    map p | p in reasons && p !in persons :: reasons[p]
  }

  lemma ExceptFirst(reasons: map<string, string>, persons: seq<string>)
    requires persons != []
    ensures Except(reasons, persons) == Except(reasons - {persons[0]}, persons[1..])
    ensures persons[0] !in reasons ==> Except(reasons, persons) == Except(reasons, persons[1..])
  {
    assert forall p :: p in persons <==> p == persons[0] || p in persons[1..];
  }

  /** An open row under its wanted reason stays, and uses that reason up. */
  lemma SettleAdded(row: Excusal, rest: seq<Excusal>, reasons: map<string, string>, today: int)
    requires row.endsOn == None && row.personId in reasons && row.reason == reasons[row.personId]
    ensures Settle([row] + rest, reasons, today) == [row] + Settle(rest, reasons - {row.personId}, today)
    ensures Left([row] + rest, reasons) == Left(rest, reasons - {row.personId})
  {
    assert ([row] + rest)[1..] == rest;
  }

  lemma {:induction false} InsertsIgnore(order: seq<string>, reasons: map<string, string>, p: string, today: int)
    requires p !in order
    ensures Inserts(order, reasons, today) == Inserts(order, reasons - {p}, today)
  {
    if order != [] {
      InsertsIgnore(order[1..], reasons, p, today);
    }
  }

  lemma {:induction false} InsertsDrop(order: seq<string>, gone: seq<string>, reasons: map<string, string>, today: int)
    requires forall p :: p in order ==> p !in gone
    ensures Inserts(order, Except(reasons, gone), today) == Inserts(order, reasons, today)
  {
    if order != [] {
      InsertsDrop(order[1..], gone, reasons, today);
    }
  }

  lemma {:induction false} InsertsNone(order: seq<string>, reasons: map<string, string>, today: int)
    requires forall p :: p in order ==> p !in reasons
    ensures Inserts(order, reasons, today) == []
  {
    if order != [] {
      InsertsNone(order[1..], reasons, today);
    }
  }

  lemma RetryAfterSettling(rows: seq<Excusal>, w: Wanted, today: int, j: nat)
    requires j <= |rows|
    ensures Final(Settle(rows[..j], w.reasons, today) + rows[j..], w, today) == Final(rows, w, today)
  {
    var a, b := rows[..j], rows[j..];
    assert rows == a + b;
    SettleAgain(a, w.reasons, today);
    SettleSplits(a, b, w.reasons, today);
    SettleSplits(Settle(a, w.reasons, today), b, w.reasons, today);
  }

  lemma RetryAfterInserting(rows: seq<Excusal>, w: Wanted, today: int, m: nat)
    requires WellFormed(w) && m <= |w.order|
    ensures Final(Settle(rows, w.reasons, today) + Inserts(w.order[..m], Left(rows, w.reasons), today), w, today)
            == Final(rows, w, today)
  {
    var s, left := Settle(rows, w.reasons, today), Left(rows, w.reasons);
    var first, second := w.order[..m], w.order[m..];
    var added := Inserts(first, left, today);
    assert w.order == first + second;
    SettleAgain(rows, w.reasons, today);
    SettleSplits(s, added, w.reasons, today);
    SettleInserts(first, left, today);
    InsertsResume(first, second, left, today);
    Associate(s, added, Inserts(second, left, today));
  }

  /** Adding the rest after the first persons are no longer left gives what adding all at once does. */
  lemma InsertsResume(first: seq<string>, second: seq<string>, left: map<string, string>, today: int)
    requires Sorting.Distinct(first + second)
    ensures Inserts(first + second, left, today) == Inserts(first, left, today) + Inserts(second, left, today)
    ensures Inserts(first + second, Except(left, first), today) == Inserts(second, left, today)
  {
    var rest := Except(left, first);
    InsertsSplit(first, second, left, today);
    InsertsSplit(first, second, rest, today);
    InsertsNone(first, rest, today);
    forall p | p in second
      ensures p !in first
    {
      var j :| 0 <= j < |second| && second[j] == p;
      forall i | 0 <= i < |first|
        ensures first[i] != p
      {
        assert (first + second)[i] != (first + second)[|first| + j];
      }
    }
    InsertsDrop(second, first, left, today);
  }

  /** Whatever part of the writes was done, running the command again with the same input ends as one whole run does. */
  lemma RetryCompletes(rows: seq<Excusal>, w: Wanted, today: int, after: seq<Excusal>)
    requires WellFormed(w) && Interrupted(rows, w, today, after)
    ensures Final(after, w, today) == Final(rows, w, today)
  {
    if SettledUpTo(rows, w.reasons, today, after) {
      var j :| 0 <= j <= |rows| && after == Settle(rows[..j], w.reasons, today) + rows[j..];
      RetryAfterSettling(rows, w, today, j);
    } else {
      var m :| 0 <= m <= |w.order| &&
        after == Settle(rows, w.reasons, today) + Inserts(w.order[..m], Left(rows, w.reasons), today);
      RetryAfterInserting(rows, w, today, m);
    }
  }

  /** A repeated command changes nothing. */
  lemma RepeatIsNoChange(rows: seq<Excusal>, w: Wanted, today: int)
    requires WellFormed(w)
    ensures Final(Final(rows, w, today), w, today) == Final(rows, w, today)
  {
    assert w.order[..|w.order|] == w.order;
    RetryAfterInserting(rows, w, today, |w.order|);
  }

  // ---------------------------------------------------------------- what holds after it

  /** At most one open excusal per person. */
  ghost predicate OneOpenEach(rows: seq<Excusal>) {
    forall i, j :: 0 <= i < j < |rows| && rows[i].endsOn == None && rows[j].endsOn == None ==>
      rows[i].personId != rows[j].personId
  }

  /** Every interval holds a day. */
  predicate HoldsADay(e: Excusal) {
    e.endsOn.Some? ==> e.startsOn <= e.endsOn.value
  }

  predicate Overlap(a: Excusal, b: Excusal) {
    && a.personId == b.personId
    && (b.endsOn.Some? ==> a.startsOn <= b.endsOn.value)
    && (a.endsOn.Some? ==> b.startsOn <= a.endsOn.value)
  }

  ghost predicate Disjoint(rows: seq<Excusal>) {
    forall i, j :: 0 <= i < j < |rows| ==> !Overlap(rows[i], rows[j])
  }

  ghost predicate OpenWith(rows: seq<Excusal>, reasons: map<string, string>) {
    forall i :: 0 <= i < |rows| && rows[i].endsOn == None ==>
      rows[i].personId in reasons && rows[i].reason == reasons[rows[i].personId]
  }

  lemma {:induction false} SettleOpens(rows: seq<Excusal>, reasons: map<string, string>, today: int)
    ensures OpenWith(Settle(rows, reasons, today), reasons) && OneOpenEach(Settle(rows, reasons, today))
    ensures forall p :: p in reasons ==> (IsOpen(Settle(rows, reasons, today), p) <==> IsOpen(rows, p))
    decreases |rows|
  {
    if rows != [] {
      var e, rest, smaller := rows[0], rows[1..], Spent(rows[0], reasons);
      SettleOpens(rest, smaller, today);
      var head, tail := SettleRow(e, reasons, today), Settle(rest, smaller, today);
      assert Settle(rows, reasons, today) == head + tail;
      forall p | p in reasons
        ensures IsOpen(head + tail, p) <==> IsOpen(rows, p)
      {
        IsOpenCons(rows, p);
        if head != [] {
          IsOpenCons(head + tail, p);
          assert (head + tail)[1..] == tail && (head + tail)[0] == head[0];
        } else {
          assert head + tail == tail;
        }
        if p == e.personId && e.endsOn == None {
          assert head != [] && head[0].endsOn == None;
        }
      }
    }
  }

  lemma {:induction false} InsertsOpen(order: seq<string>, reasons: map<string, string>, today: int)
    requires Sorting.Distinct(order)
    ensures forall i :: 0 <= i < |Inserts(order, reasons, today)| ==>
              var e := Inserts(order, reasons, today)[i];
              e.endsOn == None && e.personId in order && e.personId in reasons && e.reason == reasons[e.personId] &&
                e.startsOn == today
    ensures OneOpenEach(Inserts(order, reasons, today))
    ensures forall p :: p in order && p in reasons ==> IsOpen(Inserts(order, reasons, today), p)
  {
    if order != [] {
      InsertsOpen(order[1..], reasons, today);
      forall p | p in order && p in reasons
        ensures IsOpen(Inserts(order, reasons, today), p)
      {
        if order[0] in reasons {
          IsOpenCons(Inserts(order, reasons, today), p);
          assert Inserts(order, reasons, today)[1..] == Inserts(order[1..], reasons, today);
          assert Inserts(order, reasons, today)[0].personId == order[0];
        } else {
          assert Inserts(order, reasons, today) == Inserts(order[1..], reasons, today);
        }
      }
    }
  }

  /** Rows whose open people differ join into rows with one open excusal each. */
  lemma OpenJoin(a: seq<Excusal>, b: seq<Excusal>, reasons: map<string, string>)
    requires OneOpenEach(a) && OpenWith(a, reasons) && OneOpenEach(b) && OpenWith(b, reasons)
    requires forall p :: !(IsOpen(a, p) && IsOpen(b, p))
    ensures OneOpenEach(a + b) && OpenWith(a + b, reasons)
    ensures forall p :: IsOpen(a + b, p) <==> IsOpen(a, p) || IsOpen(b, p)
  {
    forall p
      ensures IsOpen(a + b, p) <==> IsOpen(a, p) || IsOpen(b, p)
    {
      IsOpenJoin(a, b, p);
    }
    forall i, j | 0 <= i < j < |a + b| && (a + b)[i].endsOn == None && (a + b)[j].endsOn == None
      ensures (a + b)[i].personId != (a + b)[j].personId
    {
      if i < |a| <= j {
        assert a[i].endsOn == None && b[j - |a|].endsOn == None;
        assert IsOpen(a, a[i].personId) && IsOpen(b, b[j - |a|].personId);
      }
    }
  }

  lemma IsOpenJoin(a: seq<Excusal>, b: seq<Excusal>, p: string)
    ensures IsOpen(a + b, p) <==> IsOpen(a, p) || IsOpen(b, p)
  {
    if IsOpen(a, p) {
      var i :| 0 <= i < |a| && a[i].personId == p && a[i].endsOn == None;
      assert (a + b)[i] == a[i];
    }
    if IsOpen(b, p) {
      var i :| 0 <= i < |b| && b[i].personId == p && b[i].endsOn == None;
      assert (a + b)[|a| + i] == b[i];
    }
  }

  /** The open excusals become exactly the wanted ones, one per person. */
  lemma OpenExactlyWanted(rows: seq<Excusal>, w: Wanted, today: int)
    requires WellFormed(w)
    ensures OneOpenEach(Final(rows, w, today)) && OpenWith(Final(rows, w, today), w.reasons)
    ensures forall p :: p in w.reasons <==> IsOpen(Final(rows, w, today), p)
  {
    var s, added := Settle(rows, w.reasons, today), Inserts(w.order, Left(rows, w.reasons), today);
    SettleOpens(rows, w.reasons, today);
    LeftIs(rows, w.reasons);
    InsertsOpen(w.order, Left(rows, w.reasons), today);
    forall p
      ensures !(IsOpen(s, p) && IsOpen(added, p))
    {
    }
    assert OpenWith(added, w.reasons);
    OpenJoin(s, added, w.reasons);
  }

  /** `e` is `was`, or `was` ended yesterday: same person, same start, no later end. */
  predicate From(e: Excusal, was: Excusal, today: int) {
    && e.personId == was.personId && e.startsOn == was.startsOn
    && (e.endsOn == was.endsOn || (was.endsOn == None && e.endsOn == Some(today - 1) && e.startsOn < today))
  }

  ghost predicate FromSome(e: Excusal, rows: seq<Excusal>, today: int) {
    exists i :: 0 <= i < |rows| && From(e, rows[i], today)
  }

  lemma {:induction false} SettleComesFrom(rows: seq<Excusal>, reasons: map<string, string>, today: int)
    ensures forall i :: 0 <= i < |Settle(rows, reasons, today)| ==>
            FromSome(Settle(rows, reasons, today)[i], rows, today)
    ensures Disjoint(rows) ==> Disjoint(Settle(rows, reasons, today))
    decreases |rows|
  {
    if rows != [] {
      var rest := rows[1..];
      var head, tail := SettleRow(rows[0], reasons, today), Settle(rest, Spent(rows[0], reasons), today);
      SettleComesFrom(rest, Spent(rows[0], reasons), today);
      forall i | 0 <= i < |tail|
        ensures FromSome(tail[i], rows, today)
        ensures Disjoint(rows) && head != [] ==> !Overlap(head[0], tail[i])
      {
        var k :| 0 <= k < |rest| && From(tail[i], rest[k], today);
        assert From(tail[i], rows[k + 1], today);
        if Disjoint(rows) {
          assert !Overlap(rows[0], rows[k + 1]);
        }
      }
      assert head != [] ==> From(head[0], rows[0], today);
      SettledTogether(rows, head, tail, today);
    }
  }

  lemma SettledTogether(rows: seq<Excusal>, head: seq<Excusal>, tail: seq<Excusal>, today: int)
    requires rows != [] && |head| <= 1 && (head != [] ==> From(head[0], rows[0], today))
    requires forall i :: 0 <= i < |tail| ==> FromSome(tail[i], rows, today)
    requires Disjoint(rows) ==> Disjoint(tail)
    requires Disjoint(rows) ==> forall i :: 0 <= i < |tail| && head != [] ==> !Overlap(head[0], tail[i])
    ensures forall i :: 0 <= i < |head + tail| ==> FromSome((head + tail)[i], rows, today)
    ensures Disjoint(rows) ==> Disjoint(head + tail)
  {
  }

  lemma FinalHoldsDays(rows: seq<Excusal>, w: Wanted, today: int)
    requires WellFormed(w) && forall i :: 0 <= i < |rows| ==> HoldsADay(rows[i])
    ensures forall i :: 0 <= i < |Final(rows, w, today)| ==> HoldsADay(Final(rows, w, today)[i])
  {
    SettleComesFrom(rows, w.reasons, today);
    InsertsOpen(w.order, Left(rows, w.reasons), today);
    var s := Settle(rows, w.reasons, today);
    forall i | 0 <= i < |s|
      ensures HoldsADay(s[i])
    {
      var k :| 0 <= k < |rows| && From(s[i], rows[k], today);
      assert HoldsADay(rows[k]);
    }
  }

  /** A person to be added again has no interval that reaches `today`. */
  ghost predicate RoomFor(rows: seq<Excusal>, w: Wanted, today: int) {
    forall i :: 0 <= i < |rows| && rows[i].endsOn.Some? && rows[i].personId in Left(rows, w.reasons) ==>
      rows[i].endsOn.value < today
  }

  lemma {:induction false} ClosedRowStays(rows: seq<Excusal>, reasons: map<string, string>, today: int, i: nat)
    returns (j: nat)
    requires i < |rows| && rows[i].endsOn.Some?
    ensures j < |Settle(rows, reasons, today)| && Settle(rows, reasons, today)[j] == rows[i]
    decreases |rows|
  {
    if i == 0 {
      j := 0;
    } else {
      var k := ClosedRowStays(rows[1..], Spent(rows[0], reasons), today, i - 1);
      j := |SettleRow(rows[0], reasons, today)| + k;
    }
  }

  /** No two intervals of a person overlap afterwards exactly when nobody is added again on a day they were excused. */
  lemma DisjointIffRoom(rows: seq<Excusal>, w: Wanted, today: int)
    requires WellFormed(w) && Disjoint(rows) && forall i :: 0 <= i < |rows| ==> HoldsADay(rows[i])
    ensures Disjoint(Final(rows, w, today)) <==> RoomFor(rows, w, today)
  {
    if RoomFor(rows, w, today) {
      RoomKeepsDisjoint(rows, w, today);
    } else {
      NoRoomOverlaps(rows, w, today);
    }
  }

  lemma RoomKeepsDisjoint(rows: seq<Excusal>, w: Wanted, today: int)
    requires WellFormed(w) && Disjoint(rows) && forall i :: 0 <= i < |rows| ==> HoldsADay(rows[i])
    requires RoomFor(rows, w, today)
    ensures Disjoint(Final(rows, w, today))
  {
    var s, left := Settle(rows, w.reasons, today), Left(rows, w.reasons);
    var added := Inserts(w.order, left, today);
    InsertsOpen(w.order, left, today);
    SettleComesFrom(rows, w.reasons, today);
    forall i, j | 0 <= i < j < |s + added|
      ensures !Overlap((s + added)[i], (s + added)[j])
    {
      if i < |s| <= j {
        AddedIsClear(rows, w, today, s[i], added[j - |s|]);
      } else if |s| <= i {
        assert added[i - |s|].personId != added[j - |s|].personId;
      }
    }
  }

  lemma NoRoomOverlaps(rows: seq<Excusal>, w: Wanted, today: int)
    requires WellFormed(w) && !RoomFor(rows, w, today)
    requires forall i :: 0 <= i < |rows| ==> HoldsADay(rows[i])
    ensures !Disjoint(Final(rows, w, today))
  {
    var left := Left(rows, w.reasons);
    var i :| 0 <= i < |rows| && rows[i].endsOn.Some? && rows[i].personId in left && today <= rows[i].endsOn.value;
    var j := ClosedRowStays(rows, w.reasons, today, i);
    LeftIs(rows, w.reasons);
    var k := InsertFor(w.order, left, today, rows[i].personId);
    OverlapInBoth(Settle(rows, w.reasons, today), Inserts(w.order, left, today), j, k);
  }

  lemma {:induction false} InsertFor(order: seq<string>, reasons: map<string, string>, today: int, p: string)
    returns (k: nat)
    requires p in order && p in reasons
    ensures k < |Inserts(order, reasons, today)|
    ensures Inserts(order, reasons, today)[k] == Excusal(p, reasons[p], today, None)
  {
    if order[0] == p {
      k := 0;
    } else {
      var rest := InsertFor(order[1..], reasons, today, p);
      k := |Inserts(order, reasons, today)| - |Inserts(order[1..], reasons, today)| + rest;
    }
  }

  lemma OverlapInBoth(a: seq<Excusal>, b: seq<Excusal>, j: nat, k: nat)
    requires j < |a| && k < |b| && Overlap(a[j], b[k])
    ensures !Disjoint(a + b)
  {
    assert Overlap((a + b)[j], (a + b)[|a| + k]);
  }

  lemma AddedIsClear(rows: seq<Excusal>, w: Wanted, today: int, e: Excusal, added: Excusal)
    requires RoomFor(rows, w, today) && FromSome(e, rows, today)
    requires added.personId in Left(rows, w.reasons) && added.startsOn == today
    ensures !Overlap(e, added)
  {
    LeftIs(rows, w.reasons);
    var i :| 0 <= i < |rows| && From(e, rows[i], today);
    if e.personId == added.personId {
      assert rows[i].endsOn.Some?;
    }
  }

  // ---------------------------------------------------------------- how many writes it takes

  /** The rows that settling ends, deletes or relabels. */
  function Changes(rows: seq<Excusal>, reasons: map<string, string>, today: int): nat {
    if rows == [] then 0
    else
      (if SettleRow(rows[0], reasons, today) == [rows[0]] then 0 else 1) +
      Changes(rows[1..], Spent(rows[0], reasons), today)
  }

  /** The writes of one whole command: a row for each change and each person added. */
  function Writes(rows: seq<Excusal>, w: Wanted, today: int): nat {
    Changes(rows, w.reasons, today) + |Inserts(w.order, Left(rows, w.reasons), today)|
  }

  lemma {:induction false} ChangesSplit(a: seq<Excusal>, b: seq<Excusal>, reasons: map<string, string>, today: int)
    ensures Changes(a + b, reasons, today) == Changes(a, reasons, today) + Changes(b, Left(a, reasons), today)
    decreases |a|
  {
    if a == [] {
      assert a + b == b;
    } else {
      ChangesSplit(a[1..], b, Spent(a[0], reasons), today);
      assert (a + b)[1..] == a[1..] + b;
    }
  }

  lemma {:induction false} ChangesAtMost(rows: seq<Excusal>, reasons: map<string, string>, today: int)
    ensures Changes(rows, reasons, today) <= |rows|
    decreases |rows|
  {
    if rows != [] {
      ChangesAtMost(rows[1..], Spent(rows[0], reasons), today);
    }
  }

  lemma {:induction false} InsertsAtMost(order: seq<string>, reasons: map<string, string>, today: int)
    ensures |Inserts(order, reasons, today)| <= |order|
  {
    if order != [] {
      InsertsAtMost(order[1..], reasons, today);
    }
  }

  // ---------------------------------------------------------------- what becomes of each person

  /** The person is excused that day. */
  ghost predicate ExcusedOn(rows: seq<Excusal>, p: string, day: int) {
    exists e :: e in rows && Covers(e, p, day)
  }

  /** `e` is a row of before that had ended, or an open one that started earlier and ended yesterday. */
  ghost predicate Ended(rows: seq<Excusal>, e: Excusal, today: int) {
    || (e in rows && e.endsOn.Some?)
    || (e.endsOn == Some(today - 1) && e.startsOn < today && e.(endsOn := None) in rows)
  }

  /** The person has an open row with this start. */
  ghost predicate OpenSince(rows: seq<Excusal>, p: string, startsOn: int) {
    exists was :: was in rows && was.personId == p && was.endsOn == None && was.startsOn == startsOn
  }

  /** The row covers the day for the person. */
  predicate Covers(e: Excusal, p: string, day: int) {
    e.personId == p && e.startsOn <= day && (e.endsOn.Some? ==> day <= e.endsOn.value)
  }

  /** Of a person no longer wanted, exactly the ended rows and the open ones that started earlier remain, all ended. */
  lemma {:induction false} UnwantedEnds(rows: seq<Excusal>, reasons: map<string, string>, today: int, e: Excusal)
    requires e.personId !in reasons
    ensures e in Settle(rows, reasons, today) <==> Ended(rows, e, today)
    decreases |rows|
  {
    if rows != [] {
      UnwantedEnds(rows[1..], Spent(rows[0], reasons), today, e);
      assert rows == [rows[0]] + rows[1..];
    }
  }

  /** Of a wanted person with one open row at most, that row stays open from its start on, under the wanted reason. */
  lemma {:induction false} WantedStays(rows: seq<Excusal>, reasons: map<string, string>, today: int, e: Excusal)
    requires OneOpenEach(rows) && e.personId in reasons
    ensures e in Settle(rows, reasons, today) <==>
            || (e in rows && e.endsOn.Some?)
            || (e.endsOn == None && e.reason == reasons[e.personId] &&
                OpenSince(rows, e.personId, e.startsOn))
    decreases |rows|
  {
    if rows != [] {
      var rest, p := rows[1..], e.personId;
      assert rows == [rows[0]] + rest;
      if rows[0].personId == p && rows[0].endsOn == None {
        UnwantedEnds(rest, Spent(rows[0], reasons), today, e);
        forall was | was in rest && was.personId == p
          ensures was.endsOn.Some?
        {
          var i :| 0 <= i < |rest| && rest[i] == was;
          assert rows[i + 1] == was;
        }
      } else {
        WantedStays(rest, Spent(rows[0], reasons), today, e);
      }
    }
  }

  lemma {:induction false} InsertsAre(order: seq<string>, reasons: map<string, string>, today: int, e: Excusal)
    ensures e in Inserts(order, reasons, today) <==>
            e.personId in order && e.personId in reasons && e == Excusal(e.personId, reasons[e.personId], today, None)
  {
    if order != [] {
      InsertsAre(order[1..], reasons, today, e);
      assert order == [order[0]] + order[1..];
    }
  }

  /** The rows of a person who is not wanted: what had ended stays, what is open and started earlier ends yesterday. */
  lemma UnwantedRows(rows: seq<Excusal>, w: Wanted, today: int, e: Excusal)
    requires WellFormed(w) && e.personId !in w.reasons
    ensures e in Final(rows, w, today) <==>
            || (e in rows && e.endsOn.Some?)
            || (e.endsOn == Some(today - 1) && e.startsOn < today && e.(endsOn := None) in rows)
  {
    UnwantedEnds(rows, w.reasons, today, e);
    LeftIs(rows, w.reasons);
    InsertsAre(w.order, Left(rows, w.reasons), today, e);
  }

  /**
   * The rows of a wanted person: what had ended stays, and one row is open under the wanted reason, since when an open
   * one was, or else since today.
   */
  lemma WantedRows(rows: seq<Excusal>, w: Wanted, today: int, e: Excusal)
    requires WellFormed(w) && e.personId in w.reasons && OneOpenEach(rows)
    ensures e in Final(rows, w, today) <==>
            if e.endsOn.Some? then e in rows
            else
              && e.reason == w.reasons[e.personId]
              && if IsOpen(rows, e.personId)
                 then OpenSince(rows, e.personId, e.startsOn)
                 else e.startsOn == today
  {
    WantedStays(rows, w.reasons, today, e);
    LeftIs(rows, w.reasons);
    InsertsAre(w.order, Left(rows, w.reasons), today, e);
    if was :| was in rows && was.personId == e.personId && was.endsOn == None {
      var i :| 0 <= i < |rows| && rows[i] == was;
      assert IsOpen(rows, e.personId);
    }
  }

  /** No day before today is lost or won: everyone was excused on it exactly if they are afterwards. */
  lemma PastDaysKept(rows: seq<Excusal>, w: Wanted, today: int, p: string, day: int)
    requires WellFormed(w) && day < today
    ensures ExcusedOn(Final(rows, w, today), p, day) <==> ExcusedOn(rows, p, day)
  {
    var left := Left(rows, w.reasons);
    SettleKeepsPast(rows, w.reasons, today, p, day);
    forall e | e in Inserts(w.order, left, today)
      ensures e.startsOn == today
    {
      InsertsAre(w.order, left, today, e);
    }
    if ExcusedOn(Settle(rows, w.reasons, today), p, day) {
      var e :| e in Settle(rows, w.reasons, today) && Covers(e, p, day);
      assert e in Final(rows, w, today);
    }
  }

  lemma ExcusedInEither(a: seq<Excusal>, b: seq<Excusal>, p: string, day: int)
    ensures ExcusedOn(a + b, p, day) <==> ExcusedOn(a, p, day) || ExcusedOn(b, p, day)
  {
    if ExcusedOn(a, p, day) {
      var e :| e in a && Covers(e, p, day);
      assert e in a + b;
    }
    if ExcusedOn(b, p, day) {
      var e :| e in b && Covers(e, p, day);
      assert e in a + b;
    }
  }

  lemma {:induction false} SettleKeepsPast(rows: seq<Excusal>, reasons: map<string, string>, today: int, p: string,
                                           day: int)
    requires day < today
    ensures ExcusedOn(Settle(rows, reasons, today), p, day) <==> ExcusedOn(rows, p, day)
    decreases |rows|
  {
    if rows != [] {
      var head := SettleRow(rows[0], reasons, today);
      SettleKeepsPast(rows[1..], Spent(rows[0], reasons), today, p, day);
      ExcusedInEither(head, Settle(rows[1..], Spent(rows[0], reasons), today), p, day);
      ExcusedInEither([rows[0]], rows[1..], p, day);
      assert rows == [rows[0]] + rows[1..];
      assert rows[0] in [rows[0]] && (head != [] ==> head[0] in head);
    }
  }

  // ---------------------------------------------------------------- every run

  /** `today` never goes back from one command to the next. */
  ghost predicate Forward(runs: seq<(Wanted, int)>, from: int) {
    && (forall k :: 0 <= k < |runs| ==> WellFormed(runs[k].0) && from <= runs[k].1)
    && (forall k, l :: 0 <= k < l < |runs| ==> runs[k].1 <= runs[l].1)
  }

  function RunAll(rows: seq<Excusal>, runs: seq<(Wanted, int)>): seq<Excusal>
    decreases |runs|
  {
    if runs == [] then rows else RunAll(Final(rows, runs[0].0, runs[0].1), runs[1..])
  }

  ghost predicate Sound(rows: seq<Excusal>, today: int) {
    && Disjoint(rows) && OneOpenEach(rows)
    && (forall i :: 0 <= i < |rows| ==> HoldsADay(rows[i]) && (rows[i].endsOn.Some? ==> rows[i].endsOn.value < today))
  }

  lemma FinalIsSound(rows: seq<Excusal>, w: Wanted, today: int)
    requires WellFormed(w) && Sound(rows, today)
    ensures Sound(Final(rows, w, today), today)
  {
    var s := Settle(rows, w.reasons, today);
    DisjointIffRoom(rows, w, today);
    OpenExactlyWanted(rows, w, today);
    FinalHoldsDays(rows, w, today);
    SettleComesFrom(rows, w.reasons, today);
    InsertsOpen(w.order, Left(rows, w.reasons), today);
    forall i | 0 <= i < |s| && s[i].endsOn.Some?
      ensures s[i].endsOn.value < today
    {
      var k :| 0 <= k < |rows| && From(s[i], rows[k], today);
    }
  }

  lemma SoundLater(rows: seq<Excusal>, today: int, later: int)
    requires Sound(rows, today) && today <= later
    ensures Sound(rows, later)
  {
  }

  /** As long as `today` never goes back, no run of commands makes a person's intervals overlap or leaves one empty. */
  lemma {:induction false} RunIsSound(rows: seq<Excusal>, runs: seq<(Wanted, int)>, from: int)
    requires Sound(rows, from) && Forward(runs, from)
    ensures Sound(RunAll(rows, runs), if runs == [] then from else runs[|runs| - 1].1)
    decreases |runs|
  {
    if runs != [] {
      var today := runs[0].1;
      SoundLater(rows, from, today);
      FinalIsSound(rows, runs[0].0, today);
      RunIsSound(Final(rows, runs[0].0, today), runs[1..], today);
    }
  }

  /** When `today` goes back a day the promise fails: ended on day 9, excused again from day 9. */
  lemma GoingBackOverlaps()
    ensures var rows := [Excusal("p", "leave", 1, None)];
            var ended := Final(rows, Wanted([], map[]), 10);
            var again := Final(ended, Wanted(["p"], map["p" := "leave"]), 9);
            ended == [Excusal("p", "leave", 1, Some(9))] && !Disjoint(again)
  {
    var rows := [Excusal("p", "leave", 1, None)];
    var ended := Final(rows, Wanted([], map[]), 10);
    assert Settle(rows[1..], map[], 10) == [];
    assert ended == [Excusal("p", "leave", 1, Some(9))];
    var w := Wanted(["p"], map["p" := "leave"]);
    assert Left(ended[1..], w.reasons) == w.reasons;
    DisjointIffRoom(ended, w, 9);
  }
}
