/** Importing reviewed availability entries over the saved ones. Days are day numbers. */
module AvailabilityImport {
  import opened Options
  import Sorting
  import Sets

  datatype Row = Row(id: nat, personId: string, statusType: string, startDate: int, endDate: int, note: Option<string>)

  /** A saved entry as it stood when the import was looked over. */
  datatype Reviewed = Reviewed(id: nat, statusType: string, startDate: int, endDate: int, note: Option<string>)

  datatype Dates = Dates(statusType: string, startDate: int, endDate: int)

  datatype Overlap = NoOverlap | Keep | Replace

  datatype Entry = Entry(personId: string, dates: Dates, note: Option<string>, overlap: Overlap,
                         reviewed: seq<Reviewed>, alongside: seq<Dates>)

  // ---------------------------------------------------------------- judging one entry

  function DatesOf(row: Row): Dates {
    Dates(row.statusType, row.startDate, row.endDate)
  }

  predicate Overlaps(row: Row, e: Entry) {
    row.personId == e.personId && row.startDate <= e.dates.endDate && row.endDate >= e.dates.startDate
  }

  function Replaces(e: Entry): seq<Reviewed> {
    if e.overlap == Replace then e.reviewed else []
  }

  predicate HasId(saved: seq<Row>, id: nat) {
    exists i :: 0 <= i < |saved| && saved[i].id == id
  }

  /** The saved row is still what was reviewed, and still one the entry overlaps. */
  predicate AsReviewed(row: Row, reviewed: Reviewed, e: Entry) {
    Overlaps(row, e) && DatesOf(row) == Dates(reviewed.statusType, reviewed.startDate, reviewed.endDate) &&
      row.note == reviewed.note
  }

  predicate ChangedSince(saved: seq<Row>, e: Entry) {
    exists i, j :: 0 <= i < |saved| && 0 <= j < |Replaces(e)| && saved[i].id == Replaces(e)[j].id &&
      !AsReviewed(saved[i], Replaces(e)[j], e)
  }

  predicate Duplicate(saved: seq<Row>, e: Entry) {
    exists i :: 0 <= i < |saved| && Overlaps(saved[i], e) && DatesOf(saved[i]) == e.dates
  }

  predicate WasReviewed(row: Row, e: Entry) {
    (exists j :: 0 <= j < |Replaces(e)| && Replaces(e)[j].id == row.id) || DatesOf(row) in e.alongside
  }

  predicate Unreviewed(saved: seq<Row>, e: Entry) {
    e.overlap != Keep && exists i :: 0 <= i < |saved| && Overlaps(saved[i], e) && !WasReviewed(saved[i], e)
  }

  predicate IsStale(saved: seq<Row>, e: Entry) {
    ChangedSince(saved, e) || Duplicate(saved, e) || Unreviewed(saved, e)
  }

  // ---------------------------------------------------------------- the whole import

  function StaleIndices(saved: seq<Row>, entries: seq<Entry>): seq<nat> {
    if entries == [] then []
    else StaleIndices(saved, entries[..|entries| - 1]) +
         (if IsStale(saved, entries[|entries| - 1]) then [|entries| - 1] else [])
  }

  function Accepted(saved: seq<Row>, entries: seq<Entry>): seq<Entry> {
    if entries == [] then []
    else Accepted(saved, entries[..|entries| - 1]) +
         (if IsStale(saved, entries[|entries| - 1]) then [] else [entries[|entries| - 1]])
  }

  function IdsOf(reviewed: seq<Reviewed>): set<nat> {
    set r | r in reviewed :: r.id
  }

  /** The saved rows that accepted entries replace, by id. */
  function ReplacedIds(saved: seq<Row>, entries: seq<Entry>): set<nat> {
    if entries == [] then {}
    else
      var e := entries[|entries| - 1];
      ReplacedIds(saved, entries[..|entries| - 1]) + ReplacedBy(saved, e)
  }

  function Without(rows: seq<Row>, ids: set<nat>): seq<Row> {
    if rows == [] then []
    else Without(rows[..|rows| - 1], ids) + (if rows[|rows| - 1].id in ids then [] else [rows[|rows| - 1]])
  }

  function Created(entries: seq<Entry>, nextId: nat): seq<Row> {
    seq(|entries|, i requires 0 <= i < |entries| =>
      var e := entries[i];
      Row(nextId + i, e.personId, e.dates.statusType, e.dates.startDate, e.dates.endDate, e.note))
  }

  function TotalReplaces(entries: seq<Entry>): nat {
    if entries == [] then 0 else TotalReplaces(entries[..|entries| - 1]) + |entries[|entries| - 1].reviewed|
  }

  ghost predicate Increasing(indices: seq<nat>, bound: nat) {
    (forall i :: 0 <= i < |indices| ==> indices[i] < bound) &&
    forall i, j :: 0 <= i < j < |indices| ==> indices[i] < indices[j]
  }

  datatype Result = Result(inserted: nat, deleted: nat, stale: seq<nat>)

  /** What the provider's answer to an import is checked for. */
  ghost predicate Acknowledged(entries: seq<Entry>, r: Result) {
    Increasing(r.stale, |entries|) && r.inserted + |r.stale| == |entries| && r.deleted <= TotalReplaces(entries)
  }

  ghost predicate DistinctRows(rows: seq<Row>, nextId: nat) {
    (forall i :: 0 <= i < |rows| ==> rows[i].id < nextId) &&
    forall i, j :: 0 <= i < j < |rows| ==> rows[i].id != rows[j].id
  }

  lemma {:induction false} StaleIncrease(saved: seq<Row>, entries: seq<Entry>)
    ensures Increasing(StaleIndices(saved, entries), |entries|)
    ensures |Accepted(saved, entries)| + |StaleIndices(saved, entries)| == |entries|
    decreases |entries|
  {
    if entries != [] {
      StaleIncrease(saved, entries[..|entries| - 1]);
    }
  }

  lemma {:induction false} StaleIndicesAre(saved: seq<Row>, entries: seq<Entry>)
    ensures forall i :: i in StaleIndices(saved, entries) <==> 0 <= i < |entries| && IsStale(saved, entries[i])
    decreases |entries|
  {
    if entries != [] {
      var init := entries[..|entries| - 1];
      StaleIndicesAre(saved, init);
      forall i
        ensures i in StaleIndices(saved, entries) <==> 0 <= i < |entries| && IsStale(saved, entries[i])
      {
        assert 0 <= i < |init| ==> init[i] == entries[i];
      }
    }
  }

  lemma {:induction false} IdsOfIsSmall(reviewed: seq<Reviewed>)
    ensures |IdsOf(reviewed)| <= |reviewed|
    decreases |reviewed|
  {
    if reviewed != [] {
      var init, last := reviewed[..|reviewed| - 1], reviewed[|reviewed| - 1];
      IdsOfIsSmall(init);
      assert reviewed == init + [last];
      assert IdsOf(reviewed) == IdsOf(init) + {last.id};
    } else {
      assert IdsOf(reviewed) == {};
    }
  }

  /** The saved rows that an entry, if accepted, replaces. */
  function ReplacedBy(saved: seq<Row>, e: Entry): set<nat> {
    if IsStale(saved, e) then {} else set id | id in IdsOf(Replaces(e)) && HasId(saved, id)
  }

  lemma {:induction false} ReplacedIsSmall(saved: seq<Row>, entries: seq<Entry>)
    ensures |ReplacedIds(saved, entries)| <= TotalReplaces(entries)
    decreases |entries|
  {
    if entries != [] {
      var init, e := entries[..|entries| - 1], entries[|entries| - 1];
      ReplacedIsSmall(saved, init);
      IdsOfIsSmall(Replaces(e));
      Sets.SubsetIsNoLarger(ReplacedBy(saved, e), IdsOf(Replaces(e)));
      UnionIsNoLarger(ReplacedIds(saved, init), ReplacedBy(saved, e));
    }
  }

  lemma UnionIsNoLarger(a: set<nat>, b: set<nat>)
    ensures |a + b| <= |a| + |b|
  {
  }

  lemma {:induction false} ReplacedByAccepted(saved: seq<Row>, entries: seq<Entry>, id: nat)
    ensures id in ReplacedIds(saved, entries) <==> exists e :: e in entries && id in ReplacedBy(saved, e)
    decreases |entries|
  {
    if entries != [] {
      var init := entries[..|entries| - 1];
      ReplacedByAccepted(saved, init, id);
      assert entries == init + [entries[|entries| - 1]];
    }
  }

  /** The entry is accepted, replaces what it overlaps, and names this id. */
  ghost predicate AcceptedReplacing(saved: seq<Row>, e: Entry, id: nat) {
    !IsStale(saved, e) && e.overlap == Replace && exists r :: r in e.reviewed && r.id == id
  }

  /** The rows to delete are the saved ones that an accepted entry replaces. */
  lemma ReplacedAre(saved: seq<Row>, entries: seq<Entry>, id: nat)
    ensures id in ReplacedIds(saved, entries) <==>
            (exists row :: row in saved && row.id == id) && exists e :: e in entries && AcceptedReplacing(saved, e, id)
  {
    ReplacedByAccepted(saved, entries, id);
    if row :| row in saved && row.id == id {
      var i :| 0 <= i < |saved| && saved[i] == row;
      assert HasId(saved, id);
    }
    if HasId(saved, id) {
      var i :| 0 <= i < |saved| && saved[i].id == id;
      assert saved[i] in saved;
    }
    forall e
      ensures id in ReplacedBy(saved, e) <==> AcceptedReplacing(saved, e, id) && HasId(saved, id)
    {
      assert e.overlap == Replace ==> Replaces(e) == e.reviewed;
    }
  }

  /** Removing rows by id removes as many as there are ids, if each is the id of one row. */
  lemma {:induction false} WithoutCounts(rows: seq<Row>, ids: set<nat>)
    requires forall i, j :: 0 <= i < j < |rows| ==> rows[i].id != rows[j].id
    requires forall id :: id in ids ==> HasId(rows, id)
    ensures |Without(rows, ids)| == |rows| - |ids|
    decreases |rows|
  {
    if rows == [] {
      assert forall id :: id in ids ==> HasId(rows, id);
      assert ids == {};
    } else {
      var init, last := rows[..|rows| - 1], rows[|rows| - 1];
      forall id | id in ids - {last.id}
        ensures HasId(init, id)
      {
        var i :| 0 <= i < |rows| && rows[i].id == id;
        assert init[i].id == id;
      }
      forall i | 0 <= i < |init|
        ensures init[i].id != last.id
      {
        assert rows[i].id != rows[|rows| - 1].id;
      }
      WithoutCounts(init, ids - {last.id});
      WithoutIgnores(init, ids, last.id);
    }
  }

  lemma {:induction false} WithoutIgnores(rows: seq<Row>, ids: set<nat>, id: nat)
    requires forall i :: 0 <= i < |rows| ==> rows[i].id != id
    ensures Without(rows, ids) == Without(rows, ids - {id})
    decreases |rows|
  {
    if rows != [] {
      WithoutIgnores(rows[..|rows| - 1], ids, id);
    }
  }

  lemma {:induction false} WithoutIs(rows: seq<Row>, ids: set<nat>)
    ensures forall row :: row in Without(rows, ids) <==> row in rows && row.id !in ids
    decreases |rows|
  {
    if rows != [] {
      WithoutIs(rows[..|rows| - 1], ids);
      assert rows == rows[..|rows| - 1] + [rows[|rows| - 1]];
    }
  }

  /**
   * An accepted entry that does not keep what it overlaps had every overlap reviewed, unchanged, or listed alongside.
   */
  lemma AcceptedWasReviewed(saved: seq<Row>, e: Entry, row: Row)
    requires !IsStale(saved, e) && row in saved && Overlaps(row, e)
    ensures DatesOf(row) != e.dates
    ensures e.overlap != Keep ==>
            DatesOf(row) in e.alongside || exists r :: r in Replaces(e) && r.id == row.id && AsReviewed(row, r, e)
  {
    var i :| 0 <= i < |saved| && saved[i] == row;
    if e.overlap != Keep && DatesOf(row) !in e.alongside {
      assert WasReviewed(saved[i], e);
      var j :| 0 <= j < |Replaces(e)| && Replaces(e)[j].id == row.id;
      assert AsReviewed(saved[i], Replaces(e)[j], e);
      assert Replaces(e)[j] in Replaces(e);
    }
  }

  predicate Within(day: int, first: int, last: int) {
    first <= day <= last
  }

  /** Two intervals that hold a day overlap exactly when they share one. */
  lemma OverlapsIffShareDay(row: Row, e: Entry)
    requires row.startDate <= row.endDate && e.dates.startDate <= e.dates.endDate
    ensures Overlaps(row, e) <==>
            row.personId == e.personId &&
            exists day :: Within(day, row.startDate, row.endDate) && Within(day, e.dates.startDate, e.dates.endDate)
  {
    if Overlaps(row, e) {
      var day := if row.startDate < e.dates.startDate then e.dates.startDate else row.startDate;
      assert Within(day, row.startDate, row.endDate) && Within(day, e.dates.startDate, e.dates.endDate);
    }
  }

  /** The row still says what was looked over. */
  predicate StillSays(row: Row, r: Reviewed) {
    && row.statusType == r.statusType && row.startDate == r.startDate && row.endDate == r.endDate && row.note == r.note
  }

  /**
   * An entry is accepted exactly when all it replaces is unchanged and still overlaps it, nothing it overlaps has its
   * status and dates, and, unless overlaps are kept, whatever it overlaps is replaced or was listed alongside.
   */
  lemma AcceptedIff(saved: seq<Row>, e: Entry)
    ensures !IsStale(saved, e) <==>
            && (forall row, r :: row in saved && e.overlap == Replace && r in e.reviewed && row.id == r.id ==>
                  StillSays(row, r) && Overlaps(row, e))
            && (forall row :: row in saved && Overlaps(row, e) ==>
                  !(row.statusType == e.dates.statusType && row.startDate == e.dates.startDate &&
                    row.endDate == e.dates.endDate))
            && (e.overlap != Keep ==>
                  forall row :: row in saved && Overlaps(row, e) ==>
                    || (e.overlap == Replace && exists r :: r in e.reviewed && r.id == row.id)
                    || Dates(row.statusType, row.startDate, row.endDate) in e.alongside)
  {
    ChangedIff(saved, e);
    DuplicateIff(saved, e);
    UnreviewedIff(saved, e);
  }

  lemma ChangedIff(saved: seq<Row>, e: Entry)
    ensures !ChangedSince(saved, e) <==>
            forall row, r :: row in saved && e.overlap == Replace && r in e.reviewed && row.id == r.id ==>
              StillSays(row, r) && Overlaps(row, e)
  {
    if !ChangedSince(saved, e) {
      forall row, r | row in saved && e.overlap == Replace && r in e.reviewed && row.id == r.id
        ensures StillSays(row, r) && Overlaps(row, e)
      {
        var i :| 0 <= i < |saved| && saved[i] == row;
        var j :| 0 <= j < |e.reviewed| && e.reviewed[j] == r;
        assert saved[i].id == Replaces(e)[j].id;
      }
    } else {
      var i, j :| 0 <= i < |saved| && 0 <= j < |Replaces(e)| && saved[i].id == Replaces(e)[j].id &&
        !AsReviewed(saved[i], Replaces(e)[j], e);
      assert saved[i] in saved && e.reviewed[j] in e.reviewed;
    }
  }

  lemma DuplicateIff(saved: seq<Row>, e: Entry)
    ensures !Duplicate(saved, e) <==>
            forall row :: row in saved && Overlaps(row, e) ==>
              !(row.statusType == e.dates.statusType && row.startDate == e.dates.startDate &&
                row.endDate == e.dates.endDate)
  {
    if row :| row in saved && Overlaps(row, e) && DatesOf(row) == e.dates {
      var i :| 0 <= i < |saved| && saved[i] == row;
    }
  }

  lemma UnreviewedIff(saved: seq<Row>, e: Entry)
    ensures !Unreviewed(saved, e) <==>
            (e.overlap != Keep ==>
               forall row :: row in saved && Overlaps(row, e) ==>
                 || (e.overlap == Replace && exists r :: r in e.reviewed && r.id == row.id)
                 || Dates(row.statusType, row.startDate, row.endDate) in e.alongside)
  {
    forall row
      ensures WasReviewed(row, e) <==>
              || (e.overlap == Replace && exists r :: r in e.reviewed && r.id == row.id)
              || Dates(row.statusType, row.startDate, row.endDate) in e.alongside
    {
      if e.overlap == Replace {
        if r :| r in e.reviewed && r.id == row.id {
          var j :| 0 <= j < |e.reviewed| && e.reviewed[j] == r;
          assert Replaces(e)[j].id == row.id;
        }
      }
    }
    if row :| row in saved && Overlaps(row, e) && !WasReviewed(row, e) {
      var i :| 0 <= i < |saved| && saved[i] == row;
    }
  }

  /** Accepted entries stay in their order, and each entry is judged by itself. */
  lemma {:induction false} AcceptedSplits(saved: seq<Row>, a: seq<Entry>, b: seq<Entry>)
    ensures Accepted(saved, a + b) == Accepted(saved, a) + Accepted(saved, b)
    decreases |b|
  {
    if b == [] {
      assert a + b == a;
    } else {
      AcceptedSplits(saved, a, b[..|b| - 1]);
      assert (a + b)[..|a + b| - 1] == a + b[..|b| - 1];
    }
  }

  lemma AcceptedOne(saved: seq<Row>, e: Entry)
    ensures Accepted(saved, [e]) == if IsStale(saved, e) then [] else [e]
  {
    assert [e][..0] == [];
  }

  /** This row was made for this entry. */
  ghost predicate MadeFor(row: Row, e: Entry) {
    && row.personId == e.personId && row.statusType == e.dates.statusType && row.startDate == e.dates.startDate
    && row.endDate == e.dates.endDate && row.note == e.note
  }

  class AvailabilityStore {
    var rows: seq<Row>
    var nextId: nat

    method InsertReplacing(entries: seq<Entry>) returns (result: Result)
      requires DistinctRows(rows, nextId)
      modifies this
      ensures result.stale == StaleIndices(old(rows), entries)
      ensures rows == Imported(old(rows), entries, old(nextId))
      ensures var accepted, kept := Accepted(old(rows), entries), |rows| - result.inserted;
              && result.inserted == |accepted| && kept >= 0
              && rows[..kept] == Without(old(rows), ReplacedIds(old(rows), entries))
              && forall i :: 0 <= i < |accepted| ==>
                   rows[kept + i].id == old(nextId) + i && MadeFor(rows[kept + i], accepted[i])
      ensures |rows| + result.deleted == |old(rows)| + result.inserted
      ensures DistinctRows(rows, nextId)
      ensures Acknowledged(entries, result)
    {
      var saved := rows;
      var stale: seq<nat>, writes: seq<Entry> := [], [];
      var replaced: set<nat> := {};
      for i := 0 to |entries|
        invariant stale == StaleIndices(saved, entries[..i]) && writes == Accepted(saved, entries[..i])
        invariant replaced == ReplacedIds(saved, entries[..i])
      {
        var e := entries[i];
        assert entries[..i + 1][..i] == entries[..i];
        if IsStale(saved, e) {
          stale := stale + [i];
        } else {
          replaced := replaced + set id | id in IdsOf(Replaces(e)) && HasId(saved, id);
          writes := writes + [e];
        }
      }
      assert entries[..|entries|] == entries;
      ImportKeepsDistinct(saved, entries, nextId);
      ImportCounts(saved, entries);
      AddedAre(Without(saved, replaced), writes, nextId);
      DeleteRows(replaced);
      rows := rows + Created(writes, nextId);
      nextId := nextId + |writes|;
      return Result(|writes|, |saved| - |Without(saved, replaced)|, stale);
    }

    method DeleteRows(ids: set<nat>)
      modifies this`rows
      ensures rows == Without(old(rows), ids)
    {
      var saved := rows;
      rows := [];
      for i := 0 to |saved|
        invariant rows == Without(saved[..i], ids)
      {
        assert saved[..i + 1][..i] == saved[..i];
        if saved[i].id !in ids {
          rows := rows + [saved[i]];
        }
      }
      assert saved[..|saved|] == saved;
    }

    /** Refuses entries for persons out of scope, imports the rest, and reports each refused entry by its place. */
    method ImportEntries(entries: seq<Entry>, allowed: string -> bool)
      returns (added: nat, removed: nat, errors: seq<Error>)
      requires DistinctRows(rows, nextId)
      modifies this
      ensures added + |errors| == |entries|
      ensures forall i, j :: 0 <= i < j < |errors| ==> errors[i].index < errors[j].index
      ensures forall e :: e in errors <==>
              e.index < |entries| && Refusal(old(rows), entries[e.index], allowed) == Some(e.reason)
      ensures rows == Imported(old(rows), Submitted(entries, Admitted(entries, allowed)), old(nextId))
      ensures |rows| + removed == |old(rows)| + added
      ensures DistinctRows(rows, nextId)
    {
      var accepted;
      errors, accepted := Admit(entries, allowed);
      AdmittedAre(entries, allowed);
      var writes := Submitted(entries, accepted);
      if accepted == [] {
        WithoutNothing(rows);
        return 0, 0, errors;
      }
      ghost var refused := errors;
      var result := InsertReplacing(writes);
      StaleIndicesAre(old(rows), writes);
      var late := seq(|result.stale|, p requires 0 <= p < |result.stale| => Error(accepted[result.stale[p]], Stale));
      ErrorsAre(old(rows), entries, allowed, refused, late, accepted, writes, result.stale);
      errors := SortErrors(errors + late);
      return result.inserted, result.deleted, errors;
    }
  }

  /** The places of the entries whose person the importer may change. */
  function Admitted(entries: seq<Entry>, allowed: string -> bool): (places: seq<nat>)
    ensures forall k :: 0 <= k < |places| ==> places[k] < |entries|
  {
    if entries == [] then []
    else
      var last := |entries| - 1;
      Admitted(entries[..last], allowed) + (if allowed(entries[last].personId) then [last] else [])
  }

  function Submitted(entries: seq<Entry>, places: seq<nat>): seq<Entry>
    requires forall k :: 0 <= k < |places| ==> places[k] < |entries|
  {
    seq(|places|, k requires 0 <= k < |places| => Cleared(entries[places[k]]))
  }

  /** The rows after importing these entries over the saved ones. */
  function Imported(saved: seq<Row>, entries: seq<Entry>, nextId: nat): seq<Row> {
    Without(saved, ReplacedIds(saved, entries)) + Created(Accepted(saved, entries), nextId)
  }

  lemma ImportCounts(saved: seq<Row>, entries: seq<Entry>)
    requires forall i, j :: 0 <= i < j < |saved| ==> saved[i].id != saved[j].id
    ensures var stale, kept := StaleIndices(saved, entries), Without(saved, ReplacedIds(saved, entries));
            && |kept| <= |saved| && |Accepted(saved, entries)| + |stale| == |entries|
            && Acknowledged(entries, Result(|Accepted(saved, entries)|, |saved| - |kept|, stale))
  {
    var replaced := ReplacedIds(saved, entries);
    StaleIncrease(saved, entries);
    ReplacedIsSmall(saved, entries);
    forall id | id in replaced
      ensures HasId(saved, id)
    {
      ReplacedByAccepted(saved, entries, id);
    }
    WithoutCounts(saved, replaced);
  }

  lemma AddedIs(kept: seq<Row>, entries: seq<Entry>, nextId: nat, i: nat)
    requires i < |entries|
    ensures |Created(entries, nextId)| == |entries|
    ensures var row := (kept + Created(entries, nextId))[|kept| + i]; row.id == nextId + i && MadeFor(row, entries[i])
  {
  }

  /** What is kept comes first, and then one new row for each entry. */
  lemma AddedAre(kept: seq<Row>, entries: seq<Entry>, nextId: nat)
    ensures var rows := kept + Created(entries, nextId);
            && |rows| == |kept| + |entries| && rows[..|kept|] == kept
            && forall i :: 0 <= i < |entries| ==>
                 rows[|kept| + i].id == nextId + i && MadeFor(rows[|kept| + i], entries[i])
  {
    forall i | 0 <= i < |entries|
      ensures var row := (kept + Created(entries, nextId))[|kept| + i]; row.id == nextId + i && MadeFor(row, entries[i])
    {
      AddedIs(kept, entries, nextId, i);
    }
  }

  lemma {:induction false} WithoutKeepsDistinct(rows: seq<Row>, ids: set<nat>, nextId: nat)
    requires DistinctRows(rows, nextId)
    ensures DistinctRows(Without(rows, ids), nextId)
    decreases |rows|
  {
    if rows != [] {
      var init := rows[..|rows| - 1];
      WithoutKeepsDistinct(init, ids, nextId);
      var kept := Without(init, ids);
      forall i | 0 <= i < |kept|
        ensures kept[i].id != rows[|rows| - 1].id
      {
        WithoutIs(init, ids);
        assert kept[i] in init;
      }
    }
  }

  /** Row ids stay distinct over any run of imports. */
  lemma ImportKeepsDistinct(saved: seq<Row>, entries: seq<Entry>, nextId: nat)
    requires DistinctRows(saved, nextId)
    ensures DistinctRows(Imported(saved, entries, nextId), nextId + |Accepted(saved, entries)|)
  {
    WithoutKeepsDistinct(saved, ReplacedIds(saved, entries), nextId);
  }

  lemma {:induction false} WithoutNothing(rows: seq<Row>)
    ensures Without(rows, {}) == rows
    decreases |rows|
  {
    if rows != [] {
      WithoutNothing(rows[..|rows| - 1]);
    }
  }

  lemma {:induction false} AdmittedAre(entries: seq<Entry>, allowed: string -> bool)
    ensures Increasing(Admitted(entries, allowed), |entries|)
    ensures forall k :: k in Admitted(entries, allowed) <==> 0 <= k < |entries| && allowed(entries[k].personId)
    decreases |entries|
  {
    if entries != [] {
      var init := entries[..|entries| - 1];
      AdmittedAre(init, allowed);
      forall k
        ensures k in Admitted(entries, allowed) <==> 0 <= k < |entries| && allowed(entries[k].personId)
      {
        assert 0 <= k < |init| ==> init[k] == entries[k];
      }
    }
  }

  method Admit(entries: seq<Entry>, allowed: string -> bool) returns (errors: seq<Error>, accepted: seq<nat>)
    ensures accepted == Admitted(entries, allowed) && |errors| + |accepted| == |entries|
    ensures forall k, l :: 0 <= k < l < |errors| ==> errors[k].index < errors[l].index
    ensures forall e :: e in errors <==>
            e.index < |entries| && !allowed(entries[e.index].personId) && e.reason == OutOfScope
  {
    errors, accepted := [], [];
    for i := 0 to |entries|
      invariant accepted == Admitted(entries[..i], allowed) && |errors| + |accepted| == i
      invariant forall k, l :: 0 <= k < l < |errors| ==> errors[k].index < errors[l].index
      invariant forall e :: e in errors <==>
                e.index < i && !allowed(entries[e.index].personId) && e.reason == OutOfScope
    {
      assert entries[..i + 1][..i] == entries[..i];
      if !allowed(entries[i].personId) {
        errors := errors + [Error(i, OutOfScope)];
      } else {
        accepted := accepted + [i];
      }
    }
    assert entries[..|entries|] == entries;
  }

  datatype RefusalReason = OutOfScope | Stale

  datatype Error = Error(index: nat, reason: RefusalReason)

  /** Reviewed entries count only where the choice was to replace them. */
  function Cleared(e: Entry): Entry {
    e.(reviewed := Replaces(e))
  }

  /** Why an entry is refused, if it is. */
  function Refusal(saved: seq<Row>, e: Entry, allowed: string -> bool): Option<RefusalReason> {
    if !allowed(e.personId) then Some(OutOfScope) else if IsStale(saved, e) then Some(Stale) else None
  }

  predicate ErrorLe(a: Error, b: Error) {
    a.index <= b.index
  }

  method SortErrors(errors: seq<Error>) returns (sorted: seq<Error>)
    requires forall i, j :: 0 <= i < j < |errors| ==> errors[i].index != errors[j].index
    ensures |sorted| == |errors| && forall e :: e in sorted <==> e in errors
    ensures forall i, j :: 0 <= i < j < |sorted| ==> sorted[i].index < sorted[j].index
  {
    sorted := Sorting.Sort(ErrorLe, errors);
    Sorting.SortSorts(ErrorLe, errors);
    Sorting.SameMembers(sorted, errors);
    assert Sorting.Distinct(errors);
    Sorting.SortKeepsDistinct(ErrorLe, errors);
    forall i, j | 0 <= i < j < |sorted|
      ensures sorted[i].index != sorted[j].index
    {
      assert sorted[i] in errors && sorted[j] in errors && sorted[i] != sorted[j];
    }
  }

  lemma ClearedIsAsStale(saved: seq<Row>, e: Entry)
    ensures IsStale(saved, Cleared(e)) <==> IsStale(saved, e)
  {
    assert Replaces(Cleared(e)) == Replaces(e);
    assert forall row :: WasReviewed(row, Cleared(e)) <==> WasReviewed(row, e);
  }

  lemma ErrorsAre(saved: seq<Row>, entries: seq<Entry>, allowed: string -> bool, refused: seq<Error>, late: seq<Error>,
                  accepted: seq<nat>, writes: seq<Entry>, stale: seq<nat>)
    requires |refused| + |accepted| == |entries| && |late| == |stale| && |writes| == |accepted|
    requires forall k :: 0 <= k < |accepted| ==> accepted[k] < |entries| && allowed(entries[accepted[k]].personId)
    requires forall k, l :: 0 <= k < l < |accepted| ==> accepted[k] < accepted[l]
    requires forall k :: 0 <= k < |entries| && allowed(entries[k].personId) ==> k in accepted
    requires forall k, l :: 0 <= k < l < |refused| ==> refused[k].index < refused[l].index
    requires forall e :: e in refused <==>
             e.index < |entries| && !allowed(entries[e.index].personId) && e.reason == OutOfScope
    requires forall k :: 0 <= k < |writes| ==> writes[k] == Cleared(entries[accepted[k]])
    requires Increasing(stale, |writes|) && forall i :: i in stale <==> 0 <= i < |writes| && IsStale(saved, writes[i])
    requires forall q :: 0 <= q < |late| ==> late[q] == Error(accepted[stale[q]], Stale)
    ensures forall i, j :: 0 <= i < j < |refused + late| ==> (refused + late)[i].index != (refused + late)[j].index
    ensures forall e :: e in refused + late <==>
            e.index < |entries| && Refusal(saved, entries[e.index], allowed) == Some(e.reason)
  {
    forall i, j | 0 <= i < j < |refused + late|
      ensures (refused + late)[i].index != (refused + late)[j].index
    {
      if i < |refused| <= j {
        assert refused[i] in refused;
      }
    }
    forall e
      ensures e in refused + late <==>
              e.index < |entries| && Refusal(saved, entries[e.index], allowed) == Some(e.reason)
    {
      LateIs(saved, entries, allowed, late, accepted, writes, stale, e);
    }
  }

  lemma LateIs(saved: seq<Row>, entries: seq<Entry>, allowed: string -> bool, late: seq<Error>,
               accepted: seq<nat>, writes: seq<Entry>, stale: seq<nat>, e: Error)
    requires |late| == |stale| && |writes| == |accepted|
    requires forall k :: 0 <= k < |accepted| ==> accepted[k] < |entries| && allowed(entries[accepted[k]].personId)
    requires forall k :: 0 <= k < |entries| && allowed(entries[k].personId) ==> k in accepted
    requires forall k :: 0 <= k < |writes| ==> writes[k] == Cleared(entries[accepted[k]])
    requires Increasing(stale, |writes|) && forall i :: i in stale <==> 0 <= i < |writes| && IsStale(saved, writes[i])
    requires forall q :: 0 <= q < |late| ==> late[q] == Error(accepted[stale[q]], Stale)
    ensures e in late <==>
            e.index < |entries| && allowed(entries[e.index].personId) && IsStale(saved, entries[e.index]) &&
              e.reason == Stale
  {
    if e in late {
      var q :| 0 <= q < |late| && late[q] == e;
      assert stale[q] in stale;
      ClearedIsAsStale(saved, entries[e.index]);
    }
    if e.index < |entries| && allowed(entries[e.index].personId) && IsStale(saved, entries[e.index]) &&
      e.reason == Stale {
      var k :| 0 <= k < |accepted| && accepted[k] == e.index;
      ClearedIsAsStale(saved, entries[e.index]);
      assert k in stale;
      var q :| 0 <= q < |stale| && stale[q] == k;
      assert late[q] == e;
    }
  }
}
