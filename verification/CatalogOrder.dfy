/** The order of calendar lanes and of status types: saved positions, compared and set. */
module CatalogOrder {
  import Sorting

  /** Rows are read by position, ties by id. */
  type Key = (int, string)

  predicate KeyLe(a: Key, b: Key) {
    a.0 < b.0 || (a.0 == b.0 && Sorting.StringLe(a.1, b.1))
  }

  lemma KeyLeIsTotalOrder()
    ensures Sorting.TotalOrder(KeyLe)
  {
    Sorting.StringLeIsTotalOrder();
  }

  function Ids(keys: seq<Key>): seq<string> {
    seq(|keys|, i requires 0 <= i < |keys| => keys[i].1)
  }

  function Ordered(keys: seq<Key>): seq<string> {
    Ids(Sorting.Sort(KeyLe, keys))
  }

  /** The list read back is `ids` exactly when the keys, put in that order, are sorted. */
  lemma OrderedIff(keys: seq<Key>, wanted: seq<Key>)
    requires multiset(keys) == multiset(wanted)
    requires forall i, j :: 0 <= i < j < |wanted| ==> wanted[i].1 != wanted[j].1
    ensures Ordered(keys) == Ids(wanted) <==> Sorting.Sorted(KeyLe, wanted)
  {
    var sorted := Sorting.Sort(KeyLe, keys);
    KeyLeIsTotalOrder();
    Sorting.SortSorts(KeyLe, keys);
    Sorting.SameMembers(sorted, wanted);
    if Sorting.Sorted(KeyLe, wanted) {
      Sorting.SortedIsUnique(KeyLe, sorted, wanted);
    }
    if Ordered(keys) == Ids(wanted) {
      forall i | 0 <= i < |wanted|
        ensures sorted[i] == wanted[i]
      {
        assert Ids(wanted)[i] == sorted[i].1;
        assert sorted[i] in wanted;
      }
      assert sorted == wanted;
    }
  }

  function IndexOf(ids: seq<string>, id: string): int {
    if ids == [] then -1 else if ids[0] == id then 0 else
      var rest := IndexOf(ids[1..], id);
      if rest < 0 then -1 else rest + 1
  }

  lemma {:induction false} IndexOfIs(ids: seq<string>, id: string)
    ensures var i := IndexOf(ids, id);
            if id in ids then 0 <= i < |ids| && ids[i] == id && forall j :: 0 <= j < i ==> ids[j] != id else i == -1
  {
    if ids != [] && ids[0] != id {
      IndexOfIs(ids[1..], id);
      assert id in ids <==> id in ids[1..];
    }
  }

  // ---------------------------------------------------------------- calendar lanes

  datatype LaneType = LaneType(id: string, position: int, shown: bool, archived: bool)

  function LaneKeys(types: seq<LaneType>): seq<Key> {
    if types == [] then []
    else LaneKeys(types[..|types| - 1]) +
         (var t := types[|types| - 1]; if t.shown && !t.archived then [(t.position, t.id)] else [])
  }

  function Lanes(types: seq<LaneType>): seq<string> {
    Ordered(LaneKeys(types))
  }

  ghost predicate DistinctTypes(types: seq<LaneType>) {
    forall i, j :: 0 <= i < j < |types| ==> types[i].id != types[j].id
  }

  predicate Active(types: seq<LaneType>, id: string) {
    exists i :: 0 <= i < |types| && types[i].id == id && !types[i].archived
  }

  lemma ActiveIff(types: seq<LaneType>, id: string)
    ensures Active(types, id) <==> exists t :: t in types && t.id == id && !t.archived
  {
    if t :| t in types && t.id == id && !t.archived {
      var i :| 0 <= i < |types| && types[i] == t;
    }
    if Active(types, id) {
      var i :| 0 <= i < |types| && types[i].id == id && !types[i].archived;
      assert types[i] in types;
    }
  }

  /** A type named in the lanes is shown at its place in them; any other is not shown. */
  function Placed(t: LaneType, lanes: seq<string>): LaneType {
    var at := IndexOf(lanes, t.id);
    if at >= 0 then t.(shown := true, position := at) else t.(shown := false)
  }

  datatype Answer = Unchanged | Changed | Refused(status: nat)

  ghost predicate IsLane(types: seq<LaneType>, k: Key) {
    exists i :: 0 <= i < |types| && types[i].id == k.1 && types[i].position == k.0 && types[i].shown &&
      !types[i].archived
  }

  lemma {:induction false} LaneKeysAre(types: seq<LaneType>)
    requires DistinctTypes(types)
    ensures Sorting.Distinct(Ids(LaneKeys(types))) && Sorting.Distinct(LaneKeys(types))
    ensures forall k :: k in LaneKeys(types) <==> IsLane(types, k)
    decreases |types|
  {
    if types != [] {
      var init, t := types[..|types| - 1], types[|types| - 1];
      var before, added := LaneKeys(init), (if t.shown && !t.archived then [(t.position, t.id)] else []);
      LaneKeysAre(init);
      forall i | 0 <= i < |before|
        ensures before[i].1 != t.id
      {
        assert before[i] in before;
        assert IsLane(init, before[i]);
        var k :| 0 <= k < |init| && init[k].id == before[i].1 && init[k].position == before[i].0 && init[k].shown &&
          !init[k].archived;
        assert types[k].id != types[|types| - 1].id;
      }
      IdsGrow(before, added);
      forall k | IsLane(types, k)
        ensures k in before + added
      {
        var i :| 0 <= i < |types| && types[i].id == k.1 && types[i].position == k.0 && types[i].shown &&
          !types[i].archived;
        if i < |init| {
          assert init[i] == types[i];
          assert IsLane(init, k);
        }
      }
      forall k | k in before
        ensures IsLane(types, k)
      {
        var i :| 0 <= i < |init| && init[i].id == k.1 && init[i].position == k.0 && init[i].shown && !init[i].archived;
        assert types[i] == init[i];
      }
    }
  }

  lemma IdsGrow(before: seq<Key>, added: seq<Key>)
    requires Sorting.Distinct(Ids(before)) && |added| <= 1
    requires forall i :: 0 <= i < |before| && added != [] ==> before[i].1 != added[0].1
    ensures Sorting.Distinct(Ids(before + added)) && Sorting.Distinct(before + added)
  {
    var all := before + added;
    forall i, j | 0 <= i < j < |all|
      ensures all[i].1 != all[j].1
    {
      if j < |before| {
        assert Ids(before)[i] != Ids(before)[j];
      }
    }
  }

  function LaneWanted(lanes: seq<string>): seq<Key> {
    seq(|lanes|, i requires 0 <= i < |lanes| => (i, lanes[i]))
  }

  /** After a change the lanes read back are the request exactly when the request names each lane once. */
  lemma PlacedLanesIff(types: seq<LaneType>, after: seq<LaneType>, lanes: seq<string>)
    requires DistinctTypes(types) && forall id :: id in lanes ==> Active(types, id)
    requires |after| == |types| && forall i :: 0 <= i < |types| ==> after[i] == Placed(types[i], lanes)
    ensures Lanes(after) == lanes <==> Sorting.Distinct(lanes)
  {
    LaneKeysAre(after);
    var keys, sorted := LaneKeys(after), Sorting.Sort(KeyLe, LaneKeys(after));
    if Sorting.Distinct(lanes) {
      var wanted := LaneWanted(lanes);
      forall k: Key
        ensures k in keys <==> k in wanted
      {
        LaneKeyPlaced(types, after, lanes, k);
      }
      Sorting.DistinctSameMembers(keys, wanted);
      OrderedIff(keys, wanted);
      assert Ids(wanted) == lanes;
    } else {
      IdsStayDistinct(keys);
    }
  }

  lemma LaneKeyPlaced(types: seq<LaneType>, after: seq<LaneType>, lanes: seq<string>, k: Key)
    requires Sorting.Distinct(lanes) && DistinctTypes(after) && forall id :: id in lanes ==> Active(types, id)
    requires |after| == |types| && forall i :: 0 <= i < |types| ==> after[i] == Placed(types[i], lanes)
    ensures k in LaneKeys(after) <==> k in LaneWanted(lanes)
  {
    LaneKeysAre(after);
    if k in LaneKeys(after) {
      assert IsLane(after, k);
      var i :| 0 <= i < |after| && after[i].id == k.1 && after[i].position == k.0 && after[i].shown &&
        !after[i].archived;
      IndexOfIs(lanes, types[i].id);
      assert LaneWanted(lanes)[k.0] == k;
    }
    if k in LaneWanted(lanes) {
      var j :| 0 <= j < |lanes| && LaneWanted(lanes)[j] == k;
      assert lanes[j] in lanes && Active(types, lanes[j]);
      var i :| 0 <= i < |types| && types[i].id == lanes[j] && !types[i].archived;
      IndexOfIs(lanes, lanes[j]);
      assert after[i].position == j;
      assert IsLane(after, k);
    }
  }

  /** Sorting keys with distinct ids gives distinct ids. */
  lemma IdsStayDistinct(keys: seq<Key>)
    requires Sorting.Distinct(Ids(keys))
    ensures Sorting.Distinct(Ordered(keys))
  {
    var sorted := Sorting.Sort(KeyLe, keys);
    Sorting.SameMembers(sorted, keys);
    forall i, j | 0 <= i < j < |keys|
      ensures keys[i] != keys[j]
    {
      assert Ids(keys)[i] != Ids(keys)[j];
    }
    Sorting.SortKeepsDistinct(KeyLe, keys);
    forall i, j | 0 <= i < j < |sorted|
      ensures sorted[i].1 != sorted[j].1
    {
      assert sorted[i] in sorted && sorted[j] in sorted && sorted[i] != sorted[j];
      var k :| 0 <= k < |keys| && keys[k] == sorted[i];
      var l :| 0 <= l < |keys| && keys[l] == sorted[j];
      assert Ids(keys)[k] == sorted[i].1 && Ids(keys)[l] == sorted[j].1;
      assert if k < l then Ids(keys)[k] != Ids(keys)[l] else Ids(keys)[l] != Ids(keys)[k];
    }
  }

  class LaneStore {
    var types: seq<LaneType>

    method SetCalendarLanes(lanes: seq<string>, expected: seq<string>) returns (answer: Answer)
      requires DistinctTypes(types)
      modifies this
      ensures DistinctTypes(types)
      ensures answer != Changed ==> types == old(types)
      ensures answer == Unchanged <==> Lanes(old(types)) == lanes && forall id :: id in lanes ==> Active(old(types), id)
      ensures answer == Changed ==> (Lanes(types) == lanes <==> Sorting.Distinct(lanes))
      ensures answer == Refused(404) <==> exists id :: id in lanes && !Active(old(types), id)
      ensures answer == Refused(409) <==>
              (forall id :: id in lanes ==> Active(old(types), id)) && Lanes(old(types)) != lanes &&
                Lanes(old(types)) != expected
      ensures answer.Refused? ==> answer.status == 404 || answer.status == 409
      ensures |types| == |old(types)|
      ensures forall i :: 0 <= i < |types| ==>
              types[i].id == old(types)[i].id && types[i].archived == old(types)[i].archived
    {
      if exists id :: id in lanes && !Active(types, id) {
        return Refused(404);
      }
      var saved := Lanes(types);
      if saved == lanes {
        return Unchanged;
      }
      if saved != expected {
        return Refused(409);
      }
      for i := 0 to |types|
        invariant |types| == |old(types)|
        invariant forall j :: 0 <= j < |types| ==>
                  types[j] == if j < i then Placed(old(types)[j], lanes) else old(types)[j]
      {
        var t := types[i];
        var position := IndexOf(lanes, t.id);
        if position >= 0 && (!t.shown || t.position != position) {
          types := types[i := t.(shown := true, position := position)];
        } else if position < 0 && t.shown {
          types := types[i := t.(shown := false)];
        }
      }
      PlacedLanesIff(old(types), types, lanes);
      return Changed;
    }
  }

  // ---------------------------------------------------------------- status types

  datatype StatusType = StatusType(id: string, position: int)

  function StatusKeys(rows: seq<StatusType>): seq<Key> {
    seq(|rows|, i requires 0 <= i < |rows| => (rows[i].position, rows[i].id))
  }

  function Order(rows: seq<StatusType>): seq<string> {
    Ordered(StatusKeys(rows))
  }

  ghost predicate DistinctRows(rows: seq<StatusType>) {
    forall i, j :: 0 <= i < j < |rows| ==> rows[i].id != rows[j].id
  }

  function PositionOf(rows: seq<StatusType>, id: string): int {
    if rows == [] then 0 else if rows[0].id == id then rows[0].position else PositionOf(rows[1..], id)
  }

  lemma {:induction false} PositionOfRow(rows: seq<StatusType>, i: nat)
    requires DistinctRows(rows) && i < |rows|
    ensures PositionOf(rows, rows[i].id) == rows[i].position
  {
    if i > 0 {
      assert rows[0].id != rows[i].id;
      assert DistinctRows(rows[1..]);
      PositionOfRow(rows[1..], i - 1);
    }
  }

  /** A status type takes its new position only where the list now shows another one. */
  function Moved(row: StatusType, saved: seq<string>, wanted: seq<string>): StatusType {
    var at := IndexOf(wanted, row.id);
    if 0 <= at < |saved| && saved[at] != row.id then row.(position := at) else row
  }

  /** The wanted list with the positions the rows have after the change. */
  function WantedKeys(rows: seq<StatusType>, saved: seq<string>, wanted: seq<string>): seq<Key>
    requires |saved| == |wanted|
  {
    seq(|wanted|, p requires 0 <= p < |wanted| =>
          (if saved[p] == wanted[p] then PositionOf(rows, wanted[p]) else p, wanted[p]))
  }

  /** A row left in place keeps clear of the numbers given to the rows that move past it. */
  ghost predicate StaysBetween(rows: seq<StatusType>, saved: seq<string>, wanted: seq<string>)
    requires |saved| == |wanted|
  {
    forall p, q :: 0 <= p < |wanted| && 0 <= q < |wanted| && saved[p] == wanted[p] && saved[q] != wanted[q] ==>
      (q < p ==> KeyLe((q, wanted[q]), (PositionOf(rows, wanted[p]), wanted[p]))) &&
      (p < q ==> KeyLe((PositionOf(rows, wanted[p]), wanted[p]), (q, wanted[q])))
  }

  ghost predicate Permutes(saved: seq<string>, wanted: seq<string>) {
    |wanted| == |saved| && forall id :: id in saved ==> id in wanted
  }

  lemma StatusOrderIs(rows: seq<StatusType>)
    requires DistinctRows(rows)
    ensures |Order(rows)| == |rows| && Sorting.Distinct(Order(rows))
    ensures forall id :: id in Order(rows) <==> exists i :: 0 <= i < |rows| && rows[i].id == id
    ensures forall p, q :: 0 <= p < q < |rows| ==>
              KeyLe((PositionOf(rows, Order(rows)[p]), Order(rows)[p]),
                    (PositionOf(rows, Order(rows)[q]), Order(rows)[q]))
  {
    var keys := StatusKeys(rows);
    var sorted := Sorting.Sort(KeyLe, keys);
    Sorting.SameMembers(sorted, keys);
    forall i, j | 0 <= i < j < |keys|
      ensures Ids(keys)[i] != Ids(keys)[j]
    {
      assert rows[i].id != rows[j].id;
    }
    IdsStayDistinct(keys);
    KeyLeIsTotalOrder();
    Sorting.SortSorts(KeyLe, keys);
    forall p | 0 <= p < |sorted|
      ensures sorted[p] == (PositionOf(rows, Order(rows)[p]), Order(rows)[p])
    {
      assert sorted[p] in keys;
      var i :| 0 <= i < |keys| && keys[i] == sorted[p];
      PositionOfRow(rows, i);
    }
    forall id
      ensures id in Order(rows) <==> exists i :: 0 <= i < |rows| && rows[i].id == id
    {
      InOrder(rows, id);
    }
  }

  lemma InOrder(rows: seq<StatusType>, id: string)
    ensures id in Order(rows) <==> exists i :: 0 <= i < |rows| && rows[i].id == id
  {
    var keys := StatusKeys(rows);
    var sorted := Sorting.Sort(KeyLe, keys);
    Sorting.SameMembers(sorted, keys);
    if id in Order(rows) {
      var p :| 0 <= p < |sorted| && sorted[p].1 == id;
      assert sorted[p] in keys;
      var i :| 0 <= i < |keys| && keys[i] == sorted[p];
      assert rows[i].id == id;
    }
    if i :| 0 <= i < |rows| && rows[i].id == id {
      assert keys[i] in sorted;
      var p :| 0 <= p < |sorted| && sorted[p] == keys[i];
      assert Order(rows)[p] == id;
    }
  }

  lemma WantedKeysAre(rows: seq<StatusType>, after: seq<StatusType>, saved: seq<string>, wanted: seq<string>)
    requires DistinctRows(rows) && saved == Order(rows) && Sorting.Distinct(wanted) && |wanted| == |saved|
    requires forall id :: id in wanted <==> id in saved
    requires |after| == |rows| && forall i :: 0 <= i < |rows| ==> after[i] == Moved(rows[i], saved, wanted)
    ensures multiset(StatusKeys(after)) == multiset(WantedKeys(rows, saved, wanted))
  {
    var keys, targets := StatusKeys(after), WantedKeys(rows, saved, wanted);
    StatusOrderIs(rows);
    forall i, j | 0 <= i < j < |keys|
      ensures keys[i] != keys[j]
    {
      assert rows[i].id != rows[j].id;
    }
    forall i | 0 <= i < |keys|
      ensures keys[i] in targets
    {
      assert rows[i].id in saved;
      IndexOfIs(wanted, rows[i].id);
      PositionOfRow(rows, i);
      assert targets[IndexOf(wanted, rows[i].id)] == keys[i];
    }
    forall p | 0 <= p < |targets|
      ensures targets[p] in keys
    {
      assert wanted[p] in saved;
      var i :| 0 <= i < |rows| && rows[i].id == wanted[p];
      IndexOfIs(wanted, wanted[p]);
      PositionOfRow(rows, i);
      assert keys[i] == targets[p];
    }
    Sorting.DistinctSameMembers(keys, targets);
  }

  lemma SortedIffStaysBetween(rows: seq<StatusType>, saved: seq<string>, wanted: seq<string>)
    requires DistinctRows(rows) && saved == Order(rows) && |wanted| == |saved|
    ensures Sorting.Sorted(KeyLe, WantedKeys(rows, saved, wanted)) <==> StaysBetween(rows, saved, wanted)
  {
    var keys := WantedKeys(rows, saved, wanted);
    StatusOrderIs(rows);
    if StaysBetween(rows, saved, wanted) {
      forall p, q | 0 <= p < q < |keys|
        ensures KeyLe(keys[p], keys[q])
      {
      }
    }
    if Sorting.Sorted(KeyLe, keys) {
      forall p, q | 0 <= p < |wanted| && 0 <= q < |wanted| && saved[p] == wanted[p] && saved[q] != wanted[q]
        ensures q < p ==> KeyLe((q, wanted[q]), (PositionOf(rows, wanted[p]), wanted[p]))
        ensures p < q ==> KeyLe((PositionOf(rows, wanted[p]), wanted[p]), (q, wanted[q]))
      {
        assert keys[q] == (q, wanted[q]) && keys[p] == (PositionOf(rows, wanted[p]), wanted[p]);
      }
    }
  }

  /** A change makes the list read back as wanted exactly when every row left in place stays between those that move. */
  lemma MovedOrderIff(rows: seq<StatusType>, after: seq<StatusType>, wanted: seq<string>)
    requires DistinctRows(rows) && Permutes(Order(rows), wanted)
    requires |after| == |rows| && forall i :: 0 <= i < |rows| ==> after[i] == Moved(rows[i], Order(rows), wanted)
    ensures Order(after) == wanted <==> StaysBetween(rows, Order(rows), wanted)
  {
    var saved := Order(rows);
    StatusOrderIs(rows);
    PermutesSame(saved, wanted);
    WantedKeysAre(rows, after, saved, wanted);
    OrderedIff(StatusKeys(after), WantedKeys(rows, saved, wanted));
    assert Ids(WantedKeys(rows, saved, wanted)) == wanted;
    SortedIffStaysBetween(rows, saved, wanted);
  }

  /** A list as long as a distinct one that misses none of its members has no others, and none twice. */
  lemma PermutesSame(saved: seq<string>, wanted: seq<string>)
    requires Sorting.Distinct(saved) && Permutes(saved, wanted)
    ensures Sorting.Distinct(wanted) && forall id :: id in wanted <==> id in saved
  {
    Sorting.DistinctCounts(saved);
    forall x
      ensures multiset(saved)[x] <= multiset(wanted)[x]
    {
      if x in multiset(saved) {
        assert x in saved && x in wanted;
        assert x in multiset(wanted);
      }
    }
    assert multiset(saved) <= multiset(wanted);
    var extra := multiset(wanted) - multiset(saved);
    assert |multiset(wanted)| == |multiset(saved)| + |extra|;
    assert |extra| == 0;
    assert extra == multiset{};
    assert multiset(wanted) == multiset(saved);
    Sorting.DistinctCounts(wanted);
    Sorting.SameMembers(wanted, saved);
  }

  // ---------------------------------------------------------------- dense positions

  /** The positions are 0 up to one less than the number of rows, in reading order. */
  ghost predicate Dense(rows: seq<StatusType>) {
    |Order(rows)| == |rows| && forall p :: 0 <= p < |rows| ==> PositionOf(rows, Order(rows)[p]) == p
  }

  /** With dense positions every change succeeds, and leaves them dense. */
  lemma DenseMoves(rows: seq<StatusType>, after: seq<StatusType>, wanted: seq<string>)
    requires DistinctRows(rows) && Dense(rows) && Permutes(Order(rows), wanted)
    requires |after| == |rows| && forall i :: 0 <= i < |rows| ==> after[i] == Moved(rows[i], Order(rows), wanted)
    ensures Order(after) == wanted && Dense(after)
  {
    var saved := Order(rows);
    StatusOrderIs(rows);
    PermutesSame(saved, wanted);
    MovedOrderIff(rows, after, wanted);
    forall i, j | 0 <= i < j < |after|
      ensures after[i].id != after[j].id
    {
      assert rows[i].id != rows[j].id;
    }
    forall p | 0 <= p < |after|
      ensures PositionOf(after, wanted[p]) == p
    {
      assert wanted[p] in saved;
      var i :| 0 <= i < |rows| && rows[i].id == wanted[p];
      IndexOfIs(wanted, wanted[p]);
      PositionOfRow(rows, i);
      PositionOfRow(after, i);
    }
  }

  /** A new status type goes one past the last, which keeps dense positions dense. */
  lemma CreateKeepsDense(rows: seq<StatusType>, id: string)
    requires DistinctRows(rows) && Dense(rows) && forall i :: 0 <= i < |rows| ==> rows[i].id != id
    ensures Dense(rows + [StatusType(id, Created(rows))]) &&
            Order(rows + [StatusType(id, Created(rows))]) == Order(rows) + [id]
  {
    var next := rows + [StatusType(id, |rows|)];
    StatusOrderIs(rows);
    CreatedIsCount(rows);
    var wanted := seq(|next|, p requires 0 <= p < |next| => (p, if p < |rows| then Order(rows)[p] else id));
    forall i, j | 0 <= i < j < |StatusKeys(next)|
      ensures StatusKeys(next)[i] != StatusKeys(next)[j]
    {
      assert next[i].id != next[j].id;
    }
    forall k: Key
      ensures k in StatusKeys(next) <==> k in wanted
    {
      CreatedKey(rows, id, k, wanted);
    }
    Sorting.DistinctSameMembers(StatusKeys(next), wanted);
    forall i, j | 0 <= i < j < |wanted|
      ensures wanted[i].1 != wanted[j].1
    {
      assert Order(rows)[i] in Order(rows);
    }
    OrderedIff(StatusKeys(next), wanted);
    assert Ids(wanted) == Order(rows) + [id];
    PlacedIsDense(next, wanted);
  }

  /** Rows whose keys are their places in the list are dense. */
  lemma PlacedIsDense(rows: seq<StatusType>, wanted: seq<Key>)
    requires DistinctRows(rows) && |wanted| == |rows| && Order(rows) == Ids(wanted)
    requires forall p :: 0 <= p < |wanted| ==> wanted[p].0 == p && wanted[p] in StatusKeys(rows)
    ensures Dense(rows)
  {
    forall p | 0 <= p < |rows|
      ensures PositionOf(rows, Order(rows)[p]) == p
    {
      var i :| 0 <= i < |rows| && StatusKeys(rows)[i] == wanted[p];
      PositionOfRow(rows, i);
    }
  }

  lemma CreatedKey(rows: seq<StatusType>, id: string, k: Key, wanted: seq<Key>)
    requires DistinctRows(rows) && Dense(rows)
    requires |wanted| == |rows| + 1 && forall p :: 0 <= p < |wanted| ==>
             wanted[p] == (p, if p < |rows| then Order(rows)[p] else id)
    ensures k in StatusKeys(rows + [StatusType(id, |rows|)]) <==> k in wanted
  {
    var next := rows + [StatusType(id, |rows|)];
    StatusOrderIs(rows);
    if k in StatusKeys(next) {
      var i :| 0 <= i < |next| && StatusKeys(next)[i] == k;
      if i < |rows| {
        assert rows[i].id in Order(rows);
        var p :| 0 <= p < |rows| && Order(rows)[p] == rows[i].id;
        PositionOfRow(rows, i);
        assert wanted[p] == k;
      } else {
        assert wanted[|rows|] == k;
      }
    }
    if k in wanted {
      var p :| 0 <= p < |wanted| && wanted[p] == k;
      if p < |rows| {
        assert Order(rows)[p] in Order(rows);
        var i :| 0 <= i < |rows| && rows[i].id == Order(rows)[p];
        PositionOfRow(rows, i);
        assert StatusKeys(next)[i] == k;
      } else {
        assert StatusKeys(next)[|rows|] == k;
      }
    }
  }

  function MaxPosition(rows: seq<StatusType>): int {
    if rows == [] then -1
    else
      var rest := MaxPosition(rows[1..]);
      if rows[0].position > rest then rows[0].position else rest
  }

  /** The position a new status type gets. */
  function Created(rows: seq<StatusType>): int {
    MaxPosition(rows) + 1
  }

  lemma {:induction false} MaxPositionIs(rows: seq<StatusType>)
    ensures forall i :: 0 <= i < |rows| ==> rows[i].position <= MaxPosition(rows)
    ensures MaxPosition(rows) == -1 || exists i :: 0 <= i < |rows| && rows[i].position == MaxPosition(rows)
  {
    if rows != [] {
      MaxPositionIs(rows[1..]);
      if MaxPosition(rows) != -1 && MaxPosition(rows) != rows[0].position {
        var i :| 0 <= i < |rows[1..]| && rows[1..][i].position == MaxPosition(rows[1..]);
        assert rows[i + 1].position == MaxPosition(rows);
      }
    }
  }

  lemma CreatedIsCount(rows: seq<StatusType>)
    requires DistinctRows(rows) && Dense(rows)
    ensures Created(rows) == |rows|
  {
    MaxPositionIs(rows);
    StatusOrderIs(rows);
    if rows != [] {
      var last := Order(rows)[|rows| - 1];
      assert last in Order(rows);
      var i :| 0 <= i < |rows| && rows[i].id == last;
      PositionOfRow(rows, i);
      if k :| 0 <= k < |rows| && rows[k].position == MaxPosition(rows) {
        assert rows[k].id in Order(rows);
        var p :| 0 <= p < |rows| && Order(rows)[p] == rows[k].id;
        PositionOfRow(rows, k);
      }
    }
  }

  lemma SortedKeysRead(rows: seq<StatusType>)
    requires DistinctRows(rows) && Sorting.Sorted(KeyLe, StatusKeys(rows))
    ensures Order(rows) == Ids(StatusKeys(rows))
  {
    forall i, j | 0 <= i < j < |rows|
      ensures StatusKeys(rows)[i].1 != StatusKeys(rows)[j].1
    {
      assert rows[i].id != rows[j].id;
    }
    OrderedIff(StatusKeys(rows), StatusKeys(rows));
  }

  /**
   * The skip needs dense positions. Of four dense status types the first is deleted, so that the others stand at 1, 2
   * and 3, and the last one is to move to the middle: it gets position 1 as well, and if its id comes before that of
   * the one left in place, the list reads back in another order than requested.
   */
  lemma DeletionBreaksOrder(z: string, x: string, y: string, w: string)
    requires z !in [x, y, w] && x != y && y != w && !Sorting.StringLe(x, w)
    ensures var rows := [StatusType(z, 0), StatusType(x, 1), StatusType(y, 2), StatusType(w, 3)];
            var left, wanted := rows[1..], [x, w, y];
            var after := seq(|left|, i requires 0 <= i < |left| => Moved(left[i], Order(left), wanted));
            && DistinctRows(rows) && Dense(rows)
            && Order(left) == [x, y, w] && Permutes(Order(left), wanted) && Order(after) != wanted
  {
    var rows := [StatusType(z, 0), StatusType(x, 1), StatusType(y, 2), StatusType(w, 3)];
    var left, wanted := rows[1..], [x, w, y];
    var after := seq(|left|, i requires 0 <= i < |left| => Moved(left[i], Order(left), wanted));
    assert x != w by {
      Sorting.StringLeIsTotalOrder();
    }
    FourAreDense(z, x, y, w);
    LeftBehind(x, y, w);
    assert left == [StatusType(x, 1), StatusType(y, 2), StatusType(w, 3)];
    MovedOrderIff(left, after, wanted);
  }

  lemma FourAreDense(z: string, x: string, y: string, w: string)
    requires z !in [x, y, w] && x != y && y != w && x != w
    ensures var rows := [StatusType(z, 0), StatusType(x, 1), StatusType(y, 2), StatusType(w, 3)];
            DistinctRows(rows) && Dense(rows)
  {
    var rows := [StatusType(z, 0), StatusType(x, 1), StatusType(y, 2), StatusType(w, 3)];
    SortedKeysRead(rows);
    forall p | 0 <= p < |rows|
      ensures PositionOf(rows, Order(rows)[p]) == p
    {
      assert Order(rows)[p] == rows[p].id;
      PositionOfRow(rows, p);
    }
  }

  lemma LeftBehind(x: string, y: string, w: string)
    requires x != y && y != w && x != w && !Sorting.StringLe(x, w)
    ensures var left := [StatusType(x, 1), StatusType(y, 2), StatusType(w, 3)];
            && DistinctRows(left) && Order(left) == [x, y, w]
            && Permutes([x, y, w], [x, w, y]) && !StaysBetween(left, [x, y, w], [x, w, y])
  {
    var left := [StatusType(x, 1), StatusType(y, 2), StatusType(w, 3)];
    SortedKeysRead(left);
    PositionOfRow(left, 0);
    var saved, wanted := [x, y, w], [x, w, y];
    assert saved[0] == wanted[0] && saved[1] != wanted[1];
    assert !KeyLe((PositionOf(left, wanted[0]), wanted[0]), (1, wanted[1]));
    assert wanted[0] == x && wanted[1] == w && wanted[2] == y;
  }

  class StatusStore {
    var rows: seq<StatusType>

    method SetStatusTypeOrder(wanted: seq<string>, expected: seq<string>) returns (answer: Answer)
      requires DistinctRows(rows)
      modifies this
      ensures DistinctRows(rows)
      ensures answer != Changed ==> rows == old(rows)
      ensures answer == Unchanged <==> Order(old(rows)) == wanted
      ensures answer == Changed <==>
              Order(old(rows)) != wanted && Order(old(rows)) == expected && Permutes(Order(old(rows)), wanted)
      ensures answer == Changed ==> (Order(rows) == wanted <==> StaysBetween(old(rows), Order(old(rows)), wanted))
      ensures answer == Changed && Dense(old(rows)) ==> Order(rows) == wanted && Dense(rows)
      ensures answer.Refused? ==> answer.status == if Order(old(rows)) != expected then 409 else 400
    {
      var saved := Order(rows);
      StatusOrderIs(rows);
      if saved == wanted {
        return Unchanged;
      }
      if saved != expected {
        return Refused(409);
      }
      if |wanted| != |saved| || exists id :: id in saved && id !in wanted {
        return Refused(400);
      }
      PermutesSame(saved, wanted);
      Renumber(saved, wanted);
      MovedOrderIff(old(rows), rows, wanted);
      if Dense(old(rows)) {
        DenseMoves(old(rows), rows, wanted);
      }
      return Changed;
    }

    /** Gives each row whose place changes its new place as its position. */
    method Renumber(saved: seq<string>, wanted: seq<string>)
      requires |saved| == |wanted| && forall p, q :: 0 <= p < q < |wanted| ==> wanted[p] != wanted[q]
      modifies this
      ensures |rows| == |old(rows)| && forall i :: 0 <= i < |rows| ==> rows[i] == Moved(old(rows)[i], saved, wanted)
    {
      for p := 0 to |wanted|
        invariant |rows| == |old(rows)|
        invariant forall i :: 0 <= i < |rows| ==>
                  var was := old(rows)[i];
                  rows[i] == if IndexOf(wanted, was.id) < p then Moved(was, saved, wanted) else was
      {
        if saved[p] != wanted[p] {
          SetPosition(wanted[p], p);
        }
        forall i | 0 <= i < |rows|
          ensures IndexOf(wanted, old(rows)[i].id) == p <==> old(rows)[i].id == wanted[p]
        {
          IndexOfIs(wanted, old(rows)[i].id);
        }
      }
      forall i | 0 <= i < |rows|
        ensures rows[i] == Moved(old(rows)[i], saved, wanted)
      {
        IndexOfIs(wanted, old(rows)[i].id);
      }
    }

    method SetPosition(id: string, position: int)
      modifies this
      ensures |rows| == |old(rows)|
      ensures forall i :: 0 <= i < |rows| ==>
              rows[i] == if old(rows)[i].id == id then old(rows)[i].(position := position) else old(rows)[i]
    {
      for i := 0 to |rows|
        invariant |rows| == |old(rows)|
        invariant forall j :: 0 <= j < |rows| ==>
                    var was := old(rows)[j];
                    rows[j] == if j < i && was.id == id then was.(position := position) else was
      {
        if rows[i].id == id {
          rows := rows[i := rows[i].(position := position)];
        }
      }
    }
  }
}
