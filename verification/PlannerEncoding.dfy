/**
 * The month planner's standings: names and effects are sent once, in shared tables, and each standing is a flat list of
 * index triples. The page turns the triples back into entries.
 */
module PlannerEncoding {
  import opened Options
  import Sorting

  datatype Code = A | D | U

  datatype Noted = Noted(code: Code, reason: string)

  datatype Effect = Available | Affected(noted: Noted)

  /** One person's count on a track, as the roster engine gives it. */
  datatype Count = Count(personId: string, count: int, effect: Effect)

  datatype TrackCounts = TrackCounts(track: string, counts: seq<Count>)

  datatype TrackStanding = TrackStanding(track: string, standing: seq<int>)

  datatype Planner = Planner(people: seq<string>, effects: seq<Noted>, current: Option<seq<TrackStanding>>)

  /** What the page decodes. None stands for reading past the end of a list, Some(None) for an available person. */
  datatype Entry = Entry(personId: Option<string>, count: Option<int>, effect: Option<Option<Noted>>)

  datatype TrackEntries = TrackEntries(track: string, entries: seq<Entry>)

  // ---------------------------------------------------------------- tables in order of first appearance

  /** A table after adding those of `xs` that it lacks, in order. */
  function Interned<T(==)>(table: seq<T>, xs: seq<T>): seq<T>
    decreases |xs|
  {
    if xs == [] then table
    else
      var before, last := Interned(table, xs[..|xs| - 1]), xs[|xs| - 1];
      if last in before then before else before + [last]
  }

  lemma {:induction false} InternedIs<T(!new)>(table: seq<T>, xs: seq<T>)
    requires Sorting.Distinct(table)
    ensures Sorting.Distinct(Interned(table, xs)) && table <= Interned(table, xs)
    ensures forall x :: x in Interned(table, xs) <==> x in table || x in xs
    decreases |xs|
  {
    if xs != [] {
      InternedIs(table, xs[..|xs| - 1]);
      assert xs == xs[..|xs| - 1] + [xs[|xs| - 1]];
    }
  }

  lemma {:induction false} InternedTwice<T>(table: seq<T>, xs: seq<T>, ys: seq<T>)
    ensures Interned(Interned(table, xs), ys) == Interned(table, xs + ys)
    decreases |ys|
  {
    if ys == [] {
      assert xs + ys == xs;
    } else {
      InternedTwice(table, xs, ys[..|ys| - 1]);
      assert (xs + ys)[..|xs + ys| - 1] == xs + ys[..|ys| - 1];
    }
  }

  lemma {:induction false} InternedGrows<T>(table: seq<T>, xs: seq<T>)
    ensures table <= Interned(table, xs)
    decreases |xs|
  {
    if xs != [] {
      InternedGrows(table, xs[..|xs| - 1]);
    }
  }

  function Persons(counts: seq<Count>): seq<string> {
    seq(|counts|, i requires 0 <= i < |counts| => counts[i].personId)
  }

  function NotedOf(effect: Effect): seq<Noted> {
    match effect
    case Available => []
    case Affected(noted) => [noted]
  }

  function Notes(counts: seq<Count>): seq<Noted> {
    if counts == [] then [] else Notes(counts[..|counts| - 1]) + NotedOf(counts[|counts| - 1].effect)
  }

  function AllCounts(tracks: seq<TrackCounts>): seq<Count> {
    if tracks == [] then [] else AllCounts(tracks[..|tracks| - 1]) + tracks[|tracks| - 1].counts
  }

  lemma {:induction false} NotesJoin(a: seq<Count>, b: seq<Count>)
    ensures Notes(a + b) == Notes(a) + Notes(b)
    decreases |b|
  {
    if b == [] {
      assert a + b == a;
    } else {
      NotesJoin(a, b[..|b| - 1]);
      assert (a + b)[..|a + b| - 1] == a + b[..|b| - 1];
    }
  }

  // ---------------------------------------------------------------- reading triples

  function At<T>(xs: seq<T>, i: int): Option<T> {
    if 0 <= i < |xs| then Some(xs[i]) else None
  }

  function EffectFor(effects: seq<Noted>, index: Option<int>): Option<Option<Noted>> {
    match index
    case None => None
    case Some(0) => Some(None)
    case Some(n) => match At(effects, n - 1) case None => None case Some(noted) => Some(Some(noted))
  }

  function EntryAt(people: seq<string>, effects: seq<Noted>, standing: seq<int>, at: nat): Entry {
    Entry(match At(standing, at) case None => None case Some(p) => At(people, p),
          At(standing, at + 1),
          EffectFor(effects, At(standing, at + 2)))
  }

  function Decoded(people: seq<string>, effects: seq<Noted>, standing: seq<int>): seq<Entry> {
    seq((|standing| + 2) / 3, i requires 0 <= i < (|standing| + 2) / 3 => EntryAt(people, effects, standing, 3 * i))
  }

  function DecodedCurrent(p: Planner): Option<seq<TrackEntries>> {
    match p.current
    case None => None
    case Some(tracks) =>
      Some(seq(|tracks|, i requires 0 <= i < |tracks| =>
                 TrackEntries(tracks[i].track, Decoded(p.people, p.effects, tracks[i].standing))))
  }

  /** What the page must show for a count. */
  function Shown(c: Count): Entry {
    Entry(Some(c.personId), Some(c.count),
          Some(match c.effect case Available => None case Affected(noted) => Some(noted)))
  }

  function ShownCounts(counts: seq<Count>): seq<Entry> {
    seq(|counts|, i requires 0 <= i < |counts| => Shown(counts[i]))
  }

  function ShownCurrent(current: Option<seq<TrackCounts>>): Option<seq<TrackEntries>> {
    match current
    case None => None
    case Some(tracks) =>
      Some(seq(|tracks|, i requires 0 <= i < |tracks| => TrackEntries(tracks[i].track, ShownCounts(tracks[i].counts))))
  }

  // ---------------------------------------------------------------- what a standing encodes

  /** The triple at place `i` stands for this count. */
  ghost predicate TripleIs(people: seq<string>, effects: seq<Noted>, c: Count, standing: seq<int>, i: nat) {
    3 * i + 3 <= |standing| && At(people, standing[3 * i]) == Some(c.personId) && standing[3 * i + 1] == c.count &&
    EffectIs(effects, c.effect, standing[3 * i + 2])
  }

  ghost predicate EffectIs(effects: seq<Noted>, effect: Effect, e: int) {
    match effect
    case Available => e == 0
    case Affected(noted) => e != 0 && At(effects, e - 1) == Some(noted)
  }

  ghost predicate Encodes(people: seq<string>, effects: seq<Noted>, counts: seq<Count>, standing: seq<int>) {
    |standing| == 3 * |counts| &&
    forall i {:trigger TripleIs(people, effects, counts[i], standing, i)} :: 0 <= i < |counts| ==>
      TripleIs(people, effects, counts[i], standing, i)
  }

  /** Whole triples decode to the given counts exactly when they encode them. */
  lemma DecodesIffEncodes(people: seq<string>, effects: seq<Noted>, counts: seq<Count>, standing: seq<int>)
    requires |standing| % 3 == 0
    ensures Decoded(people, effects, standing) == ShownCounts(counts) <==> Encodes(people, effects, counts, standing)
  {
    var read, shown := Decoded(people, effects, standing), ShownCounts(counts);
    if |standing| == 3 * |counts| {
      assert |read| == |shown|;
      forall i | 0 <= i < |counts|
        ensures read[i] == shown[i] <==> TripleIs(people, effects, counts[i], standing, i)
      {
        assert read[i] == EntryAt(people, effects, standing, 3 * i) && shown[i] == Shown(counts[i]);
      }
    } else {
      assert |read| != |shown|;
    }
  }

  lemma EncodesMore(people: seq<string>, effects: seq<Noted>, counts: seq<Count>, standing: seq<int>,
                    people': seq<string>, effects': seq<Noted>)
    requires Encodes(people, effects, counts, standing) && people <= people' && effects <= effects'
    ensures Encodes(people', effects', counts, standing)
  {
    forall i | 0 <= i < |counts|
      ensures TripleIs(people', effects', counts[i], standing, i)
    {
      assert TripleIs(people, effects, counts[i], standing, i);
    }
  }

  lemma EncodesNext(people: seq<string>, effects: seq<Noted>, counts: seq<Count>, standing: seq<int>, c: Count, p: int,
                    e: int)
    requires Encodes(people, effects, counts, standing)
    requires At(people, p) == Some(c.personId) && EffectIs(effects, c.effect, e)
    ensures Encodes(people, effects, counts + [c], standing + [p, c.count, e])
  {
    var all, triples := counts + [c], standing + [p, c.count, e];
    forall i | 0 <= i < |all|
      ensures TripleIs(people, effects, all[i], triples, i)
    {
      assert i < |counts| ==> TripleIs(people, effects, counts[i], standing, i);
    }
  }

  /** With no duplicate in either table there is one way to encode a list of counts. */
  lemma EncodingIsUnique(people: seq<string>, effects: seq<Noted>, counts: seq<Count>, one: seq<int>, other: seq<int>)
    requires Sorting.Distinct(people) && Sorting.Distinct(effects)
    requires Encodes(people, effects, counts, one) && Encodes(people, effects, counts, other)
    ensures one == other
  {
    forall k | 0 <= k < |one|
      ensures one[k] == other[k]
    {
      var i := k / 3;
      assert TripleIs(people, effects, counts[i], one, i) && TripleIs(people, effects, counts[i], other, i);
      assert k == 3 * i || k == 3 * i + 1 || k == 3 * i + 2;
    }
  }

  // ---------------------------------------------------------------- the encoder

  function CodeText(code: Code): string {
    match code
    case A => "A"
    case D => "D"
    case U => "U"
  }

  function Key(noted: Noted): string {
    CodeText(noted.code) + ":" + noted.reason
  }

  /** Distinct effects have distinct keys, so the index never merges two of them. */
  lemma KeyIsInjective(a: Noted, b: Noted)
    ensures Key(a) == Key(b) <==> a == b
  {
    assert Key(a)[0] == CodeText(a.code)[0] && Key(b)[0] == CodeText(b.code)[0];
    assert Key(a)[2..] == a.reason && Key(b)[2..] == b.reason;
  }

  /** What the index holds for this key is the place, counted from `first`, of a row with the key. */
  ghost predicate Points<T(!new)>(table: seq<T>, index: map<string, nat>, key: T -> string, first: nat, k: string) {
    k in index ==> first <= index[k] < |table| + first && key(table[index[k] - first]) == k
  }

  ghost predicate Placed<T(!new)>(table: seq<T>, index: map<string, nat>, key: T -> string, first: nat, i: nat) {
    i < |table| ==> key(table[i]) in index && index[key(table[i])] == i + first
  }

  ghost predicate Indexed<T(!new)>(table: seq<T>, index: map<string, nat>, key: T -> string, first: nat) {
    (forall k :: Points(table, index, key, first, k)) && forall i :: Placed(table, index, key, first, i)
  }

  lemma IndexedGrows<T(!new)>(table: seq<T>, index: map<string, nat>, key: T -> string, first: nat, x: T)
    requires Indexed(table, index, key, first) && key(x) !in index
    ensures Indexed(table + [x], index[key(x) := |table| + first], key, first) && x !in table
  {
    var table', index' := table + [x], index[key(x) := |table| + first];
    forall k
      ensures Points(table', index', key, first, k)
    {
      assert Points(table, index, key, first, k);
    }
    forall i: nat
      ensures Placed(table', index', key, first, i) && (i < |table| ==> table[i] != x)
    {
      assert Placed(table, index, key, first, i);
    }
  }

  lemma IndexedFinds<T(!new)>(table: seq<T>, index: map<string, nat>, key: T -> string, first: nat, x: T)
    requires Indexed(table, index, key, first) && key(x) in index
    requires forall y :: key(y) == key(x) ==> y == x
    ensures x in table && first <= index[key(x)] && At(table, index[key(x)] - first) == Some(x)
  {
    assert Points(table, index, key, first, key(x));
  }

  lemma IndexedIsDistinct<T(!new)>(table: seq<T>, index: map<string, nat>, key: T -> string, first: nat)
    requires Indexed(table, index, key, first)
    ensures Sorting.Distinct(table)
  {
    forall i, j | 0 <= i < j < |table|
      ensures table[i] != table[j]
    {
      assert Placed(table, index, key, first, i) && Placed(table, index, key, first, j);
    }
  }

  lemma NotedFinds(effects: seq<Noted>, index: map<string, nat>, noted: Noted)
    requires Indexed(effects, index, Key, 1) && Key(noted) in index
    ensures noted in effects && index[Key(noted)] != 0 && At(effects, index[Key(noted)] - 1) == Some(noted)
  {
    forall other | Key(other) == Key(noted)
      ensures other == noted
    {
      KeyIsInjective(other, noted);
    }
    IndexedFinds(effects, index, Key, 1, noted);
  }

  lemma InternedOne<T>(table: seq<T>, x: T)
    ensures Interned(table, [x]) == if x in table then table else table + [x]
  {
    assert Interned(table, [x][..0]) == table;
  }

  lemma FlatStep(people: seq<string>, effects: seq<Noted>, people': seq<string>, effects': seq<Noted>,
                 before: seq<Count>, c: Count, standing: seq<int>, p: int, e: int)
    requires Encodes(people, effects, before, standing)
    requires people' == Interned(people, [c.personId]) && effects' == Interned(effects, NotedOf(c.effect))
    requires At(people', p) == Some(c.personId) && EffectIs(effects', c.effect, e)
    ensures Encodes(people', effects', before + [c], standing + [p, c.count, e])
  {
    InternedGrows(people, [c.personId]);
    InternedGrows(effects, NotedOf(c.effect));
    EncodesMore(people, effects, before, standing, people', effects');
    EncodesNext(people', effects', before, standing, c, p, e);
  }

  lemma OneCount(c: Count)
    ensures Persons([c]) == [c.personId] && Notes([c]) == NotedOf(c.effect)
  {
    assert [c][..0] == [];
  }

  class PlannerTables {
    var people: seq<string>
    var personIndex: map<string, nat>
    var effects: seq<Noted>
    var effectIndex: map<string, nat>

    ghost predicate Valid()
      reads this
    {
      Indexed(people, personIndex, id => id, 0) && Indexed(effects, effectIndex, Key, 1)
    }

    constructor ()
      ensures Valid() && people == [] && effects == []
    {
      people, personIndex, effects, effectIndex := [], map[], [], map[];
    }

    method PersonAt(id: string) returns (at: nat)
      requires Valid()
      modifies this
      ensures Valid() && effects == old(effects)
      ensures people == Interned(old(people), [id])
      ensures At(people, at) == Some(id)
    {
      InternedOne(people, id);
      if id in personIndex {
        IndexedFinds(people, personIndex, id => id, 0, id);
        return personIndex[id];
      }
      IndexedGrows(people, personIndex, id => id, 0, id);
      at := |people|;
      people := people + [id];
      personIndex := personIndex[id := at];
    }

    method EffectAt(effect: Effect) returns (at: nat)
      requires Valid()
      modifies this
      ensures Valid() && people == old(people)
      ensures effects == Interned(old(effects), NotedOf(effect))
      ensures EffectIs(effects, effect, at)
    {
      if effect.Available? {
        return 0;
      }
      var noted := effect.noted;
      InternedOne(effects, noted);
      var key := Key(noted);
      if key in effectIndex {
        NotedFinds(effects, effectIndex, noted);
        return effectIndex[key];
      }
      IndexedGrows(effects, effectIndex, Key, 1, noted);
      effects := effects + [noted];
      at := |effects|;
      effectIndex := effectIndex[key := at];
    }

    method Flat(counts: seq<Count>) returns (standing: seq<int>)
      requires Valid()
      modifies this
      ensures Valid()
      ensures people == Interned(old(people), Persons(counts)) && effects == Interned(old(effects), Notes(counts))
      ensures Encodes(people, effects, counts, standing)
    {
      standing := [];
      for i := 0 to |counts|
        invariant Valid()
        invariant people == Interned(old(people), Persons(counts[..i])) &&
                  effects == Interned(old(effects), Notes(counts[..i]))
        invariant Encodes(people, effects, counts[..i], standing)
      {
        ghost var people', effects' := people, effects;
        var p := PersonAt(counts[i].personId);
        var e := EffectAt(counts[i].effect);
        assert counts[..i + 1] == counts[..i] + [counts[i]];
        OneCount(counts[i]);
        InternedJoin(old(people), old(effects), counts[..i], [counts[i]]);
        FlatStep(people', effects', people, effects, counts[..i], counts[i], standing, p, e);
        standing := standing + [p, counts[i].count, e];
      }
      assert counts[..|counts|] == counts;
    }

    lemma TablesDistinct()
      requires Valid()
      ensures Sorting.Distinct(people) && Sorting.Distinct(effects)
    {
      IndexedIsDistinct(people, personIndex, id => id, 0);
      IndexedIsDistinct(effects, effectIndex, Key, 1);
    }
  }

  /**
   * Decoding what this sends gives back every person, count and effect, over tables without duplicates or unused rows.
   */
  method EncodePlanner(current: Option<seq<TrackCounts>>) returns (p: Planner)
    ensures DecodedCurrent(p) == ShownCurrent(current)
    ensures Sorting.Distinct(p.people) && Sorting.Distinct(p.effects)
    ensures var counts := if current.Some? then AllCounts(current.value) else [];
            p.people == Interned([], Persons(counts)) && p.effects == Interned([], Notes(counts))
    ensures current.Some? ==> p.current.Some? && AllEncoded(p.people, p.effects, current.value, p.current.value)
  {
    var tables := new PlannerTables();
    if current.None? {
      return Planner(tables.people, tables.effects, None);
    }
    var tracks := current.value;
    var sent: seq<TrackStanding> := [];
    for i := 0 to |tracks|
      invariant tables.Valid()
      invariant tables.people == Interned([], Persons(AllCounts(tracks[..i])))
      invariant tables.effects == Interned([], Notes(AllCounts(tracks[..i])))
      invariant AllEncoded(tables.people, tables.effects, tracks[..i], sent)
    {
      ghost var people, effects := tables.people, tables.effects;
      var standing := tables.Flat(tracks[i].counts);
      TrackStep(tracks, i, people, effects, tables.people, tables.effects, sent, standing);
      sent := sent + [TrackStanding(tracks[i].track, standing)];
    }
    assert tracks[..|tracks|] == tracks;
    tables.TablesDistinct();
    p := Planner(tables.people, tables.effects, Some(sent));
    AllDecode(p.people, p.effects, tracks, sent);
  }

  ghost predicate AllEncoded(people: seq<string>, effects: seq<Noted>, tracks: seq<TrackCounts>,
                             sent: seq<TrackStanding>) {
    |sent| == |tracks| &&
    forall k {:trigger TrackEncoded(people, effects, tracks[k], sent[k])} :: 0 <= k < |tracks| ==>
      TrackEncoded(people, effects, tracks[k], sent[k])
  }

  ghost predicate TrackEncoded(people: seq<string>, effects: seq<Noted>, track: TrackCounts, sent: TrackStanding) {
    sent.track == track.track && Encodes(people, effects, track.counts, sent.standing)
  }

  lemma TrackStep(tracks: seq<TrackCounts>, i: nat, people: seq<string>, effects: seq<Noted>, people': seq<string>,
                  effects': seq<Noted>, sent: seq<TrackStanding>, standing: seq<int>)
    requires i < |tracks|
    requires people == Interned([], Persons(AllCounts(tracks[..i]))) &&
             effects == Interned([], Notes(AllCounts(tracks[..i])))
    requires people' == Interned(people, Persons(tracks[i].counts)) &&
             effects' == Interned(effects, Notes(tracks[i].counts))
    requires AllEncoded(people, effects, tracks[..i], sent) && Encodes(people', effects', tracks[i].counts, standing)
    ensures people' == Interned([], Persons(AllCounts(tracks[..i + 1])))
    ensures effects' == Interned([], Notes(AllCounts(tracks[..i + 1])))
    ensures AllEncoded(people', effects', tracks[..i + 1], sent + [TrackStanding(tracks[i].track, standing)])
  {
    TablesStep(tracks, i, people, effects, people', effects');
    AllEncodedMore(people, effects, tracks[..i], sent, people', effects');
    AllEncodedNext(people', effects', tracks[..i], sent, tracks[i], standing);
    assert tracks[..i + 1] == tracks[..i] + [tracks[i]];
  }

  lemma AllEncodedNext(people: seq<string>, effects: seq<Noted>, tracks: seq<TrackCounts>, sent: seq<TrackStanding>,
                       track: TrackCounts, standing: seq<int>)
    requires AllEncoded(people, effects, tracks, sent) && Encodes(people, effects, track.counts, standing)
    ensures AllEncoded(people, effects, tracks + [track], sent + [TrackStanding(track.track, standing)])
  {
    var all, also := tracks + [track], sent + [TrackStanding(track.track, standing)];
    forall k | 0 <= k < |all|
      ensures TrackEncoded(people, effects, all[k], also[k])
    {
      assert k < |tracks| ==> TrackEncoded(people, effects, tracks[k], sent[k]);
    }
  }

  lemma TablesStep(tracks: seq<TrackCounts>, i: nat, people: seq<string>, effects: seq<Noted>, people': seq<string>,
                   effects': seq<Noted>)
    requires i < |tracks|
    requires people == Interned([], Persons(AllCounts(tracks[..i]))) &&
             effects == Interned([], Notes(AllCounts(tracks[..i])))
    requires people' == Interned(people, Persons(tracks[i].counts)) &&
             effects' == Interned(effects, Notes(tracks[i].counts))
    ensures people' == Interned([], Persons(AllCounts(tracks[..i + 1]))) && people <= people'
    ensures effects' == Interned([], Notes(AllCounts(tracks[..i + 1]))) && effects <= effects'
  {
    var before, counts := AllCounts(tracks[..i]), tracks[i].counts;
    assert AllCounts(tracks[..i + 1]) == before + counts by {
      assert tracks[..i + 1][..i] == tracks[..i];
    }
    InternedJoin([], [], before, counts);
    InternedGrows(people, Persons(counts));
    InternedGrows(effects, Notes(counts));
  }

  lemma InternedJoin(people: seq<string>, effects: seq<Noted>, before: seq<Count>, counts: seq<Count>)
    ensures Interned(Interned(people, Persons(before)), Persons(counts)) == Interned(people, Persons(before + counts))
    ensures Interned(Interned(effects, Notes(before)), Notes(counts)) == Interned(effects, Notes(before + counts))
  {
    assert Persons(before + counts) == Persons(before) + Persons(counts);
    NotesJoin(before, counts);
    InternedTwice(people, Persons(before), Persons(counts));
    InternedTwice(effects, Notes(before), Notes(counts));
  }

  lemma AllEncodedMore(people: seq<string>, effects: seq<Noted>, tracks: seq<TrackCounts>, sent: seq<TrackStanding>,
                       people': seq<string>, effects': seq<Noted>)
    requires AllEncoded(people, effects, tracks, sent) && people <= people' && effects <= effects'
    ensures AllEncoded(people', effects', tracks, sent)
  {
    forall k | 0 <= k < |tracks|
      ensures TrackEncoded(people', effects', tracks[k], sent[k])
    {
      assert TrackEncoded(people, effects, tracks[k], sent[k]);
      EncodesMore(people, effects, tracks[k].counts, sent[k].standing, people', effects');
    }
  }

  lemma AllDecode(people: seq<string>, effects: seq<Noted>, tracks: seq<TrackCounts>, sent: seq<TrackStanding>)
    requires AllEncoded(people, effects, tracks, sent)
    ensures DecodedCurrent(Planner(people, effects, Some(sent))) == ShownCurrent(Some(tracks))
  {
    var read, shown := DecodedCurrent(Planner(people, effects, Some(sent))).value, ShownCurrent(Some(tracks)).value;
    forall k | 0 <= k < |tracks|
      ensures read[k] == shown[k]
    {
      assert TrackEncoded(people, effects, tracks[k], sent[k]);
      DecodesIffEncodes(people, effects, tracks[k].counts, sent[k].standing);
    }
    assert read == shown;
  }

  // ---------------------------------------------------------------- the page's decoder

  method DecodeEntries(people: seq<string>, effects: seq<Noted>, standing: seq<int>) returns (decoded: seq<Entry>)
    ensures decoded == Decoded(people, effects, standing)
  {
    decoded := [];
    var at := 0;
    while at < |standing|
      invariant at == 3 * |decoded| && |decoded| <= (|standing| + 2) / 3
      invariant forall i :: 0 <= i < |decoded| ==> decoded[i] == EntryAt(people, effects, standing, 3 * i)
    {
      var effect := At(standing, at + 2);
      decoded := decoded + [Entry(At(people, standing[at]), At(standing, at + 1), EffectFor(effects, effect))];
      at := at + 3;
    }
  }

  method DecodeRoster(p: Planner) returns (current: Option<seq<TrackEntries>>)
    ensures current == DecodedCurrent(p)
  {
    if p.current.None? {
      return None;
    }
    var tracks: seq<TrackEntries> := [];
    for i := 0 to |p.current.value|
      invariant |tracks| == i
      invariant forall k :: 0 <= k < i ==>
                  tracks[k] == TrackEntries(p.current.value[k].track,
                                            Decoded(p.people, p.effects, p.current.value[k].standing))
    {
      var entries := DecodeEntries(p.people, p.effects, p.current.value[i].standing);
      tracks := tracks + [TrackEntries(p.current.value[i].track, entries)];
    }
    current := Some(tracks);
    assert current.value == DecodedCurrent(p).value;
  }
}
