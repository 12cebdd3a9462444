/**
 * Names for the sheets of an export workbook: legal, short and never repeated. A char here is a Unicode scalar value,
 * which is one UTF-16 code unit for every character but those beyond the basic plane.
 */
module WorksheetNames {
  import Sets

  const MAX_LENGTH: nat := 31

  function Clean(name: string): (r: string)
    ensures |r| == |name|
    ensures forall i :: 0 <= i < |r| ==> !Forbidden(r[i]) && r[i] in {name[i], ' '}
    ensures forall i :: 0 <= i < |r| && !Forbidden(name[i]) ==> r[i] == name[i]
  {
    seq(|name|, i requires 0 <= i < |name| => if Forbidden(name[i]) then ' ' else name[i])
  }

  predicate Forbidden(c: char) {
    c in "\\/*?:[]"
  }

  /** Slicing from the start, where a negative end counts from the back. */
  function Slice(s: string, end: int): string {
    var at := if end < 0 then |s| + end else end;
    if at < 0 then [] else if at < |s| then s[..at] else s
  }

  function Base(name: string): string {
    var base := Slice(Clean(name), MAX_LENGTH);
    if base == [] then "Sheet" else base
  }

  function Digit(d: nat): char
    requires d < 10
  {
    "0123456789"[d]
  }

  function Digits(n: nat): string {
    if n < 10 then [Digit(n)] else Digits(n / 10) + [Digit(n % 10)]
  }

  function Suffix(counter: nat): string {
    " " + Digits(counter)
  }

  function Numbered(base: string, counter: nat): string {
    Slice(base, MAX_LENGTH - |Suffix(counter)|) + Suffix(counter)
  }

  /** The k-th name tried: the base, then the base with 2, 3 and so on. */
  function Tried(base: string, k: nat): string {
    if k == 0 then base else Numbered(base, k + 1)
  }

  /** The first name tried that is not in use. */
  ghost predicate FirstFree(base: string, used: set<string>, k: nat) {
    Tried(base, k) !in used && forall j :: 0 <= j < k ==> Tried(base, j) in used
  }

  /**
   * What a name may not hold, and what the base of a name keeps of it:
   * 31 characters at most, or "Sheet" for nothing.
   */
  lemma BaseIs(name: string)
    ensures forall c :: Forbidden(c) <==> c in {'\\', '/', '*', '?', ':', '[', ']'}
    ensures name == [] ==> Base(name) == "Sheet"
    ensures name != [] ==> |Base(name)| == if |name| <= 31 then |name| else 31
    ensures name != [] ==> Base(name) == Clean(name)[..|Base(name)|]
  {
  }

  /** The number that digits stand for. */
  function Reading(digits: string): nat {
    if digits == [] then 0
    else
      var last := digits[|digits| - 1];
      10 * Reading(digits[..|digits| - 1]) + (if '0' <= last <= '9' then (last - '0') as nat else 0)
  }

  /** A counter is written in decimal, without a leading zero. */
  lemma {:induction false} DigitsRead(n: nat)
    ensures Reading(Digits(n)) == n && Digits(n) != []
    ensures forall i :: 0 <= i < |Digits(n)| ==> '0' <= Digits(n)[i] <= '9'
    ensures n > 0 ==> Digits(n)[0] != '0'
    decreases n
  {
    if n >= 10 {
      DigitsRead(n / 10);
      assert Digits(n)[..|Digits(n)| - 1] == Digits(n / 10);
    } else {
      assert Digits(n)[..0] == [];
    }
  }

  /** A numbered name is as much of the base as leaves room for a space and the counter, and those. */
  lemma NumberedIs(base: string, counter: nat)
    ensures var tail := " " + Digits(counter);
            |tail| <= 31 ==>
              var room := 31 - |tail|;
              Numbered(base, counter) == (if |base| <= room then base else base[..room]) + tail
    ensures Tried(base, 0) == base && Tried(base, 1) == Numbered(base, 2) && Tried(base, 2) == Numbered(base, 3)
  {
  }

  // ---------------------------------------------------------------- numbered names differ

  lemma {:induction false} DigitsHaveNoSpace(n: nat)
    ensures ' ' !in Digits(n)
    ensures forall c :: c in Digits(n) ==> !Forbidden(c)
    decreases n
  {
    if n >= 10 {
      DigitsHaveNoSpace(n / 10);
    }
  }

  lemma {:induction false} DigitsAreInjective(m: nat, n: nat)
    requires Digits(m) == Digits(n)
    ensures m == n
    decreases m
  {
    var a, b := Digits(m), Digits(n);
    assert a[|a| - 1] == Digit(m % 10) && b[|b| - 1] == Digit(n % 10);
    if m >= 10 && n >= 10 {
      assert a[..|a| - 1] == Digits(m / 10) && b[..|b| - 1] == Digits(n / 10);
      DigitsAreInjective(m / 10, n / 10);
    }
  }

  /** A suffix starts at the last space. */
  lemma LastSpace(head: string, counter: nat)
    ensures var s := head + Suffix(counter);
            s[|head|] == ' ' && s[|head| + 1..] == Digits(counter) && forall i :: |head| < i < |s| ==> s[i] != ' '
  {
    DigitsHaveNoSpace(counter);
    var s := head + Suffix(counter);
    forall i | |head| < i < |s|
      ensures s[i] != ' '
    {
      assert s[i] == Digits(counter)[i - |head| - 1];
    }
  }

  /** The part after the last space tells two suffixes apart, whatever they follow. */
  lemma SuffixesDiffer(a: string, b: string, m: nat, n: nat)
    requires a + Suffix(m) == b + Suffix(n)
    ensures m == n
  {
    LastSpace(a, m);
    LastSpace(b, n);
    assert |a| == |b|;
    DigitsAreInjective(m, n);
  }

  /** Candidates with different counters differ. */
  lemma NumberedDiffer(base: string, m: nat, n: nat)
    ensures Numbered(base, m) == Numbered(base, n) <==> m == n
  {
    if Numbered(base, m) == Numbered(base, n) {
      SuffixesDiffer(Slice(base, MAX_LENGTH - |Suffix(m)|), Slice(base, MAX_LENGTH - |Suffix(n)|), m, n);
    }
  }

  // ---------------------------------------------------------------- numbered names are short

  function Pow10(k: nat): nat {
    if k == 0 then 1 else 10 * Pow10(k - 1)
  }

  lemma {:induction false} DigitsLength(n: nat, k: nat)
    requires k > 0
    ensures |Digits(n)| <= k <==> n < Pow10(k)
    decreases n
  {
    if n >= 10 {
      if k > 1 {
        DigitsLength(n / 10, k - 1);
      }
    } else {
      PowersGrow(k);
    }
  }

  lemma {:induction false} PowersGrow(k: nat)
    requires k > 0
    ensures Pow10(k) >= 10
  {
    if k > 1 {
      PowersGrow(k - 1);
    }
  }

  /** A numbered name fits as long as its counter has at most 30 digits, and then never beyond. */
  lemma NumberedFitsIff(base: string, counter: nat)
    requires |base| <= MAX_LENGTH
    ensures |Numbered(base, counter)| <= MAX_LENGTH <==> counter < Pow10(30)
  {
    DigitsLength(counter, 30);
  }

  predicate Legal(name: string) {
    name != [] && forall i :: 0 <= i < |name| ==> !Forbidden(name[i])
  }

  lemma NumberedIsLegal(base: string, counter: nat)
    requires Legal(base)
    ensures Legal(Numbered(base, counter))
  {
    DigitsHaveNoSpace(counter);
    var head, tail := Slice(base, MAX_LENGTH - |Suffix(counter)|), Suffix(counter);
    assert head <= base;
    forall i | 0 <= i < |head + tail|
      ensures !Forbidden((head + tail)[i])
    {
      if i > |head| {
        assert (head + tail)[i] == Digits(counter)[i - |head| - 1];
      }
    }
  }

  lemma TriedIsLegal(name: string, k: nat)
    ensures Legal(Tried(Base(name), k)) && |Base(name)| <= MAX_LENGTH
    ensures k + 1 < Pow10(30) ==> |Tried(Base(name), k)| <= MAX_LENGTH
  {
    var base := Base(name);
    assert Legal(base);
    if k > 0 {
      NumberedIsLegal(base, k + 1);
      NumberedFitsIff(base, k + 1);
    }
  }

  // ---------------------------------------------------------------- how many names are tried

  /** The names at places 1 to `k`. */
  function FirstOf(names: nat -> string, k: nat): set<string> {
    if k == 0 then {} else FirstOf(names, k - 1) + {names(k)}
  }

  lemma {:induction false} InFirstOf(names: nat -> string, k: nat, name: string)
    ensures name in FirstOf(names, k) <==> exists j: nat :: 0 < j <= k && names(j) == name
  {
    if k > 0 {
      InFirstOf(names, k - 1, name);
      assert names(k) == name ==> exists j: nat :: 0 < j <= k && names(j) == name;
    }
  }

  lemma {:induction false} FirstOfCounts(names: nat -> string, k: nat)
    requires forall i: nat, j: nat :: 0 < i < j <= k ==> names(i) != names(j)
    ensures |FirstOf(names, k)| == k
  {
    if k > 0 {
      FirstOfCounts(names, k - 1);
      InFirstOf(names, k - 1, names(k));
    }
  }

  /** The first `k` numbered names. */
  function NumberedSet(base: string, k: nat): set<string> {
    FirstOf((j: nat) => Tried(base, j), k)
  }

  lemma NumberedSetCounts(base: string, k: nat)
    ensures |NumberedSet(base, k)| == k
  {
    var names := (j: nat) => Tried(base, j);
    forall i: nat, j: nat | 0 < i < j
      ensures names(i) != names(j)
    {
      NumberedDiffer(base, i + 1, j + 1);
    }
    FirstOfCounts(names, k);
  }

  lemma InNumberedSet(base: string, k: nat, name: string)
    ensures name in NumberedSet(base, k) <==> exists j: nat :: 0 < j <= k && Tried(base, j) == name
  {
    var names := (j: nat) => Tried(base, j);
    InFirstOf(names, k, name);
    if name in NumberedSet(base, k) {
      var j: nat :| 0 < j <= k && names(j) == name;
      assert Tried(base, j) == name;
    }
    if j: nat :| 0 < j <= k && Tried(base, j) == name {
      assert names(j) == name;
    }
  }

  /** The base is itself one of its numbered names. */
  predicate RepeatsAt(base: string, counter: nat) {
    counter >= 2 && |base| == MAX_LENGTH && |Suffix(counter)| <= |base| &&
      base[|base| - |Suffix(counter)|..] == Suffix(counter)
  }

  lemma RepeatsIff(base: string, counter: nat)
    requires |base| <= MAX_LENGTH && counter >= 2
    ensures Numbered(base, counter) == base <==> RepeatsAt(base, counter)
  {
    var tail := Suffix(counter);
    var head := Slice(base, MAX_LENGTH - |tail|);
    assert Numbered(base, counter) == head + tail;
    if RepeatsAt(base, counter) {
      assert base == base[..MAX_LENGTH - |tail|] + tail;
    }
    if head + tail == base {
      assert base[|head|..] == tail;
    }
  }

  /** At most two more names are tried than are in use, and one more unless the base repeats. */
  lemma TriedAtMost(base: string, used: set<string>, k: nat)
    requires |base| <= MAX_LENGTH && forall j :: 0 <= j < k ==> Tried(base, j) in used
    ensures k <= |used| + 1
    ensures k == |used| + 1 ==> exists counter :: 2 <= counter <= k && RepeatsAt(base, counter)
  {
    if k > 0 {
      var numbered := NumberedSet(base, k - 1);
      NumberedSetCounts(base, k - 1);
      forall name | name in numbered
        ensures name in used
      {
        InNumberedSet(base, k - 1, name);
      }
      Sets.SubsetIsNoLarger(numbered, used);
      assert Tried(base, 0) in used;
      InNumberedSet(base, k - 1, base);
      if base !in numbered {
        Sets.SubsetIsNoLarger(numbered + {base}, used);
      } else {
        var j :| 0 < j < k && base == Tried(base, j);
        RepeatsIff(base, j + 1);
      }
    }
  }

  /**
   * Trying one more name than are in use is enough for every set of used names exactly when the base is not one of its
   * own numbered names, which takes a base of full length that ends in a space and a counter.
   */
  lemma OneMoreIsEnoughIff(base: string)
    requires |base| <= MAX_LENGTH
    ensures (forall used: set<string>, k: nat :: FirstFree(base, used, k) ==> k + 1 <= |used| + 1) <==>
            !exists counter :: RepeatsAt(base, counter)
  {
    if counter :| RepeatsAt(base, counter) {
      NeedsTwoMore(base, counter);
    }
    forall used: set<string>, k: nat | FirstFree(base, used, k) && k > |used|
      ensures exists counter :: RepeatsAt(base, counter)
    {
      TriedAtMost(base, used, k);
    }
  }

  lemma NeedsTwoMore(base: string, counter: nat)
    requires RepeatsAt(base, counter)
    ensures exists used: set<string>, k: nat :: FirstFree(base, used, k) && k + 1 == |used| + 2
  {
    RepeatsIff(base, counter);
    var used := NumberedSet(base, counter - 1);
    NumberedSetCounts(base, counter - 1);
    assert base == Tried(base, counter - 1);
    forall j | 0 <= j < counter
      ensures Tried(base, j) in used
    {
      InNumberedSet(base, counter - 1, Tried(base, j));
    }
    InNumberedSet(base, counter - 1, Tried(base, counter));
    forall j | 0 < j < counter
      ensures Tried(base, j) != Tried(base, counter)
    {
      NumberedDiffer(base, j + 1, counter + 1);
    }
    assert FirstFree(base, used, counter);
  }

  /** Such a sheet name of 31 characters that ends in " 2": listed twice, it takes three tries with one name in use. */
  lemma RepeatingName(name: string)
    requires name == "Assignment type daily counts  2"
    ensures Base(name) == name && RepeatsAt(name, 2) && FirstFree(name, {name}, 2)
  {
    assert Clean(name) == name;
    assert Digits(2) == "2";
    assert name[29..] == Suffix(2);
    RepeatsIff(name, 2);
    NumberedDiffer(name, 2, 3);
    assert Tried(name, 0) == name && Tried(name, 1) == name;
  }

  /** A base without digits is none of its numbered names. */
  lemma NoDigitsNoRepeat(base: string, counter: nat)
    requires forall i :: 0 <= i < |base| ==> base[i] !in "0123456789"
    ensures !RepeatsAt(base, counter)
  {
    var tail := Suffix(counter);
    assert tail[|tail| - 1] in "0123456789";
    assert 0 < |tail| <= |base| ==> base[|base| - |tail|..][|tail| - 1] == base[|base| - 1];
  }

  // ---------------------------------------------------------------- naming the sheets

  class SheetNames {
    var used: set<string>

    constructor ()
      ensures used == {}
    {
      used := {};
    }

    method ToWorksheetName(name: string) returns (candidate: string)
      modifies this
      ensures candidate !in old(used) && used == old(used) + {candidate}
      ensures exists k: nat ::
                FirstFree(Base(name), old(used), k) && candidate == Tried(Base(name), k) && k <= |old(used)| + 1
      ensures Legal(candidate)
      ensures |old(used)| + 2 < Pow10(30) ==> |candidate| <= MAX_LENGTH
    {
      var base := Base(name);
      TriedIsLegal(name, 0);
      candidate := base;
      var counter := 2;
      ghost var k := 0;
      while candidate in used
        invariant counter == k + 2 && candidate == Tried(base, k)
        invariant forall j :: 0 <= j < k ==> Tried(base, j) in used
        invariant used == old(used)
        decreases |used| + 1 - k
      {
        assert forall j :: 0 <= j < k + 1 ==> Tried(base, j) in used;
        TriedAtMost(base, used, k + 1);
        var suffix := Suffix(counter);
        candidate := Slice(base, MAX_LENGTH - |suffix|) + suffix;
        counter := counter + 1;
        k := k + 1;
      }
      TriedAtMost(base, used, k);
      TriedIsLegal(name, k);
      assert FirstFree(base, used, k);
      used := used + {candidate};
    }
  }

  function Names(names: seq<string>): set<string> {
    set name | name in names
  }

  lemma {:induction false} NamesCount(names: seq<string>)
    ensures |Names(names)| <= |names|
    decreases |names|
  {
    if names == [] {
      assert Names(names) == {};
    } else {
      var last := |names| - 1;
      NamesCount(names[..last]);
      assert names == names[..last] + [names[last]];
      assert Names(names) == Names(names[..last]) + {names[last]};
    }
  }

  /** The `i`-th sheet takes the first name tried that no earlier sheet took. */
  ghost predicate NamedInTurn(sheets: seq<string>, names: seq<string>, i: nat)
    requires i < |sheets| && i < |names|
  {
    exists k: nat :: FirstFree(Base(sheets[i]), Names(names[..i]), k) && names[i] == Tried(Base(sheets[i]), k)
  }

  ghost predicate AllNamed(sheets: seq<string>, names: seq<string>) {
    |names| <= |sheets| && forall i :: 0 <= i < |names| ==> NamedInTurn(sheets, names, i)
  }

  lemma NamedNext(sheets: seq<string>, names: seq<string>, name: string)
    requires |names| < |sheets| && AllNamed(sheets, names)
    requires exists k: nat ::
               FirstFree(Base(sheets[|names|]), Names(names), k) && name == Tried(Base(sheets[|names|]), k)
    ensures AllNamed(sheets, names + [name])
  {
    var named := names + [name];
    forall i | 0 <= i < |named|
      ensures NamedInTurn(sheets, named, i)
    {
      if i < |names| {
        assert NamedInTurn(sheets, names, i) && named[..i] == names[..i];
      } else {
        assert named[..i] == names;
      }
    }
  }

  method NameSheets(sheets: seq<string>) returns (names: seq<string>)
    ensures |names| == |sheets|
    ensures forall i, j :: 0 <= i < j < |names| ==> names[i] != names[j]
    ensures forall i :: 0 <= i < |names| ==> Legal(names[i]) && (|sheets| + 2 < Pow10(30) ==> |names[i]| <= MAX_LENGTH)
    ensures AllNamed(sheets, names)
  {
    var sheetNames := new SheetNames();
    names := [];
    for i := 0 to |sheets|
      invariant |names| == i && sheetNames.used == Names(names)
      invariant forall k, l :: 0 <= k < l < i ==> names[k] != names[l]
      invariant forall k :: 0 <= k < i ==> Legal(names[k]) && (|sheets| + 2 < Pow10(30) ==> |names[k]| <= MAX_LENGTH)
      invariant AllNamed(sheets, names)
    {
      NamesCount(names);
      var name := sheetNames.ToWorksheetName(sheets[i]);
      NamedNext(sheets, names, name);
      names := names + [name];
    }
  }
}
