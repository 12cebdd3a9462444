/** Trimming, as JavaScript does it. */
module Text {
  predicate IsSpace(c: char) {
    c in " \t\n\r\U{000B}\U{000C}\U{00A0}\U{1680}\U{2028}\U{2029}\U{202F}\U{205F}\U{3000}\U{FEFF}" ||
      '\U{2000}' <= c <= '\U{200A}'
  }

  function TrimStart(s: string): string {
    if s != [] && IsSpace(s[0]) then TrimStart(s[1..]) else s
  }

  function TrimEnd(s: string): string {
    if s != [] && IsSpace(s[|s| - 1]) then TrimEnd(s[..|s| - 1]) else s
  }

  function Trim(s: string): string {
    TrimEnd(TrimStart(s))
  }

  predicate Spaces(s: string) {
    forall i :: 0 <= i < |s| ==> IsSpace(s[i])
  }

  lemma {:induction false} TrimStartIs(s: string) returns (before: string)
    ensures s == before + TrimStart(s) && Spaces(before)
    ensures TrimStart(s) == [] || !IsSpace(TrimStart(s)[0])
  {
    if s != [] && IsSpace(s[0]) {
      var more := TrimStartIs(s[1..]);
      before := [s[0]] + more;
    } else {
      before := [];
    }
  }

  lemma {:induction false} TrimEndIs(s: string) returns (after: string)
    ensures s == TrimEnd(s) + after && Spaces(after)
    ensures TrimEnd(s) == [] || !IsSpace(TrimEnd(s)[|TrimEnd(s)| - 1])
  {
    if s != [] && IsSpace(s[|s| - 1]) {
      var init, last := s[..|s| - 1], s[|s| - 1];
      var more := TrimEndIs(init);
      after := more + [last];
      assert s == init + [last] == TrimEnd(s) + after by {
        assert TrimEnd(init) + more + [last] == TrimEnd(init) + after;
      }
    } else {
      after := [];
    }
  }

  /** What remains of a text when the spaces before and after are taken away has none at either end. */
  lemma TrimIs(s: string) returns (before: string, after: string)
    ensures s == before + Trim(s) + after && Spaces(before) && Spaces(after)
    ensures Trim(s) == [] || (!IsSpace(Trim(s)[0]) && !IsSpace(Trim(s)[|Trim(s)| - 1]))
  {
    before := TrimStartIs(s);
    after := TrimEndIs(TrimStart(s));
  }

  /** The spaces are those ECMAScript trims: five controls, the space, */
  lemma AsciiSpaces()
    ensures IsSpace('\t') && IsSpace('\n') && IsSpace('\r')
    ensures IsSpace('\U{000B}') && IsSpace('\U{000C}') && IsSpace(' ')
  {
  }

  /** and these beyond. */
  lemma OtherSpaces()
    ensures IsSpace('\U{00A0}') && IsSpace('\U{1680}') && IsSpace('\U{2028}') && IsSpace('\U{2029}')
    ensures IsSpace('\U{202F}') && IsSpace('\U{205F}') && IsSpace('\U{3000}') && IsSpace('\U{FEFF}')
  {
  }

  lemma SpaceRange()
    ensures IsSpace('\U{2000}') && IsSpace('\U{200A}') && !IsSpace('\U{1FFF}') && !IsSpace('\U{200B}')
  {
  }
}
