// White space, as the standard library of the program's language trims it.
module Strings {

  // The Unicode White_Space property.
  predicate IsSpace(c: char) {
    || '\U{09}' <= c <= '\U{0D}' || c == ' ' || c == '\U{85}' || c == '\U{A0}' || c == '\U{1680}'
    || '\U{2000}' <= c <= '\U{200A}' || c == '\U{2028}' || c == '\U{2029}' || c == '\U{202F}'
    || c == '\U{205F}' || c == '\U{3000}'
  }

  predicate Blank(s: string) {
    forall c | c in s :: IsSpace(c)
  }

  function Trim(s: string): string {
    if s == [] then []
    else if IsSpace(s[0]) then Trim(s[1..])
    else if IsSpace(s[|s| - 1]) then Trim(s[..|s| - 1])
    else s
  }

  // Rejecting what trims to nothing is rejecting white space.
  lemma {:induction false} TrimsToNothing(s: string)
    ensures Trim(s) == [] <==> Blank(s)
  {
    if s != [] {
      assert s[0] in s;
      if IsSpace(s[0]) {
        assert s == [s[0]] + s[1..];
        TrimsToNothing(s[1..]);
      } else if IsSpace(s[|s| - 1]) {
        assert s == s[..|s| - 1] + [s[|s| - 1]];
        assert s[..|s| - 1] != [] && s[0] == s[..|s| - 1][0];
        TrimsToNothing(s[..|s| - 1]);
      }
    }
  }

  // Trimming takes white space off both ends and nothing else.
  lemma {:induction false} TrimMeaning(front: string, s: string, back: string)
    requires Blank(front) && Blank(back)
    requires s != [] && !IsSpace(s[0]) && !IsSpace(s[|s| - 1])
    ensures Trim(front + s + back) == s
    decreases |front| + |back|
  {
    var all := front + s + back;
    if front != [] {
      assert IsSpace(front[0]) && all[0] == front[0];
      assert all[1..] == front[1..] + s + back;
      TrimMeaning(front[1..], s, back);
    } else if back != [] {
      assert IsSpace(back[|back| - 1]) && all[|all| - 1] == back[|back| - 1];
      assert all[..|all| - 1] == front + s + back[..|back| - 1];
      TrimMeaning(front, s, back[..|back| - 1]);
    } else {
      assert all == s;
    }
  }

  lemma SpaceBefore(c: char, front: string, s: string, back: string)
    requires IsSpace(c) && Blank(front)
    ensures Blank([c] + front) && [c] + (front + s + back) == ([c] + front) + s + back
  {
  }

  lemma SpaceAfter(front: string, s: string, back: string, c: char)
    requires IsSpace(c) && Blank(back)
    ensures Blank(back + [c]) && (front + s + back) + [c] == front + s + (back + [c])
  {
  }

  lemma {:induction false} TrimSplits(s: string) returns (front: string, back: string)
    ensures Blank(front) && Blank(back) && s == front + Trim(s) + back
  {
    hide IsSpace, Blank;
    if s == [] || !(IsSpace(s[0]) || IsSpace(s[|s| - 1])) {
      front, back := "", "";
      SpacesOfNone(Trim(s));
    } else if IsSpace(s[0]) {
      front, back := TrimSplits(s[1..]);
      SpaceBefore(s[0], front, Trim(s[1..]), back);
      assert s == [s[0]] + s[1..];
      front := [s[0]] + front;
    } else {
      var inner, last := s[..|s| - 1], s[|s| - 1];
      front, back := TrimSplits(inner);
      SpaceAfter(front, Trim(inner), back, last);
      assert s == inner + [last];
      back := back + [last];
    }
  }

  lemma SpacesOfNone(s: string)
    ensures Blank("") && s == "" + s + ""
  {
  }

  // The twenty-five characters of the Unicode property White_Space.
  lemma SpaceTable(c: char)
    ensures IsSpace(c) <==>
              c in "\t\n\U{0B}\U{0C}\r \U{85}\U{A0}\U{1680}\U{2000}\U{2001}\U{2002}\U{2003}\U{2004}\U{2005}"
                   + "\U{2006}\U{2007}\U{2008}\U{2009}\U{200A}\U{2028}\U{2029}\U{202F}\U{205F}\U{3000}"
  {
  }
}
