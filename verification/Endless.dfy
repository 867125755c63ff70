// Secrets that end with a beginning of the marker: at every pass bound some input stays dirty.
module Endless {
  import opened Bytes
  import opened Redaction
  import opened Encoders
  import opened Variants
  import opened Alignment
  import opened Planting

  function Repeat(t: Text, m: nat): Text {
    if m == 0 then [] else t + Repeat(t, m - 1)
  }

  lemma {:induction false} RepeatShape(t: Text, m: nat)
    ensures Repeat(t, m + 1) == Repeat(t, m) + t
  {
    if m > 0 {
      RepeatShape(t, m - 1);
      Assoc(t, Repeat(t, m - 1), t);
    } else {
      assert t + [] == [] + t;
    }
  }

  // ---- the backslash form and its front -------------------------------------------------------

  // All of the backslash form that comes before the secret's last `n` bytes.
  function Front(raw: Text, n: nat): Text
    requires n <= |raw|
  {
    Encode(Backslashed, raw[..|raw| - n]) + [BACKSLASH]
  }

  // The secret ends with the first `n` bytes of the marker, without its closing bracket.
  predicate EndsLikeMarker(raw: Text, n: nat) {
    1 <= n < |MARKER| && TailIsMarkerHead(raw, n)
  }

  lemma OpeningOfEnd(raw: Text, n: nat)
    requires EndsLikeMarker(raw, n)
    ensures raw[|raw| - n] == OPENING
  {
    hide MARKER;
    MarkerIsOrdinary();
    assert raw[|raw| - n] == raw[|raw| - n..][0] == MARKER[..n][0];
  }

  lemma MarkerIsNotSpecial()
    ensures forall i | 1 <= i < |MARKER| - 1 :: !IsSpecial(MARKER[i])
  {
  }

  lemma {:induction false} NotSpecialUnchanged(t: Text)
    requires forall i | 0 <= i < |t| :: !IsSpecial(t[i])
    ensures Encode(Backslashed, t) == t
  {
    if t != [] {
      NotSpecialUnchanged(t[1..]);
    }
  }

  lemma FrontMakesForm(raw: Text, n: nat)
    requires EndsLikeMarker(raw, n)
    ensures Encode(Backslashed, raw) == Front(raw, n) + MARKER[..n]
  {
    hide MARKER, Encode, IsSpecial;
    OpeningOfEnd(raw, n);
    MarkerIsNotSpecial();
    var k := |raw| - n;
    var last := raw[k..];
    SplitAt(Backslashed, raw, k);
    var letters := raw[k + 1..];
    forall i | 0 <= i < n - 1 ensures !IsSpecial(letters[i]) {
      assert letters[i] == last[i + 1] == MARKER[i + 1];
    }
    NotSpecialUnchanged(letters);
    OpeningIsEscaped();
    var front := Encode(Backslashed, raw[..k]);
    assert MARKER[..n] == last == [OPENING] + letters;
    Assoc(front, [BACKSLASH], MARKER[..n]);
    assert [BACKSLASH, OPENING] + letters == [BACKSLASH] + MARKER[..n];
  }

  lemma OpeningIsEscaped()
    ensures EncodeByte(Backslashed, OPENING) == [BACKSLASH, OPENING]
  {
  }

  // ---- counting backslashes ----------------------------------------------------------------------

  function Backslashes(t: Text): nat {
    if t == [] then 0 else (if t[0] == BACKSLASH then 1 else 0) + Backslashes(t[1..])
  }

  lemma {:induction false} BackslashesConcat(a: Text, b: Text)
    ensures Backslashes(a + b) == Backslashes(a) + Backslashes(b)
    ensures Backslashes(a) <= |a|
  {
    if a == [] {
      assert a + b == b;
    } else {
      assert (a + b)[1..] == a[1..] + b;
      BackslashesConcat(a[1..], b);
    }
  }

  lemma NotAllBackslashes(t: Text, i: nat)
    requires i < |t| && t[i] != BACKSLASH
    ensures Backslashes(t) < |t|
  {
    assert t == t[..i] + t[i..];
    BackslashesConcat(t[..i], t[i..]);
    BackslashesConcat(t[i..][1..], []);
  }

  lemma ShortCounts(b: byte)
    ensures Backslashes([b]) == if b == BACKSLASH then 1 else 0
    ensures Backslashes([BACKSLASH, b]) == 1 + Backslashes([b])
    ensures Backslashes([QUOTE, BACKSLASH, QUOTE, QUOTE]) == 1
  {
    assert [BACKSLASH, b][1..] == [b] && [b][1..] == [];
    var t: Text := [QUOTE, BACKSLASH, QUOTE, QUOTE];
    assert t[1..] == [BACKSLASH, QUOTE, QUOTE] && t[1..][1..] == [QUOTE, QUOTE] && t[1..][1..][1..] == [QUOTE];
    assert Backslashes([QUOTE]) == 0 && Backslashes([QUOTE, QUOTE]) == 0;
    assert Backslashes(t[1..]) == 1;
  }

  // No other form has fewer other bytes, the quoted one no more backslashes, and the JSON one
  // is longer only for control bytes.
  lemma ByteCounts(form: Form, b: byte)
    requires !IsPercent(form)
    ensures var e, u := EncodeByte(form, b), EncodeByte(Backslashed, b);
            && |e| - Backslashes(e) >= |u| - Backslashes(u)
            && (form == SingleQuoted ==> Backslashes(e) <= Backslashes(u))
            && (form == Json && b >= 32 ==> |e| <= |u|)
            && (form == Exact ==> |e| <= |u|)
  {
    var e := EncodeByte(form, b);
    ShortCounts(b);
    BackslashesConcat(e, []);
    if b != BACKSLASH {
      NotAllBackslashes(e, |e| - 1);
    }
  }

  lemma {:induction false} FormCounts(form: Form, r: Text)
    requires !IsPercent(form)
    ensures var v, u := Encode(form, r), Encode(Backslashed, r);
            && |v| - Backslashes(v) >= |u| - Backslashes(u)
            && (form == SingleQuoted ==> Backslashes(v) <= Backslashes(u))
            && (form == Json && (forall b | b in r :: b >= 32) ==> |v| <= |u|)
            && (form == Exact ==> |v| <= |u|)
  {
    hide EncodeByte, Backslashes;
    if r == [] {
      BackslashesConcat([], []);
    } else {
      assert r[0] in r && forall b | b in r[1..] :: b in r;
      ByteCounts(form, r[0]);
      FormCounts(form, r[1..]);
      BackslashesConcat(EncodeByte(form, r[0]), Encode(form, r[1..]));
      BackslashesConcat(EncodeByte(Backslashed, r[0]), Encode(Backslashed, r[1..]));
    }
  }

  // Control bytes stand in the backslash form, and never in the JSON one.
  lemma {:induction false} ControlBytes(r: Text)
    ensures forall b | b in Encode(Json, r) :: b >= 32
    ensures forall b | b in r :: b in Encode(Backslashed, r)
  {
    hide EncodeByte;
    if r != [] {
      ControlBytes(r[1..]);
      ControlByte(r[0]);
      assert forall b | b in r :: b == r[0] || b in r[1..];
    }
  }

  lemma ControlByte(b: byte)
    ensures forall c | c in EncodeByte(Json, b) :: c >= 32
    ensures b in EncodeByte(Backslashed, b)
  {
    var u := EncodeByte(Backslashed, b);
    assert u[|u| - 1] == b;
  }

  // ---- no form begins in all but the last of several fronts ----------------------------------------

  // One turn of a front repeated: its bytes from some place on, and then those before.
  lemma Turn(front: Text, s: Text, q: nat)
    requires q < |front| && front + front <= s
    ensures s[q..q + |front|] == front[q..] + front[..q]
  {
    var head := s[..|front| + |front|];
    assert head == front + front;
    SliceOfSlice(s, 0, |head|, q, q + |front|);
    assert head[q..q + |front|] == front[q..] + front[..q];
  }

  lemma TurnCounts(front: Text, q: nat)
    requires q < |front|
    ensures Backslashes(front[q..] + front[..q]) == Backslashes(front)
    ensures forall b | b in front :: b in front[q..] + front[..q]
  {
    assert front == front[..q] + front[q..];
    BackslashesConcat(front[..q], front[q..]);
    BackslashesConcat(front[q..], front[..q]);
    assert forall b | b in front :: b in front[..q] || b in front[q..];
  }

  lemma BeginningCounts(t: Text, n: nat)
    requires n < |t| && t[n] != BACKSLASH
    ensures |t| - Backslashes(t) > n - Backslashes(t[..n])
  {
    assert t == t[..n] + t[n..];
    BackslashesConcat(t[..n], t[n..]);
    NotAllBackslashes(t[n..], 0);
  }

  lemma WithinTurn(front: Text, s: Text, q: nat, v: Text, w: Text)
    requires q < |front| && front + front <= s && OccursAt(v, s, q)
    requires w + [OPENING] <= v && |w| < |front|
    ensures |front| - Backslashes(front) > |w| - Backslashes(w)
  {
    hide Backslashes;
    Turn(front, s, q);
    TurnCounts(front, q);
    var turn := s[q..q + |front|];
    assert turn[..|w|] == s[q..q + |v|][..|w|] == v[..|w|] == w;
    OccursByte(v, s, q, |w|);
    BeginningCounts(turn, |w|);
  }

  lemma MoreThanTurn(front: Text, s: Text, q: nat, v: Text, w: Text)
    requires q < |front| && front + front <= s && OccursAt(v, s, q) && w <= v && |w| >= |front|
    ensures front[q..] + front[..q] <= w
  {
    Turn(front, s, q);
    assert s[q..q + |front|] == s[q..q + |v|][..|front|] == v[..|front|] == w[..|front|];
  }

  lemma UpToBracket(form: Form, raw: Text, n: nat)
    requires form == Exact || form == Json || form == SingleQuoted
    requires EndsLikeMarker(raw, n)
    ensures Encode(form, raw[..|raw| - n]) + [OPENING] <= Encode(form, raw)
  {
    hide MARKER, Encode, EncodeByte;
    OpeningOfEnd(raw, n);
    SplitAt(form, raw, |raw| - n);
    UnescapedOpening(form);
  }

  // A form other than the backslash one: its bracket would come too late within one turn, and
  // more than a turn of it would have too few backslashes, or a control byte.
  lemma NoUnescapedForm(form: Form, raw: Text, n: nat, s: Text, q: nat)
    requires form == Exact || form == Json || form == SingleQuoted
    requires EndsLikeMarker(raw, n) && Front(raw, n) + Front(raw, n) <= s && q < |Front(raw, n)|
    ensures !OccursAt(Encode(form, raw), s, q)
  {
    hide MARKER, Encode, EncodeByte, Backslashes, OccursAt;
    var front, v, a := Front(raw, n), Encode(form, raw), raw[..|raw| - n];
    var w, u := Encode(form, a), Encode(Backslashed, a);
    UpToBracket(form, raw, n);
    FormCounts(form, a);
    ShortCounts(BACKSLASH);
    BackslashesConcat(u, [BACKSLASH]);
    TurnCounts(front, q);
    assert forall b | b in u :: b in front;
    TooLong(form, a, front[q..] + front[..q]);
    if OccursAt(v, s, q) {
      if |w| >= |front| {
        MoreThanTurn(front, s, q, v, w);
      } else {
        WithinTurn(front, s, q, v, w);
      }
    }
  }

  lemma UnescapedOpening(form: Form)
    requires form == Exact || form == Json || form == SingleQuoted
    ensures EncodeByte(form, OPENING) == [OPENING]
  {
  }

  lemma TooLong(form: Form, a: Text, turn: Text)
    requires form == Exact || form == Json || form == SingleQuoted
    requires Backslashes(turn) == Backslashes(Encode(Backslashed, a)) + 1
    requires |turn| == |Encode(Backslashed, a)| + 1 && forall b | b in Encode(Backslashed, a) :: b in turn
    ensures !(turn <= Encode(form, a))
  {
    hide Encode, EncodeByte, Backslashes;
    var w := Encode(form, a);
    FormCounts(form, a);
    ControlBytes(a);
    if turn <= w {
      Beginning(turn, w);
    }
  }

  lemma Beginning(t: Text, w: Text)
    requires t <= w
    ensures Backslashes(t) <= Backslashes(w) && forall b | b in t :: b in w
  {
    assert w == t + w[|t|..];
    BackslashesConcat(t, w[|t|..]);
  }

  // The backslash form begins with the front, and would have to go on with a bracket where the
  // front begins again.
  lemma NoBackslashForm(raw: Text, n: nat, s: Text, q: nat)
    requires EndsLikeMarker(raw, n) && Front(raw, n) + Front(raw, n) <= s && q < |Front(raw, n)|
    ensures !OccursAt(Encode(Backslashed, raw), s, q)
  {
    hide MARKER, Encode, EncodeByte;
    MarkerIsOrdinary();
    FrontMakesForm(raw, n);
    FrontIsEscaped(raw, n);
    var front, v := Front(raw, n), Encode(Backslashed, raw);
    var both := front + front;
    assert s[q] == both[q] && s[q + |front|] == both[q + |front|] == both[q];
    if s[q] == v[0] {
      DiffersAt(v, s, q, |front|);
    } else {
      DiffersAt(v, s, q, 0);
    }
  }

  lemma FrontIsEscaped(raw: Text, n: nat)
    requires n <= |raw|
    ensures Front(raw, n) != [] && Front(raw, n)[0] != OPENING
  {
    hide EncodeByte;
    var a := raw[..|raw| - n];
    if a != [] {
      EscapedByte(a[0]);
      assert Encode(Backslashed, a)[0] == EncodeByte(Backslashed, a[0])[0];
    }
  }

  lemma EscapedByte(b: byte)
    ensures EncodeByte(Backslashed, b) != [] && EncodeByte(Backslashed, b)[0] != OPENING
  {
  }

  // A percent form has no backslash, and is longer than what lies between two of them.
  lemma NoPercentForm(form: Form, raw: Text, n: nat, s: Text, q: nat)
    requires IsPercent(form)
    requires EndsLikeMarker(raw, n) && Front(raw, n) <= s && q < |Front(raw, n)|
    ensures !OccursAt(Encode(form, raw), s, q)
  {
    hide MARKER, Encode, EncodeByte;
    var front, v, k := Front(raw, n), Encode(form, raw), |raw| - n;
    var u, last := Encode(Backslashed, raw[..k]), |Front(raw, n)| - 1;
    PercentIsClear(raw, form == PercentUpper);
    if last - q < |v| {
      ClearByte(v, last - q);
      DiffersAt(v, s, q, last - q);
    } else if OccursAt(v, s, q) {
      assert v == s[q..q + |v|] == front[q..q + |v|] == u[q..q + |v|];
      ClearStretch(Backslashed, raw[..k], q, q + |v|);
      OpeningOfEnd(raw, n);
      PercentGrows(form, raw, k);
    }
  }

  lemma ClearByte(t: Text, i: nat)
    requires AllClear(t) && i < |t|
    ensures t[i] != BACKSLASH
  {
    assert t[i] in t;
  }

  lemma PercentGrows(form: Form, raw: Text, k: nat)
    requires IsPercent(form) && k < |raw| && raw[k] == OPENING
    ensures |Encode(form, raw)| >= |Encode(PercentUpper, raw[..k])| + 3
  {
    hide Encode, EncodeByte;
    SplitAt(PercentUpper, raw, k);
    OpeningEscape(PercentUpper);
    SamePercentLength(raw);
  }

  lemma {:induction false} NoFormInFronts(form: Form, raw: Text, n: nat, s: Text, m: nat, q: nat)
    requires EndsLikeMarker(raw, n)
    requires Repeat(Front(raw, n), m + 1) <= s && q < |Repeat(Front(raw, n), m)|
    ensures !OccursAt(Encode(form, raw), s, q)
  {
    hide MARKER, Encode, Front;
    var front := Front(raw, n);
    assert m > 0 && Repeat(front, m + 1) == front + Repeat(front, m);
    assert Repeat(front, m) == front + Repeat(front, m - 1);
    if q >= |front| {
      assert Repeat(front, m) <= s[|front|..];
      NoFormInFronts(form, raw, n, s[|front|..], m - 1, q - |front|);
      OccursAtSuffix(Encode(form, raw), s, |front|, q);
    } else {
      assert front + front <= s;
      if IsPercent(form) {
        NoPercentForm(form, raw, n, s, q);
      } else if form == Backslashed {
        NoBackslashForm(raw, n, s, q);
      } else {
        NoUnescapedForm(form, raw, n, s, q);
      }
    }
  }

  // ---- every pass uses up one front, and its marker makes the next form ------------------------------

  lemma FrontPass(raw: Text, n: nat, m: nat, rest: Text) returns (next: Text)
    requires EndsLikeMarker(raw, n)
    ensures Redacted(Repeat(Front(raw, n), m + 1) + (MARKER[..n] + rest), VariantsOf(raw))
            == Repeat(Front(raw, n), m) + (MARKER[..n] + next)
  {
    hide MARKER, Encode, VariantsOf, MatchLen, Repeat, Front;
    var front, v := Front(raw, n), Encode(Backslashed, raw);
    var fronts := Repeat(front, m);
    var s, vs := Repeat(front, m + 1) + (MARKER[..n] + rest), VariantsOf(raw);
    var k := |fronts|;
    RepeatShape(front, m);
    FrontMakesForm(raw, n);
    assert s == fronts + (v + rest);
    forall q | 0 <= q < k ensures MatchLen(s, q, |s|, vs) == 0 {
      if MatchLen(s, q, |s|, vs) > 0 {
        var form := MatchedForm(s, q, raw);
        NoFormInFronts(form, raw, n, s, m, q);
      }
    }
    Copied(s, 0, k, |s|, vs);
    assert s[..k] == fronts && s[k..k + |v|] == v;
    FormListed(raw, Backslashed);
    assert Within(v, s, k, |s|);
    MatchLenMeaning(s, k, |s|, vs);
    var behind := Scan(s, k + MatchLen(s, k, |s|, vs), |s|, vs);
    next := MARKER[n..] + behind;
    Assoc(MARKER[..n], MARKER[n..], behind);
    assert MARKER[..n] + MARKER[n..] == MARKER;
  }

  lemma {:induction false} FrontPasses(raw: Text, n: nat, bound: nat, rest: Text)
    requires EndsLikeMarker(raw, n)
    ensures Occurs(Encode(Backslashed, raw),
                   Passes(Repeat(Front(raw, n), bound + 1) + (MARKER[..n] + rest), VariantsOf(raw), bound))
    decreases bound
  {
    hide MARKER, VariantsOf, Front, Redacted, Encode;
    var front, v := Front(raw, n), Encode(Backslashed, raw);
    if bound == 0 {
      assert front + [] == front;
      assert Repeat(front, 1) == front + Repeat(front, 0) == front;
      FrontMakesForm(raw, n);
      var s := front + (MARKER[..n] + rest);
      assert s == v + rest;
      assert OccursAt(v, s, 0);
    } else {
      var next := FrontPass(raw, n, bound, rest);
      FrontPasses(raw, n, bound - 1, next);
    }
  }

  // For every secret that ends with a beginning of the marker, every pass bound has an input
  // that is not clean after all its passes.
  lemma NeverClears(raw: Text, n: nat, bound: nat)
    requires EndsLikeMarker(raw, n)
    ensures ContainsAny(Passes(Repeat(Front(raw, n), bound + 1) + MARKER[..n], VariantsOf(raw), bound), VariantsOf(raw))
  {
    hide MARKER, VariantsOf, Repeat, Front, Passes, Encode;
    FrontPasses(raw, n, bound, []);
    assert MARKER[..n] + [] == MARKER[..n];
    FormListed(raw, Backslashed);
  }
}
