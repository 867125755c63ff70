// Secrets that begin with the marker's end, or contain the marker: inputs that outlast many passes.
module Repeats {
  import opened Bytes
  import opened Redaction
  import opened Encoders
  import opened Variants
  import opened Alignment
  import opened Planting
  import opened Endless

  const CLOSING: byte := 93

  // ---- secrets that begin with the marker's end ----------------------------------------------

  // The secret begins with the last `n` bytes of the marker and goes on.
  predicate BeginsLikeMarkerEnd(raw: Text, n: nat) {
    1 <= n < |raw| && HeadIsMarkerTail(raw, n)
  }

  // Bytes that stand neither in the marker before its last one nor in a form unescaped.
  predicate Stops(b: byte) {
    b == CLOSING || !Ordinary(b)
  }

  predicate NoStops(t: Text) {
    forall b | b in t :: !Stops(b)
  }

  lemma MarkerStopsLast()
    ensures NoStops(MARKER[..|MARKER| - 1])
    ensures MARKER[|MARKER| - 1] == CLOSING
  {
  }

  lemma {:induction false} FirstStop(form: Form, r: Text, n: nat) returns (i: nat)
    requires 1 <= n <= |r| && r[n - 1] == CLOSING
    ensures i < n && i < |Encode(form, r)| && Stops(Encode(form, r)[i])
  {
    hide EncodeByte;
    var e, rest := EncodeByte(form, r[0]), Encode(form, r[1..]);
    EscapeShape(form, r[0]);
    assert (e + rest)[0] == e[0];
    if Stops(e[0]) {
      i := 0;
    } else {
      var inner := FirstStop(form, r[1..], n - 1);
      i := inner + 1;
      assert (e + rest)[inner + 1] == rest[inner];
    }
  }

  // The beginnings that markers lose to the secret, the secret, and repetitions of its end.
  function HeadText(raw: Text, n: nat, lost: nat, left: nat): Text
    requires BeginsLikeMarkerEnd(raw, n)
  {
    Repeat(MARKER[..|MARKER| - n], lost) + (raw + Repeat(raw[n..], left))
  }

  lemma {:induction false} RepeatNoStops(t: Text, m: nat)
    requires NoStops(t)
    ensures NoStops(Repeat(t, m))
  {
    if m > 0 {
      RepeatNoStops(t, m - 1);
    }
  }

  lemma NoStopsBefore(raw: Text, n: nat, lost: nat, left: nat, i: nat)
    requires BeginsLikeMarkerEnd(raw, n) && i < |Repeat(MARKER[..|MARKER| - n], lost)| + n - 1
    ensures i < |HeadText(raw, n, lost, left)| && !Stops(HeadText(raw, n, lost, left)[i])
  {
    hide MARKER, Stops;
    MarkerStopsLast();
    var most := MARKER[..|MARKER| - 1];
    var part := MARKER[..|MARKER| - n];
    var lostText := Repeat(part, lost);
    assert forall b | b in part :: b in most;
    RepeatNoStops(part, lost);
    if i < |lostText| {
      assert lostText[i] in lostText;
    } else {
      var k := i - |lostText|;
      assert raw[k] == raw[..n][k] == MARKER[|MARKER| - n..][k] == most[|MARKER| - n + k];
      assert most[|MARKER| - n + k] in most;
    }
  }

  // No form begins before the secret: each has a stopping byte too early for that.
  lemma NoFormBeforeHead(form: Form, raw: Text, n: nat, lost: nat, left: nat, q: nat)
    requires BeginsLikeMarkerEnd(raw, n) && q < |Repeat(MARKER[..|MARKER| - n], lost)|
    ensures !OccursAt(Encode(form, raw), HeadText(raw, n, lost, left), q)
  {
    hide MARKER, Encode, Stops, HeadText;
    MarkerStopsLast();
    assert raw[n - 1] == raw[..n][n - 1] == MARKER[|MARKER| - n..][n - 1] == MARKER[|MARKER| - 1];
    var i := FirstStop(form, raw, n);
    NoStopsBefore(raw, n, lost, left, q + i);
    DiffersAt(Encode(form, raw), HeadText(raw, n, lost, left), q, i);
  }

  // A pass uses up one repetition, and its marker supplies the secret's beginning again.
  lemma HeadPass(raw: Text, n: nat, lost: nat, left: nat)
    requires BeginsLikeMarkerEnd(raw, n) && left > 0
    requires !ContainsAny(Repeat(raw[n..], left), VariantsOf(raw))
    ensures Redacted(HeadText(raw, n, lost, left), VariantsOf(raw)) == HeadText(raw, n, lost + 1, left - 1)
  {
    hide MARKER, Encode, VariantsOf, ContainsAny, Redacted, OccursAt;
    var part, end := MARKER[..|MARKER| - n], raw[n..];
    var front, behind := Repeat(part, lost), Repeat(end, left);
    forall form: Form, q: nat | q < |front| ensures !OccursAt(Encode(form, raw), front + (raw + behind), q) {
      NoFormBeforeHead(form, raw, n, lost, left, q);
    }
    MiddlePass(raw, front, behind);
    RepeatShape(part, lost);
    assert MARKER == part + raw[..n] && raw == raw[..n] + end;
    Regroup(front, part, raw[..n], end, Repeat(end, left - 1));
  }

  lemma Regroup(a: Text, b: Text, c: Text, d: Text, e: Text)
    ensures a + ((b + c) + (d + e)) == (a + b) + ((c + d) + e)
  {
  }

  // ---- one pass over a secret in the middle ----------------------------------------------------

  // The secret is replaced where no form begins before it and none is behind it.
  lemma MiddlePass(raw: Text, front: Text, behind: Text)
    requires raw != [] && !ContainsAny(behind, VariantsOf(raw))
    requires forall form: Form, q: nat | q < |front| :: !OccursAt(Encode(form, raw), front + (raw + behind), q)
    ensures Redacted(front + (raw + behind), VariantsOf(raw)) == front + (MARKER + behind)
  {
    hide MARKER, Encode, VariantsOf, MatchLen, ContainsAny, Scan;
    var s, vs, k := front + (raw + behind), VariantsOf(raw), |front|;
    forall q | 0 <= q < k ensures MatchLen(s, q, |s|, vs) == 0 {
      if MatchLen(s, q, |s|, vs) > 0 {
        var form := MatchedForm(s, q, raw);
      }
    }
    Copied(s, 0, k, |s|, vs);
    assert s[..k] == front && s[k..k + |raw|] == raw && s[k + |raw|..] == behind;
    SecretMatches(s, k, raw);
    ScanUnfolds(s, k, |s|, vs);
    CleanEnd(s, k + |raw|, vs);
  }

  // What holds no form is copied.
  lemma CleanEnd(s: Text, i: nat, vs: seq<Text>)
    requires i <= |s| && !ContainsAny(s[i..], vs)
    ensures Scan(s, i, |s|, vs) == s[i..]
  {
    hide MARKER, MatchLen, ContainsAny;
    forall q | i <= q < |s| ensures MatchLen(s, q, |s|, vs) == 0 {
      if MatchLen(s, q, |s|, vs) > 0 {
        MatchBehind(s, i, q, vs);
      }
    }
    CleanScan(s, i, |s|, vs);
  }

  lemma MatchBehind(s: Text, i: nat, q: nat, vs: seq<Text>)
    requires i <= q < |s| && MatchLen(s, q, |s|, vs) > 0
    ensures ContainsAny(s[i..], vs)
  {
    hide MatchLen;
    MatchLenMeaning(s, q, |s|, vs);
    var v := s[q..q + MatchLen(s, q, |s|, vs)];
    OccursAtSuffix(v, s, i, q);
    assert Occurs(v, s[i..]);
  }

  // ---- and over and over again --------------------------------------------------------------------

  lemma FewerRepeats(t: Text, m: nat, vs: seq<Text>)
    requires m > 0 && ContainsAny(Repeat(t, m - 1), vs)
    ensures ContainsAny(Repeat(t, m), vs)
  {
    var less := Repeat(t, m - 1);
    var v :| v in vs && v != [] && Occurs(v, less);
    OccursInPart(v, t, less, []);
    assert t + less + [] == Repeat(t, m);
  }

  lemma {:induction false} HeadPasses(raw: Text, n: nat, lost: nat, left: nat)
    requires BeginsLikeMarkerEnd(raw, n)
    requires !ContainsAny(Repeat(raw[n..], left), VariantsOf(raw))
    ensures Passes(HeadText(raw, n, lost, left), VariantsOf(raw), left) == HeadText(raw, n, lost + left, 0)
    decreases left
  {
    hide MARKER, VariantsOf, ContainsAny, HeadText, Repeat, Redacted;
    if left > 0 {
      HeadPass(raw, n, lost, left);
      if ContainsAny(Repeat(raw[n..], left - 1), VariantsOf(raw)) {
        FewerRepeats(raw[n..], left, VariantsOf(raw));
      }
      HeadPasses(raw, n, lost + 1, left - 1);
    }
  }

  // Where repetitions of its end hold none of its forms, such a secret has an input for every
  // pass bound that is not clean after all its passes.
  lemma HeadNeverClears(raw: Text, n: nat, bound: nat)
    requires BeginsLikeMarkerEnd(raw, n)
    requires !ContainsAny(Repeat(raw[n..], bound), VariantsOf(raw))
    ensures ContainsAny(Passes(raw + Repeat(raw[n..], bound), VariantsOf(raw), bound), VariantsOf(raw))
  {
    hide MARKER, VariantsOf, Passes, Repeat;
    HeadPasses(raw, n, 0, bound);
    FirstAndLast(raw, n, bound);
    SecretListed(raw);
  }

  lemma FirstAndLast(raw: Text, n: nat, bound: nat)
    requires BeginsLikeMarkerEnd(raw, n)
    ensures HeadText(raw, n, 0, bound) == raw + Repeat(raw[n..], bound)
    ensures Occurs(raw, HeadText(raw, n, bound, 0))
  {
    hide MARKER;
    var lost := Repeat(MARKER[..|MARKER| - n], bound);
    assert HeadText(raw, n, bound, 0) == lost + (raw + []);
    assert OccursAt(raw, lost + (raw + []), |lost|);
  }

  // ---- plain bytes ---------------------------------------------------------------------------------

  predicate AllPlain(t: Text) {
    forall b | b in t :: Plain(b)
  }

  lemma {:induction false} RepeatPlain(t: Text, m: nat)
    requires AllPlain(t)
    ensures AllPlain(Repeat(t, m)) && |Repeat(t, m)| == m * |t|
  {
    if m > 0 {
      RepeatPlain(t, m - 1);
      assert m * |t| == |t| + (m - 1) * |t|;
    }
  }

  lemma NotPlainByte(form: Form, b: byte)
    requires !Plain(b)
    ensures EncodeByte(form, b) != [] && !Plain(EncodeByte(form, b)[0])
  {
  }

  lemma {:induction false} NotPlainForm(form: Form, raw: Text, i: nat)
    requires i < |raw| && !Plain(raw[i])
    ensures !AllPlain(Encode(form, raw))
  {
    hide EncodeByte, Plain;
    if i == 0 {
      NotPlainByte(form, raw[0]);
      assert EncodeByte(form, raw[0])[0] in Encode(form, raw);
    } else {
      NotPlainForm(form, raw[1..], i - 1);
      assert forall b | b in Encode(form, raw[1..]) :: b in Encode(form, raw);
    }
  }

  // Plain text holds no form of a secret that is not plain.
  lemma PlainHoldsNoForm(raw: Text, i: nat, t: Text)
    requires i < |raw| && !Plain(raw[i]) && AllPlain(t)
    ensures !ContainsAny(t, VariantsOf(raw))
  {
    hide VariantsOf, Plain, Encode;
    forall v | v in VariantsOf(raw) ensures !Occurs(v, t) {
      var form := FormOf(raw, v);
      NotPlainForm(form, raw, i);
      if Occurs(v, t) {
        PartOfPlain(v, t);
      }
    }
  }

  lemma PartOfPlain(v: Text, t: Text)
    requires Occurs(v, t) && AllPlain(t)
    ensures AllPlain(v)
  {
    hide Plain;
    var p :| 0 <= p <= |t| && OccursAt(v, t, p);
    forall b | b in v ensures b in t {
      var k :| 0 <= k < |v| && v[k] == b;
      OccursByte(v, t, p, k);
    }
  }

  // ---- secrets that contain the marker ---------------------------------------------------------

  function Wrapped(a: Text, c: Text, m: nat): Text {
    Repeat(a, m) + (MARKER + Repeat(c, m))
  }

  // Every form goes on behind a plain beginning with a byte that is not plain.
  lemma FormBehindPlain(form: Form, a: Text, c: Text)
    requires AllPlain(a)
    ensures var v := Encode(form, a + (MARKER + c)); |a| < |v| && !Plain(v[|a|])
  {
    hide MARKER, Encode, EncodeByte;
    MarkerIsOrdinary();
    MarkerShape();
    var raw := a + (MARKER + c);
    assert raw[|a|] == OPENING && raw[..|a|] == a;
    SplitAt(form, raw, |a|);
    PlainUnchanged(a, form);
    NotPlainByte(form, OPENING);
  }

  // No form begins before the last of the plain beginnings, or behind the marker.
  lemma NoFormInPlain(form: Form, a: Text, c: Text, s: Text, i: nat, hi: nat, q: nat)
    requires AllPlain(a) && i <= q && q + |a| < hi <= |s| && AllPlain(s[i..hi])
    ensures !OccursAt(Encode(form, a + (MARKER + c)), s, q)
  {
    hide MARKER, Encode, Plain;
    FormBehindPlain(form, a, c);
    assert s[q + |a|] == s[i..hi][q + |a| - i];
    assert s[q + |a|] in s[i..hi];
    DiffersAt(Encode(form, a + (MARKER + c)), s, q, |a|);
  }

  lemma WrappedPass(a: Text, c: Text, m: nat)
    requires AllPlain(a) && AllPlain(c)
    ensures Redacted(Wrapped(a, c, m + 1), VariantsOf(a + (MARKER + c))) == Wrapped(a, c, m)
  {
    hide MARKER, Encode, VariantsOf, AllPlain, ContainsAny, Redacted, OccursAt;
    MarkerShape();
    var raw, front, behind := a + (MARKER + c), Repeat(a, m), Repeat(c, m);
    RepeatShape(a, m);
    RepeatPlain(a, m + 1);
    RepeatPlain(c, m);
    assert Repeat(c, m + 1) == c + behind;
    var s := front + (raw + behind);
    Regrouped(front, a, MARKER, c, behind);
    forall form: Form, q: nat | q < |front| ensures !OccursAt(Encode(form, raw), s, q) {
      assert s[0..|front + a|] == front + a;
      NoFormInPlain(form, a, c, s, 0, |front + a|, q);
    }
    MarkerIsOrdinary();
    assert raw[|a|] == MARKER[0] == OPENING;
    assert !Plain(OPENING);
    PlainHoldsNoForm(raw, |a|, behind);
    MiddlePass(raw, front, behind);
  }

  lemma Regrouped(a: Text, b: Text, c: Text, d: Text, e: Text)
    ensures (a + b) + (c + (d + e)) == a + ((b + (c + d)) + e)
  {
  }

  lemma {:induction false} WrappedPasses(a: Text, c: Text, bound: nat)
    requires AllPlain(a) && AllPlain(c)
    ensures Passes(Wrapped(a, c, bound + 1), VariantsOf(a + (MARKER + c)), bound) == a + (MARKER + c)
    decreases bound
  {
    hide MARKER, VariantsOf, AllPlain, Redacted;
    if bound == 0 {
      assert Repeat(a, 1) == a + Repeat(a, 0) == a && Repeat(c, 1) == c + Repeat(c, 0) == c;
    } else {
      WrappedPass(a, c, bound);
      WrappedPasses(a, c, bound - 1);
    }
  }

  // A secret that wraps the marker in plain bytes has, for every pass bound, an input of which
  // all passes leave the secret itself.
  lemma WrappedNeverClears(a: Text, c: Text, bound: nat)
    requires AllPlain(a) && AllPlain(c)
    ensures var raw := a + (MARKER + c);
            ContainsAny(Passes(Wrapped(a, c, bound + 1), VariantsOf(raw), bound), VariantsOf(raw))
  {
    hide MARKER, VariantsOf, AllPlain, Wrapped, Passes;
    MarkerShape();
    WrappedPasses(a, c, bound);
    var raw := a + (MARKER + c);
    SecretListed(raw);
    assert OccursAt(raw, raw, 0);
  }

  // ---- not every overlap lasts --------------------------------------------------------------------

  predicate AllClosing(t: Text) {
    forall b | b in t :: b == CLOSING
  }

  lemma StraddlingBytes(v: Text)
    requires v != [] && (InsideMarker(v) || Straddles(v))
    ensures Ordinary(v[0]) || OPENING in v
  {
    hide MARKER;
    MarkerIsOrdinary();
    MarkerShape();
    if i :| 0 <= i <= |MARKER| && OccursAt(v, MARKER, i) {
      OccursByte(v, MARKER, i, 0);
    } else if p :| 0 <= p <= |v| && OccursAt(MARKER, v, p) {
      OccursByte(MARKER, v, p, 0);
    } else if n :| 1 <= n <= |MARKER| && HeadIsMarkerTail(v, n) {
      assert v[0] == v[..n][0] == MARKER[|MARKER| - n..][0] == MARKER[|MARKER| - n];
    } else {
      var n :| 1 <= n <= |MARKER| && TailIsMarkerHead(v, n);
      assert v[|v| - n] == v[|v| - n..][0] == MARKER[..n][0];
    }
  }

  lemma ClosingByte(form: Form)
    ensures EncodeByte(form, CLOSING) != []
    ensures EncodeByte(form, CLOSING) == [CLOSING] || !Ordinary(EncodeByte(form, CLOSING)[0])
    ensures OPENING !in EncodeByte(form, CLOSING)
  {
  }

  lemma {:induction false} ClosingForm(form: Form, raw: Text)
    requires AllClosing(raw)
    ensures OPENING !in Encode(form, raw)
    ensures Encode(form, raw) == raw || (Encode(form, raw) != [] && !Ordinary(Encode(form, raw)[0]))
  {
    hide EncodeByte;
    if raw != [] {
      assert raw[0] in raw && forall b | b in raw[1..] :: b in raw;
      ClosingByte(form);
      ClosingForm(form, raw[1..]);
      SameStart(form, raw);
      if EncodeByte(form, CLOSING) == [CLOSING] {
        if raw[1..] != [] {
          SameStart(form, raw[1..]);
        }
        assert Encode(form, raw) == [CLOSING] + raw[1..] == raw;
      }
    }
  }

  lemma SameStart(form: Form, raw: Text)
    requires raw != [] && AllClosing(raw)
    ensures EncodeByte(form, CLOSING) != [] && Encode(form, raw)[0] == EncodeByte(form, CLOSING)[0]
  {
    assert raw[0] in raw;
  }

  // Brackets at the front of a pass's output stood at the front of its input.
  lemma {:induction false} ClosingThroughPass(s: Text, i: nat, vs: seq<Text>, v: Text)
    requires i <= |s| && AllClosing(v) && v <= Scan(s, i, |s|, vs)
    ensures OccursAt(v, s, i)
    decreases |v|
  {
    hide MARKER, MatchLen;
    MarkerIsOrdinary();
    MarkerShape();
    if v != [] {
      var out := Scan(s, i, |s|, vs);
      assert v[0] in v && out[0] == v[0] && forall b | b in v[1..] :: b in v;
      assert out[1..] == Scan(s, i + 1, |s|, vs);
      assert v[1..] == out[..|v|][1..] == out[1..][..|v| - 1];
      ClosingThroughPass(s, i + 1, vs, v[1..]);
      assert s[i..i + |v|] == [s[i]] + s[i + 1..i + 1 + |v[1..]|] == v;
    }
  }

  // Where a pass leaves such a secret, its first byte ends the marker for a match, and the
  // others stood behind that match.
  lemma {:induction false} LeftBehindMarker(s: Text, i: nat, vs: seq<Text>, raw: Text, p: nat) returns (r: nat)
    requires i <= |s| && raw != [] && AllClosing(raw) && raw in vs
    requires OccursAt(raw, Scan(s, i, |s|, vs), p)
    ensures 0 < p && Scan(s, i, |s|, vs)[p - 1] != CLOSING
    ensures r < |s| && MatchLen(s, r, |s|, vs) > 0
    ensures OccursAt(raw[1..], s, r + MatchLen(s, r, |s|, vs))
    decreases |s| - i
  {
    hide MARKER, MatchLen, Scan, OccursAt;
    MarkerShape();
    assert raw[0] in raw && forall b | b in raw[1..] :: b in raw;
    if i == |s| {
      ScanEnds(s, |s|, vs);
      OccursInNothing(raw, p);
    }
    ScanUnfolds(s, i, |s|, vs);
    var m, next := MatchLen(s, i, |s|, vs), i + Step(s, i, |s|, vs);
    var rest := Scan(s, next, |s|, vs);
    if m == 0 && p == 0 {
      NotCopiedAtFront(s, i, vs, raw);
    }
    if m > 0 && p < |MARKER| {
      r := i;
      BehindMarker(rest, raw, p);
      ClosingThroughPass(s, next, vs, raw[1..]);
    } else {
      var first := if m > 0 then MARKER else [s[i]];
      DropOfConcat(first, rest, |first|);
      OccursAtSuffix(raw, first + rest, |first|, p);
      r := LeftBehindMarker(s, next, vs, raw, p - |first|);
    }
  }

  lemma OccursInNothing(v: Text, p: int)
    requires v != []
    ensures !OccursAt(v, [], p)
  {
  }

  lemma BehindMarker(rest: Text, raw: Text, p: nat)
    requires raw != [] && raw[0] == CLOSING && OccursAt(raw, MARKER + rest, p) && p < |MARKER|
    ensures 0 < p && (MARKER + rest)[p - 1] != CLOSING && raw[1..] <= rest
  {
    hide MARKER;
    MarkerShape();
    var out := MARKER + rest;
    OccursByte(raw, out, p, 0);
    OnlyLastCloses(p);
    assert raw[1..] == out[p..p + |raw|][1..] == out[p + 1..p + |raw|] == rest[..|raw| - 1];
  }

  lemma NotCopiedAtFront(s: Text, i: nat, vs: seq<Text>, raw: Text)
    requires i < |s| && raw != [] && AllClosing(raw) && raw in vs && MatchLen(s, i, |s|, vs) == 0
    ensures !OccursAt(raw, Scan(s, i, |s|, vs), 0)
  {
    hide MARKER, MatchLen, Scan;
    MatchLenMeaning(s, i, |s|, vs);
    if raw <= Scan(s, i, |s|, vs) {
      ClosingThroughPass(s, i, vs, raw);
    }
  }

  lemma OnlyLastCloses(p: nat)
    requires p < |MARKER| && MARKER[p] == CLOSING
    ensures p == |MARKER| - 1 && MARKER[p - 1] != CLOSING
  {
  }

  // The other forms do not outlast a single pass.
  lemma OtherFormIsGone(raw: Text, s: Text, v: Text, p: nat)
    requires raw != [] && AllClosing(raw) && v in VariantsOf(raw) && v != raw
    ensures !OccursAt(v, Redacted(s, VariantsOf(raw)), p)
  {
    hide MARKER, VariantsOf, Encode;
    var form := FormOf(raw, v);
    ClosingForm(form, raw);
    if InsideMarker(v) || Straddles(v) {
      StraddlingBytes(v);
    }
    OnePassLeavesNone(s, 0, |s|, VariantsOf(raw), v, p);
  }

  // So the secret cannot stand in a pass's output with one more bracket behind it.
  lemma NotOneMore(raw: Text, s: Text, r: nat)
    requires |raw| > 1 && AllClosing(raw)
    ensures var once := Redacted(s, VariantsOf(raw));
            OccursAt(raw, once, r) ==> !OccursAt(raw[1..], once, r + |raw|)
  {
    hide MARKER, VariantsOf, Scan;
    var once := Redacted(s, VariantsOf(raw));
    SecretListed(raw);
    if OccursAt(raw, once, r) {
      OneOn(raw, once, r);
      if OccursAt(raw, once, r + 1) {
        var _ := LeftBehindMarker(s, 0, VariantsOf(raw), raw, r + 1);
      }
    }
  }

  lemma OneOn(raw: Text, t: Text, r: nat)
    requires |raw| > 1 && AllClosing(raw) && OccursAt(raw, t, r)
    ensures t[r] == CLOSING
    ensures OccursAt(raw[1..], t, r + |raw|) ==> OccursAt(raw, t, r + 1)
  {
    OccursByte(raw, t, r, 0);
    assert raw[0] in raw;
    if OccursAt(raw[1..], t, r + |raw|) {
      var there := t[r + 1..r + 1 + |raw|];
      forall j | 0 <= j < |raw| ensures there[j] == raw[j] {
        assert raw[j] in raw;
        if j + 1 < |raw| {
          OccursByte(raw, t, r, j + 1);
          assert raw[j + 1] in raw;
        } else {
          OccursByte(raw[1..], t, r + |raw|, 0);
          assert raw[1..][0] in raw;
        }
      }
      assert there == raw;
    }
  }

  lemma NotAfterTwoPasses(raw: Text, s: Text, v: Text, p: nat)
    requires |raw| > 1 && AllClosing(raw) && v in VariantsOf(raw)
    ensures !OccursAt(v, Redacted(Redacted(s, VariantsOf(raw)), VariantsOf(raw)), p)
  {
    hide MARKER, VariantsOf, Encode, Scan, OccursAt, MatchLen;
    var vs := VariantsOf(raw);
    var once := Redacted(s, vs);
    if v != raw {
      OtherFormIsGone(raw, once, v, p);
    } else if OccursAt(raw, Redacted(once, vs), p) {
      var r := LeftBehindMarker(once, 0, vs, raw, p);
      var form := MatchedForm(once, r, raw);
      if Encode(form, raw) != raw {
        FormListed(raw, form);
        OtherFormIsGone(raw, s, Encode(form, raw), r);
      } else {
        NotOneMore(raw, s, r);
      }
    }
  }

  // A secret of closing brackets only, although it begins with the marker's end, is hidden on
  // every input by two passes.
  lemma ClosingSecretsClear(raw: Text, s: Text)
    requires |raw| > 1 && AllClosing(raw)
    ensures !ContainsAny(Passes(s, VariantsOf(raw), 2), VariantsOf(raw))
  {
    hide MARKER, VariantsOf, Redacted;
    var vs := VariantsOf(raw);
    var once := Redacted(s, vs);
    var twice := Redacted(once, vs);
    assert Passes(s, vs, 2) == Passes(once, vs, 1) == Passes(twice, vs, 0) == twice;
    forall v, p: nat | v in vs ensures !OccursAt(v, twice, p) {
      NotAfterTwoPasses(raw, s, v, p);
    }
  }
}
