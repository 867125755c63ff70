// What a pass makes of a secret's front with its percent form behind it.
module Planting {
  import opened Bytes
  import opened Redaction
  import opened Encoders
  import opened Variants
  import opened Alignment

  // ---- the percent form, planted behind the front of the secret -------------------------

  // The bytes of the percent forms.
  predicate Clear(b: byte) {
    IsUnreserved(b) || b == PERCENT
  }

  predicate AllClear(t: Text) {
    forall b | b in t :: Clear(b)
  }

  predicate IsPercent(form: Form) {
    form == PercentUpper || form == PercentLower
  }

  lemma {:induction false} PercentIsClear(r: Text, upper: bool)
    ensures AllClear(Encode(if upper then PercentUpper else PercentLower, r))
  {
    if r != [] {
      PercentIsClear(r[1..], upper);
      assert AllClear(PercentByte(r[0], upper));
    }
  }

  lemma {:induction false} EncodeConcat(form: Form, a: Text, b: Text)
    ensures Encode(form, a + b) == Encode(form, a) + Encode(form, b)
  {
    hide EncodeByte;
    if a == [] {
      assert a + b == b;
    } else {
      assert (a + b)[0] == a[0] && (a + b)[1..] == a[1..] + b;
      EncodeConcat(form, a[1..], b);
      Assoc(EncodeByte(form, a[0]), Encode(form, a[1..]), Encode(form, b));
    }
  }

  lemma SamePercentLength(r: Text)
    ensures |Encode(PercentLower, r)| == |Encode(PercentUpper, r)|
  {
    if r != [] {
      SamePercentLength(r[1..]);
    }
  }

  lemma OtherEscape(form: Form, b: byte)
    requires !IsPercent(form)
    ensures var e := EncodeByte(form, b);
            && 1 <= |e| <= 6
            && (|e| > 1 ==> !Clear(e[0]) && |e| <= |PercentByte(b, true)| + 3)
            && (b == OPENING ==> e[|e| - 1] == OPENING)
  {
  }

  // In the other forms a run of such bytes holds no escape, but perhaps the end of one.
  lemma {:induction false} ClearPrefix(form: Form, r: Text, n: nat)
    requires !IsPercent(form) && n <= |Encode(form, r)| && AllClear(Encode(form, r)[..n])
    ensures n <= |r|
  {
    hide EncodeByte;
    if n > 0 {
      var e, rest := EncodeByte(form, r[0]), Encode(form, r[1..]);
      OtherEscape(form, r[0]);
      assert (e + rest)[..n][0] == e[0];
      assert Clear(e[0]);
      assert (e + rest)[..n] == e + rest[..n - 1];
      ClearPrefix(form, r[1..], n - 1);
    }
  }

  lemma {:induction false} ClearStretch(form: Form, r: Text, a: nat, b: nat)
    requires !IsPercent(form) && a <= b <= |Encode(form, r)| && AllClear(Encode(form, r)[a..b])
    ensures b - a <= |Encode(PercentUpper, r)| + 2
  {
    hide EncodeByte;
    if a < b {
      var e, rest := EncodeByte(form, r[0]), Encode(form, r[1..]);
      var v := e + rest;
      OtherEscape(form, r[0]);
      PercentStep(r);
      if a >= |e| {
        assert v[a..b] == rest[a - |e|..b - |e|];
        ClearStretch(form, r[1..], a - |e|, b - |e|);
      } else {
        assert v[a..b][0] == e[a];
        if b > |e| {
          assert v[a..b] == e[a..] + rest[..b - |e|];
          ClearPrefix(form, r[1..], b - |e|);
          EncodedNoShorter(PercentUpper, r[1..]);
        }
      }
    }
  }

  lemma PercentStep(r: Text)
    requires r != []
    ensures |Encode(PercentUpper, r)| == |PercentByte(r[0], true)| + |Encode(PercentUpper, r[1..])|
    ensures |PercentByte(r[0], true)| >= 1
  {
  }

  // The secret up to an opening bracket, its percent form, and something shorter behind.
  function Planted(raw: Text, k: nat, rest: Text): Text
    requires k < |raw|
  {
    raw[..k] + Encode(PercentUpper, raw) + rest
  }

  lemma PlantedAt(raw: Text, k: nat, rest: Text, i: nat)
    requires k < |raw| && k <= i < k + |Encode(PercentUpper, raw)|
    ensures Planted(raw, k, rest)[i] == Encode(PercentUpper, raw)[i - k]
    ensures Clear(Planted(raw, k, rest)[i])
  {
    hide Encode;
    PercentIsClear(raw, true);
    assert Encode(PercentUpper, raw)[i - k] in Encode(PercentUpper, raw);
  }

  lemma SplitAt(form: Form, raw: Text, k: nat)
    requires k < |raw|
    ensures Encode(form, raw) ==
            Encode(form, raw[..k]) + (EncodeByte(form, raw[k]) + Encode(form, raw[k + 1..]))
  {
    assert raw == raw[..k] + raw[k..] && raw[k..][1..] == raw[k + 1..];
    EncodeConcat(form, raw[..k], raw[k..]);
  }

  lemma ReachesPlanted(raw: Text, k: nat, rest: Text, v: Text, q: nat)
    requires k < |raw| && q <= k && OccursAt(v, Planted(raw, k, rest), q)
    ensures forall i | k - q <= i < |v| && i < k - q + |Encode(PercentUpper, raw)| ::
              v[i] == Encode(PercentUpper, raw)[i - (k - q)] && Clear(v[i])
    ensures k - q <= |v| ==> v[..k - q] == raw[q..k]
  {
    hide Encode;
    var s := Planted(raw, k, rest);
    forall i | k - q <= i < |v| && i < k - q + |Encode(PercentUpper, raw)|
      ensures v[i] == Encode(PercentUpper, raw)[i - (k - q)] && Clear(v[i])
    {
      OccursByte(v, s, q, i);
      PlantedAt(raw, k, rest, q + i);
    }
    if k - q <= |v| {
      assert v[..k - q] == s[q..q + |v|][..k - q] == s[q..k] == raw[q..k];
    }
  }

  lemma OpeningEscape(form: Form)
    ensures !IsPercent(form) ==> !Clear(EncodeByte(form, OPENING)[0])
    ensures IsPercent(form) ==> EncodeByte(form, OPENING)[..2] == [PERCENT, 53]
    ensures |EncodeByte(PercentUpper, OPENING)| == |EncodeByte(PercentLower, OPENING)| == 3
  {
  }

  // No other form stands at or before the percent form: its bracket would fall behind it, and
  // so all of the percent form into the encoded front of the secret.
  lemma NoOtherFormBefore(form: Form, raw: Text, k: nat, rest: Text, q: nat)
    requires !IsPercent(form) && k < |raw| && raw[k] == OPENING && q <= k
    ensures !OccursAt(Encode(form, raw), Planted(raw, k, rest), q)
  {
    hide Encode, EncodeByte, Planted, Clear;
    var s, v, p := Planted(raw, k, rest), Encode(form, raw), Encode(PercentUpper, raw);
    if OccursAt(v, s, q) {
      var front, e, d := Encode(form, raw[..k]), EncodeByte(form, raw[k]), k - q;
      SplitAt(form, raw, k);
      SplitAt(PercentUpper, raw, k);
      EscapeShape(form, raw[k]);
      OpeningEscape(form);
      EncodedNoShorter(form, raw[..k]);
      ReachesPlanted(raw, k, rest, v, q);
      assert v[|front|] == e[0];
      assert d + |p| <= |front|;
      forall b | b in front[d..d + |p|] ensures Clear(b) {
        var i :| 0 <= i < |p| && front[d..d + |p|][i] == b;
        assert b == front[d + i] == v[d + i];
      }
      ClearStretch(form, raw[..k], d, d + |p|);
    }
  }

  // In the percent form of such bytes a percent sign is always encoded itself.
  lemma {:induction false} SignThenTwo(u: Text, m: nat)
    requires AllClear(u) && m < |Encode(PercentUpper, u)| && Encode(PercentUpper, u)[m] == PERCENT
    ensures m + 1 < |Encode(PercentUpper, u)| && Encode(PercentUpper, u)[m + 1] == 50
  {
    var e, rest := PercentByte(u[0], true), Encode(PercentUpper, u[1..]);
    assert u[0] in u && forall b | b in u[1..] :: b in u;
    if m >= |e| {
      assert rest[m - |e|] == (e + rest)[m];
      SignThenTwo(u[1..], m - |e|);
      assert rest[m - |e| + 1] == (e + rest)[m + 1];
    } else {
      assert (e + rest)[m] == e[m];
    }
  }

  lemma SignInFront(raw: Text, k: nat, q: nat)
    requires q < k < |raw| && AllClear(raw[q..k])
    ensures var j, p := |Encode(PercentUpper, raw[..k])|, Encode(PercentUpper, raw);
            && k - q <= j < |p|
            && (p[j - (k - q)] == PERCENT ==> j - (k - q) + 1 < |p| && p[j - (k - q) + 1] == 50)
  {
    hide Encode, EncodeByte, AllClear;
    var u, front := raw[q..k], Encode(PercentUpper, raw[..q]);
    var inner := Encode(PercentUpper, u);
    assert raw[..k] == raw[..q] + u;
    EncodeConcat(PercentUpper, raw[..q], u);
    SplitAt(PercentUpper, raw, k);
    EscapeShape(PercentUpper, raw[k]);
    EncodedNoShorter(PercentUpper, u);
    var m := |inner| - (k - q);
    var p := Encode(PercentUpper, raw);
    assert p[|front| + m] == inner[m];
    if inner[m] == PERCENT {
      SignThenTwo(u, m);
      assert p[|front| + m + 1] == inner[m + 1];
    }
  }

  lemma OpeningInPercent(upper: bool, raw: Text, k: nat)
    requires k < |raw| && raw[k] == OPENING
    ensures var j, v := |Encode(PercentUpper, raw[..k])|, Encode(if upper then PercentUpper else PercentLower, raw);
            j + 2 < |v| && v[j] == PERCENT && v[j + 1] == 53
  {
    hide Encode, EncodeByte;
    var form := if upper then PercentUpper else PercentLower;
    SamePercentLength(raw[..k]);
    SplitAt(form, raw, k);
    OpeningEscape(form);
    var e := EncodeByte(form, OPENING);
    assert e[0] == e[..2][0] && e[1] == e[..2][1];
  }

  // And no percent form stands before it: the bracket's escape would be found inside the
  // encoding of bytes of a percent form.
  lemma NoPercentBefore(upper: bool, raw: Text, k: nat, rest: Text, q: nat)
    requires k < |raw| && raw[k] == OPENING && q < k
    ensures var form := if upper then PercentUpper else PercentLower;
            !OccursAt(Encode(form, raw), Planted(raw, k, rest), q)
  {
    hide Encode, EncodeByte, Planted;
    var form := if upper then PercentUpper else PercentLower;
    var s, v, d := Planted(raw, k, rest), Encode(form, raw), k - q;
    if OccursAt(v, s, q) {
      SamePercentLength(raw);
      EncodedNoShorter(form, raw);
      PercentIsClear(raw, upper);
      ReachesPlanted(raw, k, rest, v, q);
      assert raw[q..k] == v[..d] && forall b | b in v[..d] :: b in v;
      OpeningInPercent(upper, raw, k);
      SignInFront(raw, k, q);
    }
  }

  // ---- what a pass makes of the witnesses -------------------------------------------------

  lemma {:induction false} Copied(s: Text, i: nat, k: nat, hi: nat, vs: seq<Text>)
    requires i <= k <= hi <= |s| && forall q | i <= q < k :: MatchLen(s, q, hi, vs) == 0
    ensures Scan(s, i, hi, vs) == s[i..k] + Scan(s, k, hi, vs)
    decreases k - i
  {
    hide MARKER, MatchLen;
    if i < k {
      Copied(s, i + 1, k, hi, vs);
      Assoc([s[i]], s[i + 1..k], Scan(s, k, hi, vs));
      assert s[i..k] == [s[i]] + s[i + 1..k];
    }
  }

  lemma MatchedForm(s: Text, i: nat, raw: Text) returns (form: Form)
    requires i <= |s| && MatchLen(s, i, |s|, VariantsOf(raw)) > 0
    ensures OccursAt(Encode(form, raw), s, i) && MatchLen(s, i, |s|, VariantsOf(raw)) == |Encode(form, raw)|
  {
    hide Encode, VariantsOf;
    MatchLenMeaning(s, i, |s|, VariantsOf(raw));
    form := FormOf(raw, s[i..i + MatchLen(s, i, |s|, VariantsOf(raw))]);
  }

  // No form fits into what is shorter than the secret.
  lemma TooShort(s: Text, i: nat, raw: Text)
    requires i <= |s| && |s| - i < |raw|
    ensures Scan(s, i, |s|, VariantsOf(raw)) == s[i..]
  {
    hide MARKER, Encode, VariantsOf;
    forall q | i <= q < |s| ensures MatchLen(s, q, |s|, VariantsOf(raw)) == 0 {
      if MatchLen(s, q, |s|, VariantsOf(raw)) > 0 {
        var form := MatchedForm(s, q, raw);
        EncodedNoShorter(form, raw);
      }
    }
    CleanScan(s, i, |s|, VariantsOf(raw));
  }

  // The percent form is replaced, and what stood before and behind it meets the marker.
  lemma PlantedPass(raw: Text, k: nat, rest: Text)
    requires k < |raw| && raw[k] == OPENING && |rest| < |raw|
    ensures Redacted(Planted(raw, k, rest), VariantsOf(raw)) == raw[..k] + (MARKER + rest)
  {
    hide MARKER, Encode, VariantsOf, MatchLen;
    var s, vs, p := Planted(raw, k, rest), VariantsOf(raw), Encode(PercentUpper, raw);
    forall q | 0 <= q < k ensures MatchLen(s, q, |s|, vs) == 0 {
      if MatchLen(s, q, |s|, vs) > 0 {
        var form := MatchedForm(s, q, raw);
        NoFormBefore(form, raw, k, rest, q);
      }
    }
    Copied(s, 0, k, |s|, vs);
    assert s[..k] == raw[..k];
    var m := MatchLen(s, k, |s|, vs);
    PercentMatches(raw, k, rest);
    assert s[k + |p|..] == rest;
    TooShort(s, k + |p|, raw);
  }

  lemma NoFormBefore(form: Form, raw: Text, k: nat, rest: Text, q: nat)
    requires k < |raw| && raw[k] == OPENING && q < k
    ensures !OccursAt(Encode(form, raw), Planted(raw, k, rest), q)
  {
    hide Encode, Planted;
    if IsPercent(form) {
      NoPercentBefore(form == PercentUpper, raw, k, rest, q);
    } else {
      NoOtherFormBefore(form, raw, k, rest, q);
    }
  }

  lemma PercentMatches(raw: Text, k: nat, rest: Text)
    requires k < |raw| && raw[k] == OPENING
    ensures var s := Planted(raw, k, rest);
            k <= |s| && MatchLen(s, k, |s|, VariantsOf(raw)) == |Encode(PercentUpper, raw)| > 0
  {
    hide Encode, VariantsOf, MatchLen;
    var s, vs, p := Planted(raw, k, rest), VariantsOf(raw), Encode(PercentUpper, raw);
    assert s[k..k + |p|] == p;
    assert Within(p, s, k, |s|);
    FormListed(raw, PercentUpper);
    MatchLenMeaning(s, k, |s|, vs);
    var form := MatchedForm(s, k, raw);
    if !IsPercent(form) {
      NoOtherFormBefore(form, raw, k, rest, k);
    }
    SamePercentLength(raw);
  }

  // The secret itself is looked for first.
  lemma SecretMatches(s: Text, i: nat, raw: Text)
    requires raw != [] && OccursAt(raw, s, i)
    ensures MatchLen(s, i, |s|, VariantsOf(raw)) == |raw|
  {
    var all := AllForms(raw);
    EncodeExact(raw);
    assert all[0] == raw;
    DedupMatches(s, i, |s|, [], NonEmpty(all));
    assert [] + NonEmpty(all) == NonEmpty(all);
    NonEmptyMatches(s, i, |s|, all);
  }
}
