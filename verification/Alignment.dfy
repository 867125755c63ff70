// An encoded form overlaps the marker only where the secret itself does.
module Alignment {
  import opened Bytes
  import opened Redaction
  import opened Encoders
  import opened Variants

  const OPENING: byte := 91

  // ---- a form overlaps the marker only where the secret does ---------------------------

  // Escapes begin with one of the other three bytes.
  predicate Ordinary(b: byte) {
    b != BACKSLASH && b != QUOTE && b != PERCENT
  }

  lemma MarkerIsOrdinary()
    ensures forall i | 0 <= i < |MARKER| :: Ordinary(MARKER[i])
    ensures MARKER[0] == OPENING
  {
  }

  lemma EscapeShape(form: Form, b: byte)
    ensures var e := EncodeByte(form, b);
            && e != []
            && (Ordinary(e[0]) ==> e == [b])
            && (forall p | 0 <= p < |e| && e[p] == OPENING :: p == |e| - 1 && b == OPENING)
  {
  }

  lemma {:induction false} EncodedNoShorter(form: Form, r: Text)
    ensures |Encode(form, r)| >= |r|
  {
    if r != [] {
      EscapeShape(form, r[0]);
      EncodedNoShorter(form, r[1..]);
    }
  }

  lemma {:induction false} AlignedPrefix(form: Form, r: Text, n: nat)
    requires n <= |Encode(form, r)| && forall i | 0 <= i < n :: Ordinary(Encode(form, r)[i])
    ensures n <= |r| && r[..n] == Encode(form, r)[..n]
  {
    hide EncodeByte;
    if n > 0 {
      var v, rest := Encode(form, r), Encode(form, r[1..]);
      EscapeShape(form, r[0]);
      assert v[0] == EncodeByte(form, r[0])[0];
      assert v == [r[0]] + rest;
      assert forall i | 0 <= i < n - 1 :: rest[i] == v[i + 1];
      AlignedPrefix(form, r[1..], n - 1);
      assert r[..n] == [r[0]] + r[1..][..n - 1];
    }
  }

  // Every opening bracket of a form is one of the secret, with the rest encoded behind it.
  lemma {:induction false} OpeningAligned(form: Form, r: Text, p: nat) returns (q: nat)
    requires p < |Encode(form, r)| && Encode(form, r)[p] == OPENING
    ensures q < |r| && r[q] == OPENING
    ensures Encode(form, r)[p + 1..] == Encode(form, r[q + 1..])
  {
    hide EncodeByte;
    var e, rest := EncodeByte(form, r[0]), Encode(form, r[1..]);
    var v := e + rest;
    EscapeShape(form, r[0]);
    if p < |e| {
      q := 0;
      assert e[p] == v[p];
      DropOfConcat(e, rest, |e|);
    } else {
      assert rest[p - |e|] == v[p];
      var inner := OpeningAligned(form, r[1..], p - |e|);
      q := inner + 1;
      DropOfConcat(e, rest, p + 1);
      assert r[1..][inner + 1..] == r[q + 1..];
    }
  }

  lemma FormInside(form: Form, r: Text)
    requires InsideMarker(Encode(form, r))
    ensures InsideMarker(r)
  {
    hide MARKER, Encode;
    MarkerIsOrdinary();
    var v := Encode(form, r);
    var i :| 0 <= i <= |MARKER| && OccursAt(v, MARKER, i);
    assert forall j | 0 <= j < |v| :: v[j] == MARKER[i..i + |v|][j] == MARKER[i + j];
    AlignedPrefix(form, r, |v|);
    EncodedNoShorter(form, r);
    assert r == v;
  }

  lemma FormHead(form: Form, r: Text, n: nat)
    requires HeadIsMarkerTail(Encode(form, r), n)
    ensures HeadIsMarkerTail(r, n)
  {
    hide MARKER, Encode;
    MarkerIsOrdinary();
    var v := Encode(form, r);
    assert forall j | 0 <= j < n :: v[j] == v[..n][j] == MARKER[|MARKER| - n..][j] == MARKER[|MARKER| - n + j];
    AlignedPrefix(form, r, n);
  }

  // Where a form goes on like the marker, so does the secret.
  lemma FormOpens(form: Form, r: Text, p: nat, n: nat) returns (q: nat)
    requires 1 <= n <= |MARKER| && p + n <= |Encode(form, r)| && Encode(form, r)[p..p + n] == MARKER[..n]
    ensures q + n <= |r| && r[q..q + n] == MARKER[..n]
    ensures p + n == |Encode(form, r)| ==> q + n == |r|
  {
    hide MARKER, Encode;
    MarkerIsOrdinary();
    var v := Encode(form, r);
    assert forall j | 0 <= j < n :: v[p + j] == v[p..p + n][j] == MARKER[j];
    assert v[p] == v[p + 0];
    q := OpeningAligned(form, r, p);
    var tail := r[q + 1..];
    var t := v[p + 1..];
    forall j | 0 <= j < n - 1 ensures t[j] == MARKER[j + 1] {
      assert t[j] == v[p + (j + 1)];
    }
    AlignedPrefix(form, tail, n - 1);
    EncodedNoShorter(form, tail);
    assert r[q..q + n] == [r[q]] + tail[..n - 1];
    assert v[p..p + n] == [v[p]] + v[p + 1..][..n - 1];
  }

  lemma FormStraddles(form: Form, r: Text)
    requires Straddles(Encode(form, r))
    ensures Straddles(r)
  {
    hide MARKER, Encode;
    MarkerShape();
    var v := Encode(form, r);
    if p :| 0 <= p <= |v| && OccursAt(MARKER, v, p) {
      assert MARKER[..|MARKER|] == MARKER;
      var q := FormOpens(form, r, p, |MARKER|);
      assert OccursAt(MARKER, r, q);
    } else if n :| 1 <= n <= |MARKER| && HeadIsMarkerTail(v, n) {
      FormHead(form, r, n);
    } else {
      var n :| 1 <= n <= |MARKER| && TailIsMarkerHead(v, n);
      assert v[|v| - n..] == v[|v| - n..|v| - n + n];
      var q := FormOpens(form, r, |v| - n, n);
      assert r[|r| - n..] == r[q..q + n];
      assert TailIsMarkerHead(r, n);
    }
  }

  lemma FormOf(raw: Text, v: Text) returns (form: Form)
    requires v in VariantsOf(raw)
    ensures v == Encode(form, raw) && v != []
  {
    hide Encode;
    VariantsMeaning(raw);
    form :| v == Encode(form, raw) && form in {Exact, Json, PercentUpper, PercentLower, SingleQuoted, Backslashed};
  }

  lemma FormListed(raw: Text, form: Form)
    requires raw != []
    ensures Encode(form, raw) in VariantsOf(raw) && Encode(form, raw) != []
  {
    EncodedNoShorter(form, raw);
    VariantsMeaning(raw);
    var all := AllForms(raw);
    assert all[0] in all && all[1] in all && all[2] in all && all[3] in all && all[4] in all && all[5] in all;
  }

  lemma SecretListed(raw: Text)
    requires raw != []
    ensures raw in VariantsOf(raw)
  {
    hide VariantsOf;
    FormListed(raw, Exact);
    EncodeExact(raw);
  }

  // The list of a secret is marker-independent exactly when the secret itself is.
  lemma IndependentExactly(raw: Text)
    requires raw != []
    ensures MarkerIndependent(VariantsOf(raw)) <==> !InsideMarker(raw) && !Straddles(raw)
  {
    hide MARKER, Encode, VariantsOf;
    if !InsideMarker(raw) && !Straddles(raw) {
      forall v | v in VariantsOf(raw) ensures !InsideMarker(v) && !Straddles(v) {
        var form := FormOf(raw, v);
        if InsideMarker(v) {
          FormInside(form, raw);
        }
        if Straddles(v) {
          FormStraddles(form, raw);
        }
      }
    } else {
      SecretListed(raw);
    }
  }
}
