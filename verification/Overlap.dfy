// Exactly which secrets one pass hides on every input: those that cannot overlap the marker.
module Overlap {
  import opened Bytes
  import opened Redaction
  import opened Variants
  import opened Alignment
  import opened Planting

  // ---- inputs that leave the secret behind --------------------------------------------------

  lemma InsideIsLeft(raw: Text)
    requires raw != [] && InsideMarker(raw)
    ensures Occurs(raw, Redacted(raw, VariantsOf(raw)))
  {
    hide MARKER, VariantsOf;
    assert OccursAt(raw, raw, 0);
    SecretListed(raw);
    assert raw in VariantsOf(raw) && Occurs(raw, raw);
    DirtyIffContains(raw, VariantsOf(raw));
    DirtyScan(raw, 0, |raw|, VariantsOf(raw));
    OccursTransitive(raw, MARKER, Redacted(raw, VariantsOf(raw)));
  }

  // The marker written for the secret supplies the beginning that `raw[n..]` lacks.
  lemma HeadIsLeft(raw: Text, n: nat)
    requires 1 <= n < |raw| && HeadIsMarkerTail(raw, n)
    ensures Occurs(raw, Redacted(raw + raw[n..], VariantsOf(raw)))
  {
    hide MARKER, VariantsOf, MatchLen;
    var s := raw + raw[n..];
    assert s[..|raw|] == raw && s[|raw|..] == raw[n..];
    assert s[0..0 + |raw|] == raw;
    SecretMatches(s, 0, raw);
    TooShort(s, |raw|, raw);
    var out := Redacted(s, VariantsOf(raw));
    assert out == MARKER + raw[n..];
    var p := |MARKER| - n;
    assert out[p..p + |raw|] == MARKER[p..] + raw[n..] == raw[..n] + raw[n..] == raw;
    assert OccursAt(raw, out, p);
  }

  // The marker written for the percent form supplies the end that `raw[..k]` lacks.
  lemma TailIsLeft(raw: Text, n: nat)
    requires 1 <= n < |raw| && TailIsMarkerHead(raw, n)
    ensures Occurs(raw, Redacted(Planted(raw, |raw| - n, []), VariantsOf(raw)))
  {
    hide MARKER, VariantsOf, MatchLen, Planted, Scan;
    MarkerIsOrdinary();
    var k := |raw| - n;
    assert raw[k] == raw[k..][0] == MARKER[..n][0] == OPENING;
    PlantedPass(raw, k, []);
    var out := Redacted(Planted(raw, k, []), VariantsOf(raw));
    assert out[0..|raw|] == raw[..k] + MARKER[..n] == raw[..k] + raw[k..] == raw;
    assert OccursAt(raw, out, 0);
  }

  // The same with the marker, and all of the secret behind it.
  lemma ContainedIsLeft(raw: Text, t: nat)
    requires OccursAt(MARKER, raw, t)
    ensures t < |raw| && Redacted(Planted(raw, t, raw[t + |MARKER|..]), VariantsOf(raw)) == raw
  {
    hide MARKER, VariantsOf, MatchLen, Planted, Scan;
    MarkerShape();
    MarkerIsOrdinary();
    assert raw[t] == raw[t..t + |MARKER|][0] == OPENING;
    PlantedPass(raw, t, raw[t + |MARKER|..]);
    assert raw == raw[..t] + (raw[t..t + |MARKER|] + raw[t + |MARKER|..]);
  }

  lemma SomethingIsLeft(raw: Text) returns (s: Text)
    requires raw != [] && (InsideMarker(raw) || Straddles(raw))
    ensures Occurs(raw, Redacted(s, VariantsOf(raw)))
  {
    hide MARKER, VariantsOf, Planted, Scan;
    MarkerShape();
    if InsideMarker(raw) {
      s := raw;
      InsideIsLeft(raw);
    } else if t :| 0 <= t <= |raw| && OccursAt(MARKER, raw, t) {
      ContainedIsLeft(raw, t);
      s := Planted(raw, t, raw[t + |MARKER|..]);
      assert OccursAt(raw, raw, 0);
    } else if n :| 1 <= n <= |MARKER| && HeadIsMarkerTail(raw, n) {
      assert raw[..|raw|] == raw;
      assert n == |raw| ==> OccursAt(raw, MARKER, |MARKER| - n);
      s := raw + raw[n..];
      HeadIsLeft(raw, n);
    } else {
      var n :| 1 <= n <= |MARKER| && TailIsMarkerHead(raw, n);
      assert raw[0..] == raw;
      assert n == |raw| ==> OccursAt(raw, MARKER, 0);
      s := Planted(raw, |raw| - n, []);
      TailIsLeft(raw, n);
    }
  }

  // For every secret: one pass hides all its forms on every input exactly when the secret and
  // the marker do not overlap.
  lemma OnePassSufficesExactly(raw: Text)
    requires raw != []
    ensures (forall s: Text :: !ContainsAny(Redacted(s, VariantsOf(raw)), VariantsOf(raw)))
            <==> !InsideMarker(raw) && !Straddles(raw)
  {
    hide MARKER, VariantsOf, Scan, InsideMarker, Straddles;
    IndependentExactly(raw);
    if !InsideMarker(raw) && !Straddles(raw) {
      forall s: Text ensures !ContainsAny(Redacted(s, VariantsOf(raw)), VariantsOf(raw)) {
        OnePassIsClean(s, VariantsOf(raw));
      }
    } else {
      var s := SomethingIsLeft(raw);
      SecretListed(raw);
    }
  }
}
