// What one replacement pass computes, and when a single pass is enough.
module Redaction {
  import opened Bytes

  // The ASCII bytes of "[REDACTED:kpexec]".
  const MARKER: Text := [91, 82, 69, 68, 65, 67, 84, 69, 68, 58, 107, 112, 101, 120, 101, 99, 93]

  // All that most proofs need to know about the marker's bytes: the bracket that
  // opens it does not come back.
  lemma MarkerShape()
    ensures |MARKER| == 17
    ensures forall n | 0 < n < 17 :: MARKER[n] != MARKER[0]
  {
  }

  // ---- one pass ------------------------------------------------------------

  // `v` stands at offset `i` of `s` and ends by `hi`.
  predicate Within(v: Text, s: Text, i: nat, hi: nat) {
    i + |v| <= hi && OccursAt(v, s, i)
  }

  // Length of the first variant, in list order, found at offset `i` of `s[..hi]`; 0 if none.
  function MatchLen(s: Text, i: nat, hi: nat, vs: seq<Text>): (m: nat)
    requires i <= hi <= |s|
    ensures i + m <= hi
  {
    if vs == [] then 0
    else if vs[0] != [] && Within(vs[0], s, i, hi) then |vs[0]|
    else MatchLen(s, i, hi, vs[1..])
  }

  // How far the scan advances from offset `i`.
  function Step(s: Text, i: nat, hi: nat, vs: seq<Text>): (n: nat)
    requires i < hi <= |s|
    ensures 0 < n && i + n <= hi
  {
    var m := MatchLen(s, i, hi, vs);
    if m > 0 then m else 1
  }

  // The greedy left-to-right scan of `s[i..hi]`.
  function Scan(s: Text, i: nat, hi: nat, vs: seq<Text>): Text
    requires i <= hi <= |s|
    decreases hi - i
  {
    if i == hi then []
    else
      var m := MatchLen(s, i, hi, vs);
      if m > 0 then MARKER + Scan(s, i + m, hi, vs)
      else [s[i]] + Scan(s, i + 1, hi, vs)
  }

  lemma ScanUnfolds(s: Text, i: nat, hi: nat, vs: seq<Text>)
    requires i < hi <= |s|
    ensures Scan(s, i, hi, vs) ==
            (if MatchLen(s, i, hi, vs) > 0 then MARKER else [s[i]]) + Scan(s, i + Step(s, i, hi, vs), hi, vs)
  {
    hide MARKER, MatchLen;
  }

  lemma ScanEnds(s: Text, hi: nat, vs: seq<Text>)
    requires hi <= |s|
    ensures Scan(s, hi, hi, vs) == []
  {
  }

  function Redacted(s: Text, vs: seq<Text>): Text {
    Scan(s, 0, |s|, vs)
  }

  predicate ContainsAny(s: Text, vs: seq<Text>) {
    exists v | v in vs && v != [] :: Occurs(v, s)
  }

  lemma MarkerSpelled()
    ensures |MARKER| == |"[REDACTED:kpexec]"|
    ensures forall i | 0 <= i < |MARKER| :: MARKER[i] as char == "[REDACTED:kpexec]"[i]
  {
  }

  // ---- matching ------------------------------------------------------------

  lemma {:induction false} MatchLenMeaning(s: Text, i: nat, hi: nat, vs: seq<Text>)
    requires i <= hi <= |s|
    ensures var m := MatchLen(s, i, hi, vs); m > 0 ==> s[i..i + m] in vs
    ensures forall v | v in vs && v != [] :: Within(v, s, i, hi) ==> MatchLen(s, i, hi, vs) > 0
  {
    if vs == [] {
    } else {
      MatchLenMeaning(s, i, hi, vs[1..]);
      assert forall v :: v in vs <==> v == vs[0] || v in vs[1..];
    }
  }

  // Of several variants at one offset the first of the list is taken.
  lemma {:induction false} FirstMatches(s: Text, i: nat, hi: nat, vs: seq<Text>) returns (k: nat)
    requires i <= hi <= |s| && MatchLen(s, i, hi, vs) > 0
    ensures k < |vs| && vs[k] != [] && Within(vs[k], s, i, hi) && MatchLen(s, i, hi, vs) == |vs[k]|
    ensures forall j | 0 <= j < k :: vs[j] == [] || !Within(vs[j], s, i, hi)
  {
    if vs[0] != [] && Within(vs[0], s, i, hi) {
      k := 0;
    } else {
      var inner := FirstMatches(s, i, hi, vs[1..]);
      k := inner + 1;
      forall j | 0 < j < k ensures vs[j] == [] || !Within(vs[j], s, i, hi) {
        assert vs[j] == vs[1..][j - 1];
      }
    }
  }

  // Moving the end of the text leaves a match, or a non-match before it, alone.
  lemma {:induction false} MatchLenPrefix(s: Text, i: nat, n: nat, hi: nat, vs: seq<Text>)
    requires i <= n <= hi <= |s| && i + MatchLen(s, i, hi, vs) <= n
    ensures MatchLen(s, i, n, vs) == MatchLen(s, i, hi, vs)
  {
    if vs != [] && !(vs[0] != [] && Within(vs[0], s, i, hi)) {
      MatchLenPrefix(s, i, n, hi, vs[1..]);
    }
  }

  // Some variant occurs in `s[i..hi]`.
  ghost predicate Dirty(s: Text, i: nat, hi: nat, vs: seq<Text>)
    requires i <= hi <= |s|
  {
    exists q | i <= q < hi :: MatchLen(s, q, hi, vs) > 0
  }

  lemma DirtyIffContains(s: Text, vs: seq<Text>)
    ensures Dirty(s, 0, |s|, vs) <==> ContainsAny(s, vs)
  {
    if q :| 0 <= q < |s| && MatchLen(s, q, |s|, vs) > 0 {
      MatchLenMeaning(s, q, |s|, vs);
      var v := s[q..q + MatchLen(s, q, |s|, vs)];
      assert OccursAt(v, s, q);
    }
    if v :| v in vs && v != [] && Occurs(v, s) {
      var q :| 0 <= q <= |s| && OccursAt(v, s, q);
      assert Within(v, s, q, |s|);
      MatchLenMeaning(s, q, |s|, vs);
    }
  }

  // Without a match the scan copies its input; with one, the marker appears.
  lemma {:induction false} CleanScan(s: Text, i: nat, hi: nat, vs: seq<Text>)
    requires i <= hi <= |s| && !Dirty(s, i, hi, vs)
    ensures Scan(s, i, hi, vs) == s[i..hi]
    decreases hi - i
  {
    if i < hi {
      CleanScan(s, i + 1, hi, vs);
    }
  }

  lemma CleanUnchanged(s: Text, vs: seq<Text>)
    requires !ContainsAny(s, vs)
    ensures Redacted(s, vs) == s
  {
    DirtyIffContains(s, vs);
    CleanScan(s, 0, |s|, vs);
  }

  lemma {:induction false} DirtyScan(s: Text, i: nat, hi: nat, vs: seq<Text>)
    requires i <= hi <= |s| && Dirty(s, i, hi, vs)
    ensures Occurs(MARKER, Scan(s, i, hi, vs))
    decreases hi - i
  {
    hide MARKER;
    var out := Scan(s, i, hi, vs);
    if MatchLen(s, i, hi, vs) > 0 {
      assert OccursAt(MARKER, out, 0);
    } else {
      DirtyScan(s, i + 1, hi, vs);
      OccursInPart(MARKER, [s[i]], Scan(s, i + 1, hi, vs), []);
      assert out == [s[i]] + Scan(s, i + 1, hi, vs) + [];
    }
  }

  // ---- marker independence -------------------------------------------------

  predicate InsideMarker(v: Text) {
    Occurs(v, MARKER)
  }

  // The first `n` bytes of `v` are the last ones of the marker.
  predicate HeadIsMarkerTail(v: Text, n: nat) {
    n <= |v| && n <= |MARKER| && v[..n] == MARKER[|MARKER| - n..]
  }

  // The last `n` bytes of `v` are the first ones of the marker.
  predicate TailIsMarkerHead(v: Text, n: nat) {
    n <= |v| && n <= |MARKER| && v[|v| - n..] == MARKER[..n]
  }

  // `v` contains the marker or reaches across one of its edges.
  predicate Straddles(v: Text) {
    || Occurs(MARKER, v)
    || (exists n | 1 <= n <= |MARKER| :: HeadIsMarkerTail(v, n))
    || (exists n | 1 <= n <= |MARKER| :: TailIsMarkerHead(v, n))
  }

  predicate MarkerIndependent(vs: seq<Text>) {
    forall v | v in vs && v != [] :: !InsideMarker(v) && !Straddles(v)
  }

  // From offset `i` on, as far as `hi`, `s` is marker text starting `q` bytes in.
  predicate MarkerText(s: Text, i: nat, hi: nat, q: nat)
    requires i <= hi <= |s| && q <= |MARKER|
  {
    var n := Min(hi - i, |MARKER| - q);
    s[i..i + n] == MARKER[q..q + n]
  }

  lemma StartsInMarker(v: Text, s: Text, i: nat, hi: nat, q: nat)
    requires i <= hi <= |s| && q < |MARKER| && MarkerText(s, i, hi, q)
    requires v != [] && Within(v, s, i, hi)
    ensures InsideMarker(v) || Straddles(v)
  {
    hide MARKER;
    var n := Min(hi - i, |MARKER| - q);
    if |v| <= n {
      assert v == s[i..i + n][..|v|] == MARKER[q..q + n][..|v|] == MARKER[q..q + |v|];
      assert OccursAt(v, MARKER, q);
    } else {
      assert n == |MARKER| - q;
      assert v[..n] == s[i..i + |v|][..n] == s[i..i + n] == MARKER[q..];
      assert HeadIsMarkerTail(v, n);
    }
  }

  // No variant starts anywhere inside marker text, whole or cut off.
  lemma NoMatchInMarker(s: Text, i: nat, hi: nat, q: nat, vs: seq<Text>)
    requires MarkerIndependent(vs)
    requires i <= hi <= |s| && q < |MARKER| && MarkerText(s, i, hi, q)
    ensures MatchLen(s, i, hi, vs) == 0
  {
    hide MARKER;
    MatchLenMeaning(s, i, hi, vs);
    var m := MatchLen(s, i, hi, vs);
    if m > 0 {
      StartsInMarker(s[i..i + m], s, i, hi, q);
    }
  }

  // ---- one pass is enough --------------------------------------------------

  // The tail of `v` from `q` on begins with the marker, or is a beginning of it.
  lemma TailMeetsMarker(v: Text, q: nat)
    requires q < |v|
    requires var n := Min(|v| - q, |MARKER|); v[q..q + n] == MARKER[..n]
    ensures Straddles(v)
  {
    hide MARKER;
    MarkerShape();
    if |v| - q <= |MARKER| {
      assert v[q..q + (|v| - q)] == v[q..];
      assert TailIsMarkerHead(v, |v| - q);
    } else {
      assert MARKER[..|MARKER|] == MARKER;
      assert OccursAt(MARKER, v, q);
    }
  }

  // A tail of `v` at the front of the output stood at the front of the input,
  // unless `v` can meet a marker.
  lemma {:induction false} TailThroughPass(s: Text, i: nat, hi: nat, vs: seq<Text>, v: Text, q: nat)
    requires i <= hi <= |s| && q < |v|
    requires v[q..] <= Scan(s, i, hi, vs)
    ensures (i + (|v| - q) <= hi && s[i..i + (|v| - q)] == v[q..]) || Straddles(v)
    decreases |v| - q
  {
    hide MARKER;
    MarkerShape();
    var out := Scan(s, i, hi, vs);
    if MatchLen(s, i, hi, vs) > 0 {
      var n := Min(|v| - q, |MARKER|);
      assert v[q..q + n] == out[..n] == MARKER[..n];
      TailMeetsMarker(v, q);
    } else {
      assert v[q] == out[0] == s[i];
      if q + 1 < |v| {
        assert out[1..] == Scan(s, i + 1, hi, vs);
        assert v[q + 1..] == v[q..][1..] == out[1..][..|v| - q - 1];
        TailThroughPass(s, i + 1, hi, vs, v, q + 1);
      }
      assert v[q..] == [v[q]] + v[q + 1..];
    }
  }

  lemma HeadOfMarkerMeets(v: Text, out: Text, p: nat)
    requires v != [] && MARKER <= out && p < |MARKER| && OccursAt(v, out, p)
    ensures InsideMarker(v) || Straddles(v)
  {
    hide MARKER;
    assert out[p..|MARKER|] == MARKER[p..];
    assert MarkerText(out, p, |out|, p);
    StartsInMarker(v, out, p, |out|, p);
  }

  // Whatever else is in the list.
  lemma {:induction false} OnePassLeavesNone(s: Text, i: nat, hi: nat, vs: seq<Text>, v: Text, p: nat)
    requires i <= hi <= |s|
    requires v in vs && v != [] && !InsideMarker(v) && !Straddles(v)
    ensures !OccursAt(v, Scan(s, i, hi, vs), p)
    decreases hi - i
  {
    hide MARKER;
    MarkerShape();
    var out := Scan(s, i, hi, vs);
    if i < hi {
      var m := MatchLen(s, i, hi, vs);
      MatchLenMeaning(s, i, hi, vs);
      if m == 0 && p == 0 {
        assert v[0..] == v;
        if v <= out {
          TailThroughPass(s, i, hi, vs, v, 0);
        }
      } else if m > 0 && p < |MARKER| {
        if OccursAt(v, out, p) {
          HeadOfMarkerMeets(v, out, p);
        }
      } else {
        var k := if m > 0 then |MARKER| else 1;
        var next := i + Step(s, i, hi, vs);
        OnePassLeavesNone(s, next, hi, vs, v, p - k);
        assert out[k..] == Scan(s, next, hi, vs);
        OccursAtSuffix(v, out, k, p);
      }
    }
  }

  // One greedy pass leaves no marker-independent variant behind, and another changes nothing.
  lemma OnePassIsClean(s: Text, vs: seq<Text>)
    requires MarkerIndependent(vs)
    ensures !ContainsAny(Redacted(s, vs), vs)
    ensures Redacted(Redacted(s, vs), vs) == Redacted(s, vs)
  {
    var out := Redacted(s, vs);
    forall v, p: nat | v in vs && v != [] ensures !OccursAt(v, out, p) {
      OnePassLeavesNone(s, 0, |s|, vs, v, p);
    }
    CleanUnchanged(out, vs);
  }

  // ---- bounded passes ------------------------------------------------------

  // `bound` passes, one after the other.
  function Passes(s: Text, vs: seq<Text>, bound: nat): Text
    decreases bound
  {
    if bound == 0 then s else Passes(Redacted(s, vs), vs, bound - 1)
  }

  lemma {:induction false} PassesOfClean(s: Text, vs: seq<Text>, bound: nat)
    requires !ContainsAny(s, vs)
    ensures Passes(s, vs, bound) == s
    decreases bound
  {
    if bound > 0 {
      CleanUnchanged(s, vs);
      PassesOfClean(s, vs, bound - 1);
    }
  }

  // With marker-independent variants every positive bound computes the single pass.
  lemma BoundIsIrrelevant(s: Text, vs: seq<Text>, bound: nat)
    requires MarkerIndependent(vs) && bound > 0
    ensures Passes(s, vs, bound) == Redacted(s, vs)
    ensures !ContainsAny(Passes(s, vs, bound), vs)
  {
    OnePassIsClean(s, vs);
    PassesOfClean(Redacted(s, vs), vs, bound - 1);
  }

  lemma OccursTransitive(v: Text, m: Text, s: Text)
    requires Occurs(v, m) && Occurs(m, s)
    ensures Occurs(v, s)
  {
    var i :| 0 <= i <= |s| && OccursAt(m, s, i);
    assert s == s[..i] + m + s[i + |m|..];
    OccursInPart(v, s[..i], m, s[i + |m|..]);
  }

  // A variant inside the marker comes back with every replacement, at every bound.
  lemma {:induction false} InsideNeverClears(s: Text, vs: seq<Text>, bound: nat, v: Text)
    requires v in vs && v != [] && InsideMarker(v)
    requires ContainsAny(s, vs)
    ensures ContainsAny(Passes(s, vs, bound), vs)
    decreases bound
  {
    hide MARKER;
    if bound > 0 {
      DirtyIffContains(s, vs);
      DirtyScan(s, 0, |s|, vs);
      OccursTransitive(v, MARKER, Redacted(s, vs));
      InsideNeverClears(Redacted(s, vs), vs, bound - 1, v);
    }
  }

  // Exactly when redaction ends clean, for variants that do not straddle a marker edge:
  // the input was clean already, or no variant lies inside the marker.
  lemma CleanExactly(s: Text, vs: seq<Text>, bound: nat)
    requires forall v | v in vs && v != [] :: !Straddles(v)
    requires bound > 0
    ensures !ContainsAny(Passes(s, vs, bound), vs) <==>
            !ContainsAny(s, vs) || forall v | v in vs && v != [] :: !InsideMarker(v)
  {
    hide MARKER;
    if !ContainsAny(s, vs) {
      PassesOfClean(s, vs, bound);
    } else if v :| v in vs && v != [] && InsideMarker(v) {
      InsideNeverClears(s, vs, bound, v);
    } else {
      BoundIsIrrelevant(s, vs, bound);
    }
  }
}
