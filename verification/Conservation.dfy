// Redaction hides the matched texts and nothing else: giving them back restores the input.
module Conservation {
  import opened Bytes
  import opened Redaction
  import opened Truncation
  import opened Capture
  import opened Variants

  // The texts a pass replaces, in order.
  function Hits(s: Text, i: nat, hi: nat, vs: seq<Text>): seq<Text>
    requires i <= hi <= |s|
    decreases hi - i
  {
    if i == hi then []
    else
      var m := MatchLen(s, i, hi, vs);
      if m > 0 then [s[i..i + m]] + Hits(s, i + m, hi, vs) else Hits(s, i + 1, hi, vs)
  }

  // Puts `hits` back, one for each marker met from the left.
  function Restore(t: Text, hits: seq<Text>): Text
    decreases |t|
  {
    if t == [] then []
    else if hits != [] && MARKER <= t then hits[0] + Restore(t[|MARKER|..], hits[1..])
    else [t[0]] + Restore(t[1..], hits)
  }

  lemma {:induction false} HitsAreVariants(s: Text, i: nat, hi: nat, vs: seq<Text>)
    requires i <= hi <= |s|
    ensures forall h | h in Hits(s, i, hi, vs) :: h in vs && h != []
    decreases hi - i
  {
    if i < hi {
      MatchLenMeaning(s, i, hi, vs);
      HitsAreVariants(s, i + Step(s, i, hi, vs), hi, vs);
    }
  }

  lemma {:induction false} RestoreScan(s: Text, i: nat, hi: nat, vs: seq<Text>)
    requires i <= hi <= |s|
    requires forall r | i <= r < hi :: !Within(MARKER, s, r, hi)
    ensures Restore(Scan(s, i, hi, vs), Hits(s, i, hi, vs)) == s[i..hi]
    decreases hi - i
  {
    hide MARKER, MatchLen, Scan;
    MarkerShape();
    if i == hi {
      ScanEnds(s, hi, vs);
    } else {
      ScanUnfolds(s, i, hi, vs);
      var out, hits := Scan(s, i, hi, vs), Hits(s, i, hi, vs);
      var next := i + Step(s, i, hi, vs);
      RestoreScan(s, next, hi, vs);
      if MatchLen(s, i, hi, vs) > 0 {
        assert out[|MARKER|..] == Scan(s, next, hi, vs) && hits[1..] == Hits(s, next, hi, vs);
      } else {
        assert !(MARKER <= out) by {
          if MARKER <= out {
            MarkerAtFront(s, i, hi, vs);
          }
        }
        assert out[1..] == Scan(s, next, hi, vs);
      }
      assert s[i..hi] == s[i..next] + s[next..hi];
    }
  }

  // For input that does not print the marker itself, the output and the replaced variants
  // determine the input.
  lemma RedactionIsLossless(s: Text, vs: seq<Text>)
    requires !Occurs(MARKER, s)
    ensures Restore(Redacted(s, vs), Hits(s, 0, |s|, vs)) == s
    ensures forall h | h in Hits(s, 0, |s|, vs) :: h in vs && h != []
  {
    hide MARKER;
    RestoreScan(s, 0, |s|, vs);
    HitsAreVariants(s, 0, |s|, vs);
  }

  // ---- the exceptions are real -----------------------------------------------------

  // "hunter22"
  const SHORT_SECRET: Text := [104, 117, 110, 116, 101, 114, 50, 50]

  // A child that prints the marker: with a cap of 5 and an 8-byte secret the reader keeps 13
  // bytes, and the fragment of the marker is emitted that the whole stream would not show.
  lemma EdgeCaseIsReal()
    ensures MarkerIndependent([SHORT_SECRET])
    ensures CaptureLimit(5, |SHORT_SECRET|) == 13
    ensures Truncated(Redacted(Take(MARKER, 13), [SHORT_SECRET]), 5) != Truncated(Redacted(MARKER, [SHORT_SECRET]), 5)
  {
    PlainInsideMarker(SHORT_SECRET);
    PlainDoesNotStraddle(SHORT_SECRET);
    assert OccursAt(MARKER, MARKER, 0) && |Scan(MARKER, 0, 0, [SHORT_SECRET])| == 0;
    assert RawMarkerAtEdge(MARKER, [SHORT_SECRET], 5, 13);
    CaptureInvisibleExactly(MARKER, [SHORT_SECRET], 5, |SHORT_SECRET|);
  }
}
