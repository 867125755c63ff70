// Byte limiting that never splits a marker.
module Truncation {
  import opened Bytes
  import opened Redaction

  // Cutting `s` at `c` would split a marker.
  predicate Splits(s: Text, c: int) {
    exists j | 0 <= j < c :: OccursAt(MARKER, s, j) && c < j + |MARKER|
  }

  // The longest prefix length up to `max` that splits no marker.
  predicate IsBestCut(s: Text, max: nat, c: nat) {
    && c <= Min(max, |s|)
    && !Splits(s, c)
    && forall d | c < d <= Min(max, |s|) :: Splits(s, d)
  }

  // A marker cannot begin inside another one.
  lemma MarkersDoNotOverlap(s: Text, i: nat, j: nat)
    requires OccursAt(MARKER, s, i) && OccursAt(MARKER, s, j)
    ensures i == j || i + |MARKER| <= j || j + |MARKER| <= i
  {
    if i < j < i + |MARKER| {
      OpeningByte(s, i, j);
    } else if j < i < j + |MARKER| {
      OpeningByte(s, j, i);
    }
  }

  lemma OpeningBracket(n: nat)
    requires 0 < n < |MARKER|
    ensures MARKER[n] != MARKER[0]
  {
  }

  // Only the first byte of the marker is the opening bracket.
  lemma OpeningByte(s: Text, i: nat, j: nat)
    requires OccursAt(MARKER, s, i) && i < j < i + |MARKER|
    ensures s[j] != MARKER[0]
    ensures !OccursAt(MARKER, s, j)
  {
    assert s[j] == s[i..i + |MARKER|][j - i] == MARKER[j - i];
    OpeningBracket(j - i);
  }

  lemma BestCutIsUnique(s: Text, max: nat, c: nat, d: nat)
    requires IsBestCut(s, max, c) && IsBestCut(s, max, d)
    ensures c == d
  {
  }

  // Pulling back to the start of the split marker gives the best cut.
  lemma PullBackIsBest(s: Text, max: nat, j: nat)
    requires max < |s| && j < max < j + |MARKER| && OccursAt(MARKER, s, j)
    ensures IsBestCut(s, max, j)
  {
    hide MARKER;
    MarkerShape();
    if Splits(s, j) {
      var i :| 0 <= i < j && OccursAt(MARKER, s, i) && j < i + |MARKER|;
      MarkersDoNotOverlap(s, i, j);
    }
  }

  // The cut the program makes; `max` when no marker is split there.
  ghost function Cut(s: Text, max: nat): (c: nat)
    ensures IsBestCut(s, max, c)
    ensures Min(max, |s|) - |MARKER| < c
  {
    if max < |s| && Splits(s, max) then
      var j :| 0 <= j < max && OccursAt(MARKER, s, j) && max < j + |MARKER|;
      PullBackIsBest(s, max, j);
      j
    else
      EndSplitsNothing(s);
      Min(max, |s|)
  }

  lemma EndSplitsNothing(s: Text)
    ensures !Splits(s, |s|)
  {
  }

  ghost function Truncated(s: Text, max: nat): (Text, bool) {
    (s[..Cut(s, max)], |s| > max)
  }

  method TruncateNoSplitMarker(bytes: Text, max: nat) returns (out: Text, truncated: bool)
    ensures (out, truncated) == Truncated(bytes, max)
    ensures out <= bytes && |out| <= max
    ensures truncated <==> |bytes| > max
    ensures IsBestCut(bytes, max, |out|)
    ensures Min(max, |bytes|) - |MARKER| < |out|
  {
    hide MARKER;
    MarkerShape();
    if |bytes| <= max {
      EndSplitsNothing(bytes);
      BestCutIsUnique(bytes, max, |bytes|, Cut(bytes, max));
      assert bytes[..|bytes|] == bytes;
      return bytes, false;
    }
    var cut := max;
    var j := Max(0, max - (|MARKER| - 1));
    while j < cut
      invariant 0 <= j <= cut == max
      invariant forall i | 0 <= i < j :: OccursAt(MARKER, bytes, i) ==> i + |MARKER| <= max
      decreases max - j
    {
      if MARKER <= bytes[j..] {
        assert OccursAt(MARKER, bytes, j);
        if j + |MARKER| > cut {
          PullBackIsBest(bytes, max, j);
          cut := j;
        }
        break;
      }
      j := j + 1;
    }
    BestCutIsUnique(bytes, max, cut, Cut(bytes, max));
    out, truncated := bytes[..cut], true;
  }
}
