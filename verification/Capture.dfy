// Why redacting a bounded prefix of a stream shows the same bytes as redacting all of it.
module Capture {
  import opened Bytes
  import opened Redaction
  import opened Truncation

  const USIZE_MAX: nat := 0xFFFF_FFFF_FFFF_FFFF

  function SatAdd(a: nat, b: nat): nat { Min(a + b, USIZE_MAX) }

  function SatMul(a: nat, b: nat): nat { Min(a * b, USIZE_MAX) }

  function DivCeil(a: nat, b: nat): (q: nat)
    requires b > 0
    ensures (q as int - 1) * b < a <= q * b || a == q == 0
  {
    (a + b - 1) / b
  }

  // Raw bytes kept for a policy cap when the longest variant has `maxLen` bytes.
  function CaptureLimit(cap: nat, maxLen: nat): nat
    requires cap <= USIZE_MAX
  {
    if maxLen == 0 then SatAdd(cap, 1)
    else if maxLen > |MARKER| then
      SatAdd(SatMul(DivCeil(SatAdd(cap, 1), |MARKER|), maxLen), maxLen - 1)
    else SatAdd(cap, maxLen)
  }

  // Without saturation: room for one longest form more than the cap, or, where forms shrink to
  // markers, for just as many longest forms as have markers that pass the cap, and for all but
  // one byte of another form.
  lemma LimitMeaning(cap: nat, maxLen: nat) returns (markers: nat)
    requires cap < USIZE_MAX && CaptureLimit(cap, maxLen) < USIZE_MAX
    ensures maxLen > 17 ==> 17 * markers - 17 <= cap < 17 * markers
    ensures CaptureLimit(cap, maxLen)
            == if maxLen == 0 then cap + 1
               else if maxLen <= 17 then cap + maxLen
               else markers * maxLen + maxLen - 1
  {
    markers := DivCeil(cap + 1, 17);
  }

  predicate NoLonger(vs: seq<Text>, maxLen: nat) {
    forall v | v in vs :: |v| <= maxLen
  }

  // ---- boundaries ----------------------------------------------------------

  // The scan of `s[i..hi]` stops at offset `r` between two steps.
  predicate Boundary(s: Text, i: nat, hi: nat, r: nat, vs: seq<Text>)
    requires i <= r <= hi <= |s|
    decreases r - i
  {
    i == r || (i + Step(s, i, hi, vs) <= r && Boundary(s, i + Step(s, i, hi, vs), hi, r, vs))
  }

  lemma StepPrefix(s: Text, i: nat, n: nat, hi: nat, vs: seq<Text>)
    requires i < n <= hi <= |s| && i + Step(s, i, hi, vs) <= n
    ensures MatchLen(s, i, n, vs) == MatchLen(s, i, hi, vs)
  {
    MatchLenPrefix(s, i, n, hi, vs);
  }

  // A pass works on the two sides of a boundary independently.
  lemma {:induction false} SplitAtBoundary(s: Text, i: nat, hi: nat, r: nat, vs: seq<Text>)
    requires i <= r <= hi <= |s| && Boundary(s, i, hi, r, vs)
    ensures Scan(s, i, hi, vs) == Scan(s, i, r, vs) + Scan(s, r, hi, vs)
    decreases r - i
  {
    hide MARKER, MatchLen;
    if i < r {
      var next := i + Step(s, i, hi, vs);
      StepPrefix(s, i, r, hi, vs);
      SplitAtBoundary(s, next, hi, r, vs);
      var emitted := if MatchLen(s, i, hi, vs) > 0 then MARKER else [s[i]];
      Assoc(emitted, Scan(s, next, r, vs), Scan(s, r, hi, vs));
    }
  }

  // Cutting the text at `n` keeps the boundaries before `n`, and adds none when `n` is one.
  lemma {:induction false} BoundaryOfPrefix(s: Text, i: nat, n: nat, hi: nat, r: nat, vs: seq<Text>)
    requires i <= r <= n <= hi <= |s|
    ensures Boundary(s, i, hi, r, vs) ==> Boundary(s, i, n, r, vs)
    ensures Boundary(s, i, hi, n, vs) && Boundary(s, i, n, r, vs) ==> Boundary(s, i, hi, r, vs)
    decreases r - i
  {
    if i < r {
      var k := Step(s, i, hi, vs);
      if i + k <= n {
        StepPrefix(s, i, n, hi, vs);
        if i + k <= r {
          BoundaryOfPrefix(s, i + k, n, hi, r, vs);
        }
      }
    }
  }

  // Up to a common boundary `k` the shorter and the longer scan stop at the same places.
  lemma BoundaryInWhole(s: Text, limit: nat, hi: nat, k: nat, r: nat, vs: seq<Text>)
    requires r <= k <= limit <= hi <= |s|
    requires Boundary(s, 0, hi, k, vs) && Boundary(s, 0, limit, r, vs)
    ensures Boundary(s, 0, hi, r, vs)
  {
    BoundaryOfPrefix(s, 0, k, limit, r, vs);
    BoundaryOfPrefix(s, 0, k, hi, r, vs);
  }

  // Less output means an earlier boundary.
  lemma BeforeStable(s: Text, hi: nat, cap: nat, k: nat, r: nat, vs: seq<Text>)
    requires k <= hi <= |s| && Boundary(s, 0, hi, k, vs) && |Scan(s, 0, k, vs)| > cap
    requires r <= hi && Boundary(s, 0, hi, r, vs) && |Scan(s, 0, r, vs)| < cap
    ensures r < k
  {
    if k <= r {
      BoundaryOfPrefix(s, 0, r, hi, k, vs);
      SplitAtBoundary(s, 0, r, k, vs);
    }
  }

  // ---- the ratio argument --------------------------------------------------

  lemma RatioStep(written: nat, rest: nat, read: nat, len: nat, w: nat)
    requires rest * w >= 17 * len && written * w >= 17 * read
    ensures (written + rest) * w >= 17 * (read + len)
  {
    assert (written + rest) * w == written * w + rest * w;
  }

  // A pass shrinks text by no more than the longest variant over the marker.
  lemma {:induction false} Ratio(s: Text, i: nat, hi: nat, vs: seq<Text>, w: nat)
    requires i <= hi <= |s| && NoLonger(vs, w) && w >= |MARKER|
    ensures |Scan(s, i, hi, vs)| * w >= 17 * (hi - i)
    decreases hi - i
  {
    hide MARKER, MatchLen, Scan;
    MarkerShape();
    if i < hi {
      MatchLenMeaning(s, i, hi, vs);
      ScanUnfolds(s, i, hi, vs);
      var k := Step(s, i, hi, vs);
      var written := if MatchLen(s, i, hi, vs) > 0 then 17 else 1;
      Ratio(s, i + k, hi, vs, w);
      RatioStep(written, |Scan(s, i + k, hi, vs)|, k, hi - i - k, w);
    }
  }

  lemma NeverShorter(s: Text, i: nat, hi: nat, vs: seq<Text>)
    requires i <= hi <= |s| && NoLonger(vs, |MARKER|)
    ensures |Scan(s, i, hi, vs)| >= hi - i
  {
    Ratio(s, i, hi, vs, |MARKER|);
  }

  // ---- where markers in the output come from --------------------------------

  // A marker appears in the output for a match, or for raw marker text, at `r`.
  predicate MarkerSource(s: Text, r: nat, hi: nat, vs: seq<Text>)
    requires r <= hi <= |s|
  {
    MatchLen(s, r, hi, vs) > 0 || Within(MARKER, s, r, hi)
  }

  // Output that continues the marker from its byte `n` is raw marker text.
  lemma {:induction false} RawMarkerTail(s: Text, i: nat, hi: nat, n: nat, vs: seq<Text>)
    requires i <= hi <= |s| && 0 < n <= |MARKER| && MARKER[n..] <= Scan(s, i, hi, vs)
    ensures i + (|MARKER| - n) <= hi && s[i..i + (|MARKER| - n)] == MARKER[n..]
    decreases |MARKER| - n
  {
    hide MARKER, MatchLen, Scan;
    MarkerShape();
    if n < |MARKER| {
      var out := Scan(s, i, hi, vs);
      if i == hi {
        ScanEnds(s, hi, vs);
      }
      ScanUnfolds(s, i, hi, vs);
      assert out[0] == MARKER[n..][0] == MARKER[n];
      assert out[1..] == Scan(s, i + 1, hi, vs);
      assert MARKER[n + 1..] == MARKER[n..][1..] == out[1..][..|MARKER| - n - 1];
      RawMarkerTail(s, i + 1, hi, n + 1, vs);
      assert MARKER[n..] == [MARKER[n]] + MARKER[n + 1..];
    }
  }

  lemma MarkerAtFront(s: Text, i: nat, hi: nat, vs: seq<Text>)
    requires i < hi <= |s| && MARKER <= Scan(s, i, hi, vs)
    ensures MarkerSource(s, i, hi, vs)
  {
    hide MARKER, MatchLen, Scan;
    MarkerShape();
    if MatchLen(s, i, hi, vs) == 0 {
      var out := Scan(s, i, hi, vs);
      ScanUnfolds(s, i, hi, vs);
      assert out[1..] == Scan(s, i + 1, hi, vs);
      assert MARKER[1..] == out[..|MARKER|][1..] == out[1..][..|MARKER| - 1];
      RawMarkerTail(s, i + 1, hi, 1, vs);
      assert MARKER == [MARKER[0]] + MARKER[1..];
      assert s[i..i + |MARKER|] == MARKER;
    }
  }

  lemma {:induction false} MarkerInOutput(s: Text, i: nat, hi: nat, vs: seq<Text>, j: nat) returns (r: nat)
    requires i <= hi <= |s| && OccursAt(MARKER, Scan(s, i, hi, vs), j)
    ensures i <= r <= hi && Boundary(s, i, hi, r, vs)
    ensures |Scan(s, i, r, vs)| == j && MarkerSource(s, r, hi, vs)
    decreases hi - i
  {
    hide MARKER, MatchLen, Scan;
    MarkerShape();
    if i == hi {
      ScanEnds(s, hi, vs);
    }
    ScanUnfolds(s, i, hi, vs);
    var out := Scan(s, i, hi, vs);
    var first := if MatchLen(s, i, hi, vs) > 0 then MARKER else [s[i]];
    if j >= |first| {
      var next := i + Step(s, i, hi, vs);
      DropOfConcat(first, Scan(s, next, hi, vs), |first|);
      OccursAtSuffix(MARKER, out, |first|, j);
      r := MarkerInOutput(s, next, hi, vs, j - |first|);
      StepPrefix(s, i, r, hi, vs);
      ScanUnfolds(s, i, r, vs);
    } else {
      r := i;
      ScanEnds(s, i, vs);
      if j > 0 {
        assert OccursAt(MARKER, out, 0);
        OpeningByte(out, 0, j);
      } else {
        assert MARKER <= out;
        MarkerAtFront(s, i, hi, vs);
      }
    }
  }

  // ---- raw marker text stays put -------------------------------------------

  lemma MarkerTextNext(s: Text, i: nat, hi: nat, q: nat)
    requires i < hi <= |s| && q < |MARKER| && MarkerText(s, i, hi, q)
    ensures MarkerText(s, i + 1, hi, q + 1)
  {
    hide MARKER;
    var n := Min(hi - i, |MARKER| - q);
    assert s[i + 1..i + n] == s[i..i + n][1..] == MARKER[q..q + n][1..] == MARKER[q + 1..q + n];
  }

  lemma {:induction false} MarkerTextStays(s: Text, i: nat, hi: nat, q: nat, vs: seq<Text>)
    requires MarkerIndependent(vs)
    requires i <= hi <= |s| && q <= |MARKER| && MarkerText(s, i, hi, q)
    ensures var n := Min(hi - i, |MARKER| - q);
            Scan(s, i, hi, vs) == s[i..i + n] + Scan(s, i + n, hi, vs)
    decreases |MARKER| - q
  {
    hide MARKER, MatchLen, Scan;
    var n := Min(hi - i, |MARKER| - q);
    if n > 0 {
      NoMatchInMarker(s, i, hi, q, vs);
      ScanUnfolds(s, i, hi, vs);
      MarkerTextNext(s, i, hi, q);
      MarkerTextStays(s, i + 1, hi, q + 1, vs);
      assert s[i..i + n] == [s[i]] + s[i + 1..i + n];
      Assoc([s[i]], s[i + 1..i + n], Scan(s, i + n, hi, vs));
    }
  }

  // A match cannot end inside raw marker text, so the scan reaches its first byte.
  lemma {:induction false} RawMarkerBoundary(s: Text, i: nat, hi: nat, r: nat, vs: seq<Text>)
    requires MarkerIndependent(vs) && i <= r <= hi <= |s| && Within(MARKER, s, r, hi)
    ensures Boundary(s, i, hi, r, vs)
    decreases r - i
  {
    hide MARKER;
    MarkerShape();
    if i < r {
      var k := Step(s, i, hi, vs);
      if i + k <= r {
        RawMarkerBoundary(s, i + k, hi, r, vs);
      } else {
        MatchLenMeaning(s, i, hi, vs);
        CoversMarker(s, i, k, r);
      }
    }
  }

  // A text that ends inside raw marker text, or behind it, meets the marker.
  lemma CoversMarker(s: Text, i: nat, k: nat, r: nat)
    requires i < r < i + k <= |s| && OccursAt(MARKER, s, r)
    ensures Straddles(s[i..i + k])
  {
    hide MARKER, Straddles;
    var v, q := s[i..i + k], r - i;
    var n := Min(|v| - q, |MARKER|);
    SliceOfSlice(s, i, i + k, q, q + n);
    SliceOfSlice(s, r, r + |MARKER|, 0, n);
    TailMeetsMarker(v, q);
  }

  // A match, or raw marker text, at a boundary puts a marker into the output.
  lemma MarkerPlaced(s: Text, hi: nat, r: nat, vs: seq<Text>)
    requires MarkerIndependent(vs)
    requires r <= hi <= |s| && Boundary(s, 0, hi, r, vs) && MarkerSource(s, r, hi, vs)
    ensures OccursAt(MARKER, Scan(s, 0, hi, vs), |Scan(s, 0, r, vs)|)
  {
    hide MARKER;
    MarkerShape();
    SplitAtBoundary(s, 0, hi, r, vs);
    if MatchLen(s, r, hi, vs) == 0 {
      assert MARKER[0..|MARKER|] == MARKER;
      MarkerTextStays(s, r, hi, 0, vs);
    }
    assert MARKER <= Scan(s, r, hi, vs);
  }

  // ---- the stable part -----------------------------------------------------

  // The first boundary from which a longest variant could overrun `limit`.
  lemma {:induction false} StableBoundary(s: Text, i: nat, limit: nat, maxLen: nat, vs: seq<Text>) returns (k: nat)
    requires NoLonger(vs, maxLen) && i <= limit <= |s| && maxLen > 0
    ensures i <= k <= limit && (k == i || limit < k + maxLen) && (limit < i + maxLen ==> k == i)
    ensures limit < k + maxLen
    ensures Boundary(s, i, |s|, k, vs)
    ensures forall r | i <= r < k :: Boundary(s, i, |s|, r, vs) ==> r + maxLen <= limit
    decreases limit - i
  {
    hide MARKER;
    if limit < i + maxLen {
      k := i;
    } else {
      MatchLenMeaning(s, i, |s|, vs);
      k := StableBoundary(s, i + Step(s, i, |s|, vs), limit, maxLen, vs);
    }
  }

  lemma ContractedEnough(out: nat, matches: nat, read: nat, maxLen: nat)
    requires maxLen > 0 && read >= matches * maxLen && out * maxLen >= 17 * read
    ensures out >= 17 * matches
  {
    assert (out - 17 * matches) * maxLen == out * maxLen - 17 * (matches * maxLen) >= 0;
  }

  // `k` is a boundary below the limit whose output already passes the cap, and no variant
  // found before it can end behind the limit.
  ghost predicate Stable(s: Text, vs: seq<Text>, cap: nat, maxLen: nat, limit: nat, k: nat) {
    && k <= limit <= |s|
    && Boundary(s, 0, |s|, k, vs)
    && |Scan(s, 0, k, vs)| > cap
    && forall r | 0 <= r < k :: Boundary(s, 0, |s|, r, vs) ==> r + maxLen <= limit
  }

  lemma StablePart(s: Text, vs: seq<Text>, cap: nat, maxLen: nat) returns (k: nat)
    requires NoLonger(vs, maxLen) && cap <= USIZE_MAX
    requires CaptureLimit(cap, maxLen) < USIZE_MAX && CaptureLimit(cap, maxLen) < |s|
    ensures Stable(s, vs, cap, maxLen, CaptureLimit(cap, maxLen), k)
  {
    hide MARKER, Scan, MatchLen;
    MarkerShape();
    var limit := CaptureLimit(cap, maxLen);
    k := StableBoundary(s, 0, limit, Max(1, maxLen), vs);
    if maxLen > 17 {
      Ratio(s, 0, k, vs, maxLen);
      ContractedEnough(|Scan(s, 0, k, vs)|, DivCeil(cap + 1, 17), k, maxLen);
    } else {
      NeverShorter(s, 0, k, vs);
    }
  }

  // ---- the same markers near the cap ----------------------------------------

  // The stream itself prints the marker text across the end of the kept bytes, early
  // enough in the output for the byte limit to notice.
  predicate RawMarkerAtEdge(s: Text, vs: seq<Text>, cap: nat, limit: nat) {
    exists r | 0 <= r <= |s| ::
      OccursAt(MARKER, s, r) && limit < r + |MARKER| && |Scan(s, 0, r, vs)| < cap
  }

  lemma SourceKept(s: Text, vs: seq<Text>, limit: nat, maxLen: nat, r: nat)
    requires NoLonger(vs, maxLen) && r + maxLen <= limit <= |s| && MarkerSource(s, r, |s|, vs)
    requires MatchLen(s, r, |s|, vs) > 0 || r + |MARKER| <= limit
    ensures MarkerSource(s, r, limit, vs)
  {
    hide MARKER;
    MatchLenMeaning(s, r, |s|, vs);
    if MatchLen(s, r, |s|, vs) > 0 {
      MatchLenPrefix(s, r, limit, |s|, vs);
    }
  }

  lemma MarkerKept(s: Text, vs: seq<Text>, cap: nat, maxLen: nat, limit: nat, k: nat, j: nat)
    requires MarkerIndependent(vs) && NoLonger(vs, maxLen) && Stable(s, vs, cap, maxLen, limit, k)
    requires OccursAt(MARKER, Scan(s, 0, |s|, vs), j) && j < cap
    requires !RawMarkerAtEdge(s, vs, cap, limit)
    ensures OccursAt(MARKER, Scan(s, 0, limit, vs), j)
  {
    hide MARKER, Scan, MatchLen, Boundary;
    var r := MarkerInOutput(s, 0, |s|, vs, j);
    BeforeStable(s, |s|, cap, k, r, vs);
    SourceKept(s, vs, limit, maxLen, r);
    BoundaryOfPrefix(s, 0, limit, |s|, r, vs);
    MarkerPlaced(s, limit, r, vs);
  }

  lemma MarkerSeenEarly(s: Text, vs: seq<Text>, cap: nat, maxLen: nat, limit: nat, k: nat, j: nat)
    requires MarkerIndependent(vs) && Stable(s, vs, cap, maxLen, limit, k)
    requires OccursAt(MARKER, Scan(s, 0, limit, vs), j) && j < cap
    ensures OccursAt(MARKER, Scan(s, 0, |s|, vs), j)
  {
    hide MARKER, Scan, MatchLen, Boundary;
    var r := MarkerInOutput(s, 0, limit, vs, j);
    BoundaryOfPrefix(s, 0, limit, |s|, k, vs);
    BeforeStable(s, limit, cap, k, r, vs);
    BoundaryInWhole(s, limit, |s|, k, r, vs);
    SourceInLonger(s, r, limit, vs);
    MarkerPlaced(s, |s|, r, vs);
  }

  lemma SourceInLonger(s: Text, r: nat, n: nat, vs: seq<Text>)
    requires r <= n <= |s| && MarkerSource(s, r, n, vs)
    ensures MarkerSource(s, r, |s|, vs)
  {
    hide MARKER;
    MatchLenMeaning(s, r, n, vs);
    MatchLenMeaning(s, r, |s|, vs);
    var m := MatchLen(s, r, n, vs);
    if m > 0 {
      assert Within(s[r..r + m], s, r, |s|);
    }
  }

  // Raw marker text cut off by the limit leaves a fragment too short to be a marker.
  lemma EdgeFragment(s: Text, vs: seq<Text>, limit: nat, r: nat)
    requires MarkerIndependent(vs) && OccursAt(MARKER, s, r)
    requires r <= limit <= |s| && limit < r + |MARKER|
    ensures |Scan(s, 0, limit, vs)| == |Scan(s, 0, r, vs)| + limit - r
  {
    hide MARKER, Scan, Boundary;
    RawMarkerBoundary(s, 0, |s|, r, vs);
    BoundaryOfPrefix(s, 0, limit, |s|, r, vs);
    SplitAtBoundary(s, 0, limit, r, vs);
    SliceOfSlice(s, r, r + |MARKER|, 0, limit - r);
    MarkerTextStays(s, r, limit, 0, vs);
    ScanEnds(s, limit, vs);
  }

  lemma EdgeSplitsOnlyWhole(s: Text, vs: seq<Text>, cap: nat, maxLen: nat, limit: nat, k: nat, r: nat)
    requires MarkerIndependent(vs) && Stable(s, vs, cap, maxLen, limit, k)
    requires r <= limit && OccursAt(MARKER, s, r) && limit < r + |MARKER|
    requires |Scan(s, 0, r, vs)| < cap < |Scan(s, 0, r, vs)| + |MARKER|
    ensures Splits(Scan(s, 0, |s|, vs), cap) && !Splits(Scan(s, 0, limit, vs), cap)
  {
    hide MARKER, Scan, MatchLen, Boundary;
    var whole, kept := Scan(s, 0, |s|, vs), Scan(s, 0, limit, vs);
    var j := |Scan(s, 0, r, vs)|;
    RawMarkerBoundary(s, 0, |s|, r, vs);
    MarkerPlaced(s, |s|, r, vs);
    EdgeFragment(s, vs, limit, r);
    forall i | 0 <= i < cap && OccursAt(MARKER, kept, i)
      ensures i + |MARKER| <= cap
    {
      MarkerSeenEarly(s, vs, cap, maxLen, limit, k, i);
      MarkersDoNotOverlap(whole, i, j);
    }
  }

  // The exception needs variants shorter than the marker, and shows in the output.
  lemma EdgeIsReached(s: Text, vs: seq<Text>, cap: nat, maxLen: nat)
    requires MarkerIndependent(vs) && NoLonger(vs, maxLen) && cap <= USIZE_MAX
    requires CaptureLimit(cap, maxLen) < USIZE_MAX && CaptureLimit(cap, maxLen) < |s|
    ensures RawMarkerAtEdge(s, vs, cap, CaptureLimit(cap, maxLen)) ==>
              && maxLen < |MARKER|
              && Splits(Scan(s, 0, |s|, vs), cap)
              && !Splits(Scan(s, 0, CaptureLimit(cap, maxLen), vs), cap)
  {
    hide MARKER, Scan, MatchLen, Boundary;
    MarkerShape();
    var limit := CaptureLimit(cap, maxLen);
    if r :| 0 <= r <= |s| && OccursAt(MARKER, s, r) && limit < r + |MARKER| && |Scan(s, 0, r, vs)| < cap {
      var k := StablePart(s, vs, cap, maxLen);
      RawMarkerBoundary(s, 0, |s|, r, vs);
      BeforeStable(s, |s|, cap, k, r, vs);
      assert maxLen < |MARKER| && cap < limit;
      NeverShorter(s, 0, r, vs);
      EdgeSplitsOnlyWhole(s, vs, cap, maxLen, limit, k, r);
    }
  }

  // ---- bounded capture is invisible ----------------------------------------

  lemma SameCut(a: Text, b: Text, cap: nat, common: Text)
    requires common <= a && common <= b && cap < |common|
    requires Splits(a, cap) ==> Splits(b, cap)
    requires Splits(b, cap) ==>
               forall j | 0 <= j < cap && OccursAt(MARKER, b, j) :: OccursAt(MARKER, a, j)
    ensures Truncated(a, cap) == Truncated(b, cap)
  {
    hide MARKER;
    if Splits(b, cap) {
      var j :| 0 <= j < cap && OccursAt(MARKER, b, j) && cap < j + |MARKER|;
      PullBackIsBest(a, cap, j);
      PullBackIsBest(b, cap, j);
      BestCutIsUnique(a, cap, j, Cut(a, cap));
      BestCutIsUnique(b, cap, j, Cut(b, cap));
    }
    var c := Cut(a, cap);
    assert a[..c] == common[..c] == b[..c];
  }

  lemma SplitsShowInLength(a: Text, b: Text, cap: nat)
    requires cap < |a| && cap < |b| && Splits(a, cap) && !Splits(b, cap)
    ensures Truncated(a, cap) != Truncated(b, cap)
  {
    hide MARKER;
    BestCutIsUnique(b, cap, cap, Cut(b, cap));
    assert |Truncated(a, cap).0| != cap && |Truncated(b, cap).0| == cap;
  }

  lemma CommonOutput(s: Text, vs: seq<Text>, cap: nat, maxLen: nat, limit: nat, k: nat)
    requires Stable(s, vs, cap, maxLen, limit, k)
    ensures Scan(s, 0, k, vs) <= Scan(s, 0, |s|, vs)
    ensures Scan(s, 0, k, vs) <= Scan(s, 0, limit, vs)
  {
    hide MARKER, Scan, MatchLen, Boundary;
    SplitAtBoundary(s, 0, |s|, k, vs);
    BoundaryOfPrefix(s, 0, limit, |s|, k, vs);
    SplitAtBoundary(s, 0, limit, k, vs);
  }

  lemma SameWithoutEdge(s: Text, vs: seq<Text>, cap: nat, maxLen: nat, limit: nat, k: nat)
    requires MarkerIndependent(vs) && NoLonger(vs, maxLen) && Stable(s, vs, cap, maxLen, limit, k)
    requires !RawMarkerAtEdge(s, vs, cap, limit)
    ensures Truncated(Scan(s, 0, limit, vs), cap) == Truncated(Scan(s, 0, |s|, vs), cap)
  {
    hide MARKER, Scan, MatchLen, Boundary;
    var whole, kept := Scan(s, 0, |s|, vs), Scan(s, 0, limit, vs);
    CommonOutput(s, vs, cap, maxLen, limit, k);
    forall j | 0 <= j < cap && OccursAt(MARKER, whole, j)
      ensures OccursAt(MARKER, kept, j)
    {
      MarkerKept(s, vs, cap, maxLen, limit, k, j);
    }
    forall j | 0 <= j < cap && OccursAt(MARKER, kept, j)
      ensures OccursAt(MARKER, whole, j)
    {
      MarkerSeenEarly(s, vs, cap, maxLen, limit, k, j);
    }
    SameCut(kept, whole, cap, Scan(s, 0, k, vs));
  }

  // Scanning a prefix is scanning the text up to there.
  lemma {:induction false} ScanOfPrefix(s: Text, i: nat, n: nat, vs: seq<Text>)
    requires i <= n <= |s|
    ensures Scan(s[..n], i, n, vs) == Scan(s, i, n, vs)
    decreases n - i
  {
    hide MARKER;
    if i < n {
      MatchOfPrefix(s, i, n, vs);
      ScanOfPrefix(s, i + Step(s, i, n, vs), n, vs);
    }
  }

  lemma {:induction false} MatchOfPrefix(s: Text, i: nat, n: nat, vs: seq<Text>)
    requires i <= n <= |s|
    ensures MatchLen(s[..n], i, n, vs) == MatchLen(s, i, n, vs)
  {
    if vs != [] {
      OccursAtPrefix(vs[0], s, n, i);
      MatchOfPrefix(s, i, n, vs[1..]);
    }
  }

  // What the cap lets through does not depend on the bytes the reader dropped, unless the
  // child printed the marker itself across the limit.
  lemma CaptureInvisibleExactly(s: Text, vs: seq<Text>, cap: nat, maxLen: nat)
    requires MarkerIndependent(vs) && NoLonger(vs, maxLen) && cap <= USIZE_MAX
    requires |s| <= USIZE_MAX || CaptureLimit(cap, maxLen) < USIZE_MAX
    ensures var limit := CaptureLimit(cap, maxLen);
            Truncated(Redacted(Take(s, limit), vs), cap) == Truncated(Redacted(s, vs), cap)
            <==> !RawMarkerAtEdge(s, vs, cap, limit)
  {
    hide MARKER, Scan, MatchLen, Boundary;
    var limit := CaptureLimit(cap, maxLen);
    if |s| <= limit {
      assert Take(s, limit) == s;
    } else {
      var k := StablePart(s, vs, cap, maxLen);
      ScanOfPrefix(s, 0, limit, vs);
      if RawMarkerAtEdge(s, vs, cap, limit) {
        EdgeIsReached(s, vs, cap, maxLen);
        CommonOutput(s, vs, cap, maxLen, limit, k);
        SplitsShowInLength(Scan(s, 0, |s|, vs), Scan(s, 0, limit, vs), cap);
      } else {
        SameWithoutEdge(s, vs, cap, maxLen, limit, k);
      }
    }
  }

  // A longest variant of at least the marker's length rules the exception out.
  lemma CaptureInvisible(s: Text, vs: seq<Text>, cap: nat, maxLen: nat)
    requires MarkerIndependent(vs) && NoLonger(vs, maxLen) && cap <= USIZE_MAX
    requires |s| <= USIZE_MAX || CaptureLimit(cap, maxLen) < USIZE_MAX
    requires maxLen >= |MARKER| || !Occurs(MARKER, s)
    ensures var limit := CaptureLimit(cap, maxLen);
            Truncated(Redacted(Take(s, limit), vs), cap) == Truncated(Redacted(s, vs), cap)
  {
    hide MARKER, Scan, MatchLen, Boundary;
    var limit := CaptureLimit(cap, maxLen);
    CaptureInvisibleExactly(s, vs, cap, maxLen);
    if limit < |s| && limit < USIZE_MAX {
      EdgeIsReached(s, vs, cap, maxLen);
    }
  }
}
