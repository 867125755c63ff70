// The output pipeline: capture a bounded prefix of each stream, redact it, re-scan it and
// limit it, or suppress everything.
module Output {
  import opened Bytes
  import opened Redaction
  import opened Truncation
  import opened Capture
  import opened Encoders
  import opened Variants
  import opened Alignment
  import opened Endless
  import opened Overlap
  import opened Repeats

  const MAX_REDACTION_PASSES: nat := 4

  // Byte values of an ASCII literal.
  function Ascii(s: string): Text {
    seq(|s|, i requires 0 <= i < |s| => if s[i] < '\U{80}' then s[i] as int else 63)
  }

  const SUPPRESSION_LINE: Text :=
    Ascii("[kpexec] output suppressed: secret material detected in subprocess output")

  datatype Captured = Captured(stdout: Text, stderr: Text)

  datatype Limits = Limits(maxStdout: nat, maxStderr: nat)

  // Emitted bytes, before the lossy decode and the appended truncation notice.
  datatype Processed = Processed(
    stdout: Text,
    stderr: Text,
    stdoutTruncated: bool,
    stderrTruncated: bool,
    redactionFailed: bool)

  // ---- passes and scans as loops ------------------------------------------------

  lemma ScanStep(s: Text, i: nat, vs: seq<Text>, done: Text)
    requires i < |s|
    ensures var m := MatchLen(s, i, |s|, vs);
            done + Scan(s, i, |s|, vs)
            == (done + if m > 0 then MARKER else [s[i]]) + Scan(s, i + Step(s, i, |s|, vs), |s|, vs)
  {
    hide MARKER, MatchLen;
    var m := MatchLen(s, i, |s|, vs);
    Assoc(done, if m > 0 then MARKER else [s[i]], Scan(s, i + Step(s, i, |s|, vs), |s|, vs));
  }

  method ReplaceAllVariants(input: Text, variants: seq<Text>) returns (out: Text, replaced: bool)
    ensures out == Redacted(input, variants)
    ensures replaced <==> ContainsAny(input, variants)
  {
    hide MARKER, Scan;
    out, replaced := [], false;
    var i := 0;
    while i < |input|
      invariant 0 <= i <= |input|
      invariant out + Scan(input, i, |input|, variants) == Scan(input, 0, |input|, variants)
      invariant replaced ==> Dirty(input, 0, |input|, variants)
      invariant !replaced ==> forall q | 0 <= q < i :: MatchLen(input, q, |input|, variants) == 0
      decreases |input| - i
    {
      ghost var m := MatchLen(input, i, |input|, variants);
      ScanStep(input, i, variants, out);
      var matched := false;
      for k := 0 to |variants|
        invariant !matched && m == MatchLen(input, i, |input|, variants[k..])
      {
        var v := variants[k];
        assert variants[k..][1..] == variants[k + 1..];
        if v != [] && i + |v| <= |input| && input[i..i + |v|] == v {
          assert m == |v|;
          out := out + MARKER;
          i := i + |v|;
          matched, replaced := true, true;
          break;
        }
      }
      if !matched {
        out := out + [input[i]];
        i := i + 1;
      }
    }
    ScanEnds(input, |input|, variants);
    DirtyIffContains(input, variants);
  }

  method ContainsAnyVariant(input: Text, variants: seq<Text>) returns (found: bool)
    ensures found <==> ContainsAny(input, variants)
  {
    for k := 0 to |variants|
      invariant forall j | 0 <= j < k :: variants[j] != [] ==> !Occurs(variants[j], input)
    {
      var v := variants[k];
      if v != [] {
        var i := 0;
        while i + |v| <= |input|
          invariant 0 <= i
          invariant forall p | 0 <= p < i :: !OccursAt(v, input, p)
        {
          if input[i..i + |v|] == v {
            assert OccursAt(v, input, i);
            assert v in variants && Occurs(v, input);
            return true;
          }
          i := i + 1;
        }
      }
    }
    return false;
  }

  method RedactBounded(input: Text, variants: seq<Text>, bound: nat) returns (current: Text, clean: bool)
    ensures current == Passes(input, variants, bound)
    ensures clean <==> !ContainsAny(current, variants)
  {
    current := input;
    for n := 0 to bound
      invariant Passes(current, variants, bound - n) == Passes(input, variants, bound)
    {
      var next, replaced := ReplaceAllVariants(current, variants);
      if !replaced {
        PassesOfClean(current, variants, bound - n);
        CleanUnchanged(current, variants);
      }
      current := next;
      if !replaced {
        break;
      }
    }
    var found := ContainsAnyVariant(current, variants);
    clean := !found;
  }

  lemma {:induction false} PassesSplit(s: Text, vs: seq<Text>, a: nat, b: nat)
    ensures Passes(s, vs, a + b) == Passes(Passes(s, vs, a), vs, b)
    decreases a
  {
    if a > 0 {
      PassesSplit(Redacted(s, vs), vs, a - 1, b);
    }
  }

  // Not ending clean means that every allowed pass found something to replace.
  lemma NotCleanReplacedEveryTime(s: Text, vs: seq<Text>, bound: nat, n: nat)
    requires n <= bound && ContainsAny(Passes(s, vs, bound), vs)
    ensures ContainsAny(Passes(s, vs, n), vs)
  {
    PassesSplit(s, vs, n, bound - n);
    if !ContainsAny(Passes(s, vs, n), vs) {
      PassesOfClean(Passes(s, vs, n), vs, bound - n);
    }
  }

  // ---- the pipeline ---------------------------------------------------------------

  ghost function Pipeline(captured: Captured, limits: Limits, vs: seq<Text>, bound: nat): Processed {
    var out := Passes(captured.stdout, vs, bound);
    var err := Passes(captured.stderr, vs, bound);
    if ContainsAny(out, vs) || ContainsAny(err, vs) then
      Processed(SUPPRESSION_LINE, SUPPRESSION_LINE, false, false, true)
    else
      var (o, ot) := Truncated(out, limits.maxStdout);
      var (e, et) := Truncated(err, limits.maxStderr);
      Processed(o, e, ot, et, false)
  }

  method ProcessWithBound(captured: Captured, limits: Limits, raw: Text, bound: nat) returns (p: Processed)
    ensures p == Pipeline(captured, limits, VariantsOf(raw), bound)
  {
    var variants := SecretVariants(raw);
    var out, outClean := RedactBounded(captured.stdout, variants, bound);
    var err, errClean := RedactBounded(captured.stderr, variants, bound);
    if !outClean || !errClean {
      return Processed(SUPPRESSION_LINE, SUPPRESSION_LINE, false, false, true);
    }
    var stdout, stdoutTruncated := TruncateNoSplitMarker(out, limits.maxStdout);
    var stderr, stderrTruncated := TruncateNoSplitMarker(err, limits.maxStderr);
    p := Processed(stdout, stderr, stdoutTruncated, stderrTruncated, false);
  }

  // Each stream's passes and cap decide what is emitted under its name.
  lemma PipelineMeaning(captured: Captured, limits: Limits, vs: seq<Text>, bound: nat)
    ensures var p := Pipeline(captured, limits, vs, bound);
            var out, err := Passes(captured.stdout, vs, bound), Passes(captured.stderr, vs, bound);
            && (p.redactionFailed <==> ContainsAny(out, vs) || ContainsAny(err, vs))
            && (p.redactionFailed ==> p == Processed(SUPPRESSION_LINE, SUPPRESSION_LINE, false, false, true))
            && (!p.redactionFailed ==>
                  && p.stdout <= out && IsBestCut(out, limits.maxStdout, |p.stdout|)
                  && (p.stdoutTruncated <==> |out| > limits.maxStdout)
                  && p.stderr <= err && IsBestCut(err, limits.maxStderr, |p.stderr|)
                  && (p.stderrTruncated <==> |err| > limits.maxStderr))
  {
    hide IsBestCut;
  }

  // Streams within their caps that hold no form come out unchanged, each under its own name.
  lemma CleanStreamsUnchanged(captured: Captured, limits: Limits, vs: seq<Text>, bound: nat)
    requires !ContainsAny(captured.stdout, vs) && |captured.stdout| <= limits.maxStdout
    requires !ContainsAny(captured.stderr, vs) && |captured.stderr| <= limits.maxStderr
    ensures Pipeline(captured, limits, vs, bound)
            == Processed(captured.stdout, captured.stderr, false, false, false)
  {
    PassesOfClean(captured.stdout, vs, bound);
    PassesOfClean(captured.stderr, vs, bound);
    WholeIsBestCut(captured.stdout, limits.maxStdout);
    WholeIsBestCut(captured.stderr, limits.maxStderr);
  }

  lemma WholeIsBestCut(s: Text, max: nat)
    requires |s| <= max
    ensures Truncated(s, max) == (s, false)
  {
    EndSplitsNothing(s);
    BestCutIsUnique(s, max, |s|, Cut(s, max));
    assert s[..|s|] == s;
  }

  lemma PrefixOfClean(s: Text, n: nat, vs: seq<Text>)
    requires n <= |s| && !ContainsAny(s, vs)
    ensures !ContainsAny(s[..n], vs)
  {
    forall v | v in vs && v != [] ensures !Occurs(v, s[..n]) {
      if i :| 0 <= i <= |s[..n]| && OccursAt(v, s[..n], i) {
        OccursAtPrefix(v, s, n, i);
      }
    }
  }

  // What leaves the program contains no encoded form of the secret, or nothing of the
  // child's output at all.
  lemma NoFormIsEmitted(captured: Captured, limits: Limits, raw: Text, bound: nat)
    ensures var p := Pipeline(captured, limits, VariantsOf(raw), bound);
            if p.redactionFailed then
              p == Processed(SUPPRESSION_LINE, SUPPRESSION_LINE, false, false, true)
            else forall v | v in AllForms(raw) && v != [] :: !Occurs(v, p.stdout) && !Occurs(v, p.stderr)
  {
    var vs := VariantsOf(raw);
    var p := Pipeline(captured, limits, vs, bound);
    if !p.redactionFailed {
      VariantsMeaning(raw);
      PrefixOfClean(Passes(captured.stdout, vs, bound), |p.stdout|, vs);
      PrefixOfClean(Passes(captured.stderr, vs, bound), |p.stderr|, vs);
      assert forall v | v in AllForms(raw) && v != [] :: v in vs;
    }
  }

  // For a secret that does not reach across an edge of the marker, output is suppressed
  // exactly when a stream contains a form and the secret lies inside the marker.
  lemma SuppressedExactly(captured: Captured, limits: Limits, raw: Text, bound: nat)
    requires raw != [] && !Straddles(raw)
    requires bound > 0
    ensures var vs := VariantsOf(raw);
            Pipeline(captured, limits, vs, bound).redactionFailed <==>
            (ContainsAny(captured.stdout, vs) || ContainsAny(captured.stderr, vs)) && InsideMarker(raw)
  {
    hide MARKER, InsideMarker, Straddles, VariantsOf;
    var vs := VariantsOf(raw);
    if InsideMarker(raw) {
      SecretListed(raw);
      StaysClean(captured.stdout, vs, bound);
      StaysClean(captured.stderr, vs, bound);
      if ContainsAny(captured.stdout, vs) {
        InsideNeverClears(captured.stdout, vs, bound, raw);
      }
      if ContainsAny(captured.stderr, vs) {
        InsideNeverClears(captured.stderr, vs, bound, raw);
      }
    } else {
      IndependentExactly(raw);
      BoundIsIrrelevant(captured.stdout, vs, bound);
      BoundIsIrrelevant(captured.stderr, vs, bound);
    }
  }

  lemma StaysClean(s: Text, vs: seq<Text>, bound: nat)
    ensures !ContainsAny(s, vs) ==> !ContainsAny(Passes(s, vs, bound), vs)
  {
    if !ContainsAny(s, vs) {
      PassesOfClean(s, vs, bound);
    }
  }

  // With a single pass, some output is suppressed exactly when the secret overlaps the marker.
  lemma SinglePassSuppressesExactly(limits: Limits, raw: Text)
    requires raw != []
    ensures (exists captured: Captured :: Pipeline(captured, limits, VariantsOf(raw), 1).redactionFailed)
            <==> InsideMarker(raw) || Straddles(raw)
  {
    hide MARKER, InsideMarker, Straddles, VariantsOf, ContainsAny;
    var vs := VariantsOf(raw);
    if InsideMarker(raw) || Straddles(raw) {
      OnePassSufficesExactly(raw);
      var s: Text :| ContainsAny(Redacted(s, vs), vs);
      OnePass(s, vs);
      assert Pipeline(Captured(s, []), limits, vs, 1).redactionFailed;
    } else {
      forall captured: Captured ensures !Pipeline(captured, limits, vs, 1).redactionFailed {
        SuppressedExactly(captured, limits, raw, 1);
      }
    }
  }

  lemma OnePass(s: Text, vs: seq<Text>)
    ensures Passes(s, vs, 1) == Redacted(s, vs)
  {
    assert Passes(Redacted(s, vs), vs, 0) == Redacted(s, vs);
  }

  // A secret that ends with a beginning of the marker has output that is suppressed, however
  // many passes are allowed.
  lemma EndlessIsSuppressed(raw: Text, n: nat, limits: Limits, bound: nat)
    requires EndsLikeMarker(raw, n)
    ensures var out := Repeat(Front(raw, n), bound + 1) + MARKER[..n];
            Pipeline(Captured(out, []), limits, VariantsOf(raw), bound).redactionFailed
  {
    hide MARKER, VariantsOf, Repeat, Front;
    NeverClears(raw, n, bound);
  }

  // "abcdefg["
  const BRACKET_SECRET: Text := [97, 98, 99, 100, 101, 102, 103, 91]

  // The same with a backslash before the bracket, and without it: a front of that secret.
  const BRACKET_FRONT: Text := [97, 98, 99, 100, 101, 102, 103, 92]

  // A real case: the 41 bytes of five such fronts and "[" outlast the four passes in use.
  lemma BracketSecretIsSuppressed(limits: Limits)
    ensures Pipeline(Captured(Repeat(BRACKET_FRONT, 5) + [OPENING], []), limits,
                     VariantsOf(BRACKET_SECRET), MAX_REDACTION_PASSES).redactionFailed
  {
    hide VariantsOf, Pipeline, Repeat;
    assert MARKER[..1] == [OPENING] == BRACKET_SECRET[7..];
    BracketFront();
    EndlessIsSuppressed(BRACKET_SECRET, 1, limits, MAX_REDACTION_PASSES);
  }

  // So does a secret that begins with the marker's end, where repetitions of its own end hold
  // none of its forms.
  lemma BegunIsSuppressed(raw: Text, n: nat, limits: Limits, bound: nat)
    requires BeginsLikeMarkerEnd(raw, n)
    requires !ContainsAny(Repeat(raw[n..], bound), VariantsOf(raw))
    ensures var out := raw + Repeat(raw[n..], bound);
            Pipeline(Captured(out, []), limits, VariantsOf(raw), bound).redactionFailed
  {
    hide MARKER, VariantsOf, Repeat;
    HeadNeverClears(raw, n, bound);
  }

  // And one that wraps the marker in plain bytes.
  lemma WrappedIsSuppressed(a: Text, c: Text, limits: Limits, bound: nat)
    requires AllPlain(a) && AllPlain(c)
    ensures var raw := a + (MARKER + c);
            Pipeline(Captured(Wrapped(a, c, bound + 1), []), limits, VariantsOf(raw), bound).redactionFailed
  {
    hide MARKER, VariantsOf, Wrapped;
    WrappedNeverClears(a, c, bound);
  }

  // "abcdefg"
  const LETTERS: Text := BRACKET_SECRET[..7]

  // Real cases: "]abcdefg" with four times "abcdefg" behind it, and the marker wrapped in
  // "abcdefg" on both sides with five times "abcdefg" before and behind it.
  lemma EdgeSecretsAreSuppressed(limits: Limits)
    ensures var raw := [CLOSING] + LETTERS;
            Pipeline(Captured(raw + Repeat(LETTERS, MAX_REDACTION_PASSES), []), limits,
                     VariantsOf(raw), MAX_REDACTION_PASSES).redactionFailed
    ensures var raw := LETTERS + (MARKER + LETTERS);
            Pipeline(Captured(Wrapped(LETTERS, LETTERS, MAX_REDACTION_PASSES + 1), []), limits,
                     VariantsOf(raw), MAX_REDACTION_PASSES).redactionFailed
  {
    hide VariantsOf, Pipeline, Repeat, Wrapped, ContainsAny;
    assert AllPlain(LETTERS);
    WrappedIsSuppressed(LETTERS, LETTERS, limits, MAX_REDACTION_PASSES);
    var raw := [CLOSING] + LETTERS;
    assert raw[1..] == LETTERS && raw[..1] == [CLOSING] == MARKER[|MARKER| - 1..];
    RepeatPlain(LETTERS, MAX_REDACTION_PASSES);
    PlainHoldsNoForm(raw, 0, Repeat(LETTERS, MAX_REDACTION_PASSES));
    BegunIsSuppressed(raw, 1, limits, MAX_REDACTION_PASSES);
  }

  lemma BracketFront()
    ensures Front(BRACKET_SECRET, 1) == BRACKET_FRONT
  {
    hide Encode;
    var letters := BRACKET_SECRET[..7];
    assert forall b | b in letters :: Plain(b);
    PlainUnchanged(letters, Backslashed);
  }

  // ---- bounded capture --------------------------------------------------------------

  datatype ReadResult = Data(bytes: Text) | ReadError

  // What the reads deliver up to end of file or the first error.
  function StreamOf(results: seq<ReadResult>): Text {
    if results == [] || results[0].ReadError? || results[0].bytes == [] then []
    else results[0].bytes + StreamOf(results[1..])
  }

  function Reads(chunks: seq<Text>): seq<ReadResult> {
    seq(|chunks|, i requires 0 <= i < |chunks| => Data(chunks[i]))
  }

  function Concat(chunks: seq<Text>): Text {
    if chunks == [] then [] else chunks[0] + Concat(chunks[1..])
  }

  // All chunks in order, and nothing that comes after the end of file or an error.
  lemma {:induction false} StreamOfChunks(chunks: seq<Text>, rest: seq<ReadResult>)
    requires forall c | c in chunks :: c != []
    requires rest == [] || rest[0] == ReadError || rest[0] == Data([])
    ensures StreamOf(Reads(chunks) + rest) == Concat(chunks)
  {
    if chunks == [] {
      assert Reads(chunks) + rest == rest;
    } else {
      assert chunks[0] in chunks && forall c | c in chunks[1..] :: c in chunks;
      assert (Reads(chunks) + rest)[0] == Data(chunks[0]);
      assert (Reads(chunks) + rest)[1..] == Reads(chunks[1..]) + rest;
      StreamOfChunks(chunks[1..], rest);
    }
  }

  method SpawnReader(results: seq<ReadResult>, limit: nat) returns (retained: Text)
    ensures retained == Take(StreamOf(results), limit)
    ensures retained <= StreamOf(results) && |retained| == Min(limit, |StreamOf(results)|)
  {
    retained := [];
    ghost var seen := [];
    var i := 0;
    while i < |results| && results[i].Data?
      invariant 0 <= i <= |results|
      invariant seen + StreamOf(results[i..]) == StreamOf(results)
      invariant retained == Take(seen, limit)
    {
      var chunk := results[i].bytes;
      if chunk == [] {
        break;
      }
      assert results[i..][1..] == results[i + 1..];
      Assoc(seen, chunk, StreamOf(results[i + 1..]));
      var remaining := Max(0, limit - |retained|);
      retained := retained + chunk[..Min(|chunk|, remaining)];
      seen := seen + chunk;
      i := i + 1;
    }
  }

  method MaxSecretVariantLen(raw: Text) returns (n: nat)
    ensures n == MaxLen(VariantsOf(raw))
    ensures forall v | v in AllForms(raw) :: |v| <= n
    ensures n == 0 || exists v | v in AllForms(raw) :: |v| == n
  {
    hide AllForms, VariantsOf;
    var variants := SecretVariants(raw);
    VariantsMeaning(raw);
    MaxLenIsReached(variants);
    n := MaxLen(variants);
    forall v | v in AllForms(raw) ensures |v| <= n {
      assert v != [] ==> v in variants;
    }
  }

  ghost predicate Measurable(s: Text, cap: nat, maxLen: nat)
    requires cap <= USIZE_MAX
  {
    |s| <= USIZE_MAX || CaptureLimit(cap, maxLen) < USIZE_MAX
  }

  // Redacting the kept prefixes emits what redacting the whole streams would have, unless
  // the child itself printed the marker across the end of a kept prefix.
  lemma CaptureInvisibleInPipeline(out: Text, err: Text, limits: Limits, vs: seq<Text>, bound: nat)
    requires limits.maxStdout <= USIZE_MAX && limits.maxStderr <= USIZE_MAX
    requires Measurable(out, limits.maxStdout, MaxLen(vs)) && Measurable(err, limits.maxStderr, MaxLen(vs))
    requires MarkerIndependent(vs) && bound > 0
    ensures var outLimit := CaptureLimit(limits.maxStdout, MaxLen(vs));
            var errLimit := CaptureLimit(limits.maxStderr, MaxLen(vs));
            Pipeline(Captured(Take(out, outLimit), Take(err, errLimit)), limits, vs, bound)
            == Pipeline(Captured(out, err), limits, vs, bound)
            <==>
            && !RawMarkerAtEdge(out, vs, limits.maxStdout, outLimit)
            && !RawMarkerAtEdge(err, vs, limits.maxStderr, errLimit)
  {
    hide MARKER;
    var outKept := Take(out, CaptureLimit(limits.maxStdout, MaxLen(vs)));
    var errKept := Take(err, CaptureLimit(limits.maxStderr, MaxLen(vs)));
    BoundIsIrrelevant(out, vs, bound);
    BoundIsIrrelevant(err, vs, bound);
    BoundIsIrrelevant(outKept, vs, bound);
    BoundIsIrrelevant(errKept, vs, bound);
    CaptureInvisibleExactly(out, vs, limits.maxStdout, MaxLen(vs));
    CaptureInvisibleExactly(err, vs, limits.maxStderr, MaxLen(vs));
  }

  // The output side of one run: size the buffers from the secret, read both pipes, process.
  method CaptureAndProcess(outReads: seq<ReadResult>, errReads: seq<ReadResult>, limits: Limits, raw: Text)
    returns (p: Processed)
    requires limits.maxStdout <= USIZE_MAX && limits.maxStderr <= USIZE_MAX
    ensures var vs, out, err := VariantsOf(raw), StreamOf(outReads), StreamOf(errReads);
            && MarkerIndependent(vs)
            && Measurable(out, limits.maxStdout, MaxLen(vs))
            && Measurable(err, limits.maxStderr, MaxLen(vs))
            ==>
              (p == Pipeline(Captured(out, err), limits, vs, MAX_REDACTION_PASSES)
               <==>
               && !RawMarkerAtEdge(out, vs, limits.maxStdout, CaptureLimit(limits.maxStdout, MaxLen(vs)))
               && !RawMarkerAtEdge(err, vs, limits.maxStderr, CaptureLimit(limits.maxStderr, MaxLen(vs))))
    ensures !p.redactionFailed ==>
              forall v | v in AllForms(raw) && v != [] :: !Occurs(v, p.stdout) && !Occurs(v, p.stderr)
    ensures var vs := VariantsOf(raw);
            p == Pipeline(Captured(Take(StreamOf(outReads), CaptureLimit(limits.maxStdout, MaxLen(vs))),
                                   Take(StreamOf(errReads), CaptureLimit(limits.maxStderr, MaxLen(vs)))),
                          limits, vs, MAX_REDACTION_PASSES)
  {
    hide MARKER, Pipeline;
    var maxVariantLen := MaxSecretVariantLen(raw);
    var stdout := SpawnReader(outReads, CaptureLimit(limits.maxStdout, maxVariantLen));
    var stderr := SpawnReader(errReads, CaptureLimit(limits.maxStderr, maxVariantLen));
    p := ProcessWithBound(Captured(stdout, stderr), limits, raw, MAX_REDACTION_PASSES);
    NoFormIsEmitted(Captured(stdout, stderr), limits, raw, MAX_REDACTION_PASSES);
    ghost var vs, out, err := VariantsOf(raw), StreamOf(outReads), StreamOf(errReads);
    if && MarkerIndependent(vs)
       && Measurable(out, limits.maxStdout, MaxLen(vs))
       && Measurable(err, limits.maxStderr, MaxLen(vs)) {
      CaptureInvisibleInPipeline(out, err, limits, vs, MAX_REDACTION_PASSES);
    }
  }
}
