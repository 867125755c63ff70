// The list of texts redaction looks for: every encoded form of the secret, once.
module Variants {
  import opened Bytes
  import opened Redaction
  import opened Encoders

  function AllForms(raw: Text): seq<Text> {
    [Encode(Exact, raw), Encode(Json, raw), Encode(PercentUpper, raw), Encode(PercentLower, raw),
     Encode(SingleQuoted, raw), Encode(Backslashed, raw)]
  }

  function NonEmpty(vs: seq<Text>): seq<Text> {
    if vs == [] then []
    else if vs[0] == [] then NonEmpty(vs[1..])
    else [vs[0]] + NonEmpty(vs[1..])
  }

  // `seen`, then what `vs` adds to it, in first-seen order.
  function Dedup(seen: seq<Text>, vs: seq<Text>): seq<Text>
    decreases |vs|
  {
    if vs == [] then seen
    else Dedup(if vs[0] in seen then seen else seen + [vs[0]], vs[1..])
  }

  function VariantsOf(raw: Text): seq<Text> {
    Dedup([], NonEmpty(AllForms(raw)))
  }

  function MaxLen(vs: seq<Text>): (n: nat)
    ensures forall v | v in vs :: |v| <= n
  {
    if vs == [] then 0 else Max(|vs[0]|, MaxLen(vs[1..]))
  }

  lemma {:induction false} MaxLenIsReached(vs: seq<Text>)
    ensures MaxLen(vs) == 0 || exists v | v in vs :: |v| == MaxLen(vs)
  {
    if vs != [] {
      MaxLenIsReached(vs[1..]);
      assert vs[0] in vs && forall v | v in vs[1..] :: v in vs;
    }
  }

  // ---- what the list contains ---------------------------------------------------

  predicate Distinct(s: seq<Text>) {
    forall i, j | 0 <= i < j < |s| :: s[i] != s[j]
  }

  lemma {:induction false} DedupMeaning(seen: seq<Text>, vs: seq<Text>)
    requires Distinct(seen)
    ensures Distinct(Dedup(seen, vs))
    ensures forall v :: v in Dedup(seen, vs) <==> v in seen || v in vs
    decreases |vs|
  {
    if vs != [] {
      assert forall v :: v in vs <==> v == vs[0] || v in vs[1..];
      DedupMeaning(if vs[0] in seen then seen else seen + [vs[0]], vs[1..]);
    }
  }

  lemma {:induction false} NonEmptyMeaning(vs: seq<Text>)
    ensures forall v :: v in NonEmpty(vs) <==> v in vs && v != []
  {
    if vs != [] {
      assert forall v :: v in vs <==> v == vs[0] || v in vs[1..];
      NonEmptyMeaning(vs[1..]);
    }
  }

  // The list holds exactly the nonempty encoded forms, each of them once.
  lemma VariantsMeaning(raw: Text)
    ensures Distinct(VariantsOf(raw))
    ensures forall v :: v in VariantsOf(raw) <==> v in AllForms(raw) && v != []
    ensures forall v :: v in VariantsOf(raw) <==> v != [] && IsForm(v, raw)
  {
    hide Encode, AllForms;
    DedupMeaning([], NonEmpty(AllForms(raw)));
    NonEmptyMeaning(AllForms(raw));
    forall v: Text ensures v in AllForms(raw) <==> IsForm(v, raw) {
      if v in AllForms(raw) {
        OnlyForms(v, raw);
      }
      if form: Form :| v == Encode(form, raw) {
        EveryForm(form, raw);
      }
    }
  }

  predicate IsForm(v: Text, raw: Text) {
    exists form: Form :: v == Encode(form, raw)
  }

  lemma OnlyForms(v: Text, raw: Text)
    requires v in AllForms(raw)
    ensures IsForm(v, raw)
  {
    hide Encode;
    var i :| 0 <= i < 6 && v == AllForms(raw)[i];
  }

  lemma EveryForm(form: Form, raw: Text)
    ensures Encode(form, raw) in AllForms(raw)
  {
    hide Encode;
    var all := AllForms(raw);
    match form {
      case Exact => assert all[0] == Encode(form, raw);
      case Json => assert all[1] == Encode(form, raw);
      case PercentUpper => assert all[2] == Encode(form, raw);
      case PercentLower => assert all[3] == Encode(form, raw);
      case SingleQuoted => assert all[4] == Encode(form, raw);
      case Backslashed => assert all[5] == Encode(form, raw);
    }
  }

  lemma ThreeBytes(form: Form, a: byte, b: byte, c: byte)
    ensures Encode(form, [a, b, c]) == EncodeByte(form, a) + (EncodeByte(form, b) + EncodeByte(form, c))
  {
    hide EncodeByte;
    assert [a, b, c][1..] == [b, c] && [b, c][1..] == [c] && [c][1..] == [];
    assert Encode(form, []) == [];
    assert EncodeByte(form, c) + [] == EncodeByte(form, c);
    assert Encode(form, [c]) == EncodeByte(form, c);
    assert Encode(form, [b, c]) == EncodeByte(form, b) + Encode(form, [c]);
  }

  lemma {:induction false} DistinctStays(seen: seq<Text>, vs: seq<Text>)
    requires Distinct(seen + vs) && forall v | v in vs :: v != []
    ensures Dedup(seen, NonEmpty(vs)) == seen + vs
    decreases |vs|
  {
    if vs == [] {
      assert seen + vs == seen;
    } else {
      var both := seen + vs;
      assert vs[0] in vs && forall v | v in vs[1..] :: v in vs;
      forall i | 0 <= i < |seen| ensures seen[i] != vs[0] {
        assert both[i] == seen[i] && both[|seen|] == vs[0];
      }
      assert vs[0] !in seen && (seen + [vs[0]]) + vs[1..] == both;
      DistinctStays(seen + [vs[0]], vs[1..]);
      assert ([vs[0]] + NonEmpty(vs[1..]))[1..] == NonEmpty(vs[1..]);
    }
  }

  // A quotation mark, an apostrophe and a slash have six forms, looked for in this order.
  lemma SixForms()
    ensures VariantsOf([34, 39, 47])
            == [[34, 39, 47], [92, 34, 39, 47], [37, 50, 50, 37, 50, 55, 37, 50, 70],
                [37, 50, 50, 37, 50, 55, 37, 50, 102], [34, 39, 92, 39, 39, 47], [92, 34, 92, 39, 47]]
  {
    hide Encode, EncodeByte, Dedup, NonEmpty;
    var forms := AllForms([34, 39, 47]);
    PercentForms();
    OtherForms();
    assert forms[2][8] != forms[3][8];
    assert [] + forms == forms;
    DistinctStays([], forms);
  }

  lemma PercentForms()
    ensures Encode(PercentUpper, [34, 39, 47]) == [37, 50, 50, 37, 50, 55, 37, 50, 70]
    ensures Encode(PercentLower, [34, 39, 47]) == [37, 50, 50, 37, 50, 55, 37, 50, 102]
  {
    hide Encode;
    ThreeBytes(PercentUpper, 34, 39, 47);
    ThreeBytes(PercentLower, 34, 39, 47);
  }

  lemma OtherForms()
    ensures Encode(Exact, [34, 39, 47]) == [34, 39, 47]
    ensures Encode(Json, [34, 39, 47]) == [92, 34, 39, 47]
    ensures Encode(SingleQuoted, [34, 39, 47]) == [34, 39, 92, 39, 39, 47]
    ensures Encode(Backslashed, [34, 39, 47]) == [92, 34, 92, 39, 47]
  {
    hide Encode;
    ThreeBytes(Exact, 34, 39, 47);
    ThreeBytes(Json, 34, 39, 47);
    ThreeBytes(SingleQuoted, 34, 39, 47);
    ThreeBytes(Backslashed, 34, 39, 47);
  }

  // ---- dropping entries changes no match ------------------------------------------

  lemma {:induction false} MatchLenAppend(s: Text, i: nat, hi: nat, a: seq<Text>, b: seq<Text>)
    requires i <= hi <= |s|
    ensures MatchLen(s, i, hi, a + b)
            == if MatchLen(s, i, hi, a) > 0 then MatchLen(s, i, hi, a) else MatchLen(s, i, hi, b)
  {
    if a == [] {
      assert a + b == b;
    } else {
      assert (a + b)[1..] == a[1..] + b;
      MatchLenAppend(s, i, hi, a[1..], b);
    }
  }

  lemma {:induction false} DedupMatches(s: Text, i: nat, hi: nat, seen: seq<Text>, vs: seq<Text>)
    requires i <= hi <= |s|
    ensures MatchLen(s, i, hi, Dedup(seen, vs)) == MatchLen(s, i, hi, seen + vs)
    decreases |vs|
  {
    if vs == [] {
      assert seen + vs == seen;
    } else if vs[0] in seen {
      DedupMatches(s, i, hi, seen, vs[1..]);
      MatchLenAppend(s, i, hi, seen, vs);
      MatchLenAppend(s, i, hi, seen, vs[1..]);
      MatchLenMeaning(s, i, hi, seen);
    } else {
      DedupMatches(s, i, hi, seen + [vs[0]], vs[1..]);
      assert (seen + [vs[0]]) + vs[1..] == seen + vs;
    }
  }

  lemma {:induction false} NonEmptyMatches(s: Text, i: nat, hi: nat, vs: seq<Text>)
    requires i <= hi <= |s|
    ensures MatchLen(s, i, hi, NonEmpty(vs)) == MatchLen(s, i, hi, vs)
  {
    if vs != [] {
      NonEmptyMatches(s, i, hi, vs[1..]);
      MatchLenAppend(s, i, hi, [vs[0]], NonEmpty(vs[1..]));
    }
  }

  predicate SameMatches(s: Text, a: seq<Text>, b: seq<Text>) {
    forall i | 0 <= i <= |s| :: MatchLen(s, i, |s|, a) == MatchLen(s, i, |s|, b)
  }

  lemma {:induction false} SameScan(s: Text, i: nat, a: seq<Text>, b: seq<Text>)
    requires i <= |s| && SameMatches(s, a, b)
    ensures Scan(s, i, |s|, a) == Scan(s, i, |s|, b)
    decreases |s| - i
  {
    hide MARKER, MatchLen;
    if i < |s| {
      SameScan(s, i + Step(s, i, |s|, a), a, b);
    }
  }

  // Dropping duplicates and empty texts never changes the redacted bytes.
  lemma DedupInvisible(s: Text, vs: seq<Text>)
    ensures Redacted(s, Dedup([], vs)) == Redacted(s, vs)
    ensures Redacted(s, NonEmpty(vs)) == Redacted(s, vs)
  {
    forall i | 0 <= i <= |s|
      ensures MatchLen(s, i, |s|, Dedup([], vs)) == MatchLen(s, i, |s|, vs)
      ensures MatchLen(s, i, |s|, NonEmpty(vs)) == MatchLen(s, i, |s|, vs)
    {
      DedupMatches(s, i, |s|, [], vs);
      assert [] + vs == vs;
      NonEmptyMatches(s, i, |s|, vs);
    }
    SameScan(s, 0, Dedup([], vs), vs);
    SameScan(s, 0, NonEmpty(vs), vs);
  }

  // ---- the loops that build the list -----------------------------------------------

  method DedupBytes(variants: seq<Text>) returns (unique: seq<Text>)
    ensures unique == Dedup([], variants)
  {
    unique := [];
    for i := 0 to |variants|
      invariant Dedup(unique, variants[i..]) == Dedup([], variants)
    {
      assert variants[i..][1..] == variants[i + 1..];
      if !(variants[i] in unique) {
        unique := unique + [variants[i]];
      }
    }
  }

  method SecretVariants(raw: Text) returns (variants: seq<Text>)
    ensures variants == VariantsOf(raw)
  {
    var upper := PercentEncode(raw, true);
    var lower := PercentEncode(raw, false);
    var quoted := ShellSingleQuotedBody(raw);
    var escaped := ShellBackslashEscaped(raw);
    EncodeExact(raw);
    variants := DedupBytes(NonEmpty([raw, Encode(Json, raw), upper, lower, quoted, escaped]));
  }

  // ---- plain secrets ------------------------------------------------------------------

  // No encoder touches the byte.
  predicate Plain(b: byte) {
    IsAlphanumeric(b) || b == 45 || b == 95 || b == 46
  }

  lemma PlainByte(form: Form, b: byte)
    requires Plain(b)
    ensures EncodeByte(form, b) == [b]
  {
  }

  lemma {:induction false} PlainUnchanged(raw: Text, form: Form)
    requires forall b | b in raw :: Plain(b)
    ensures Encode(form, raw) == raw
  {
    if raw != [] {
      assert raw[0] in raw;
      PlainByte(form, raw[0]);
      PlainUnchanged(raw[1..], form);
    }
  }

  lemma FirstTwoDiffer(vs: seq<Text>)
    requires Distinct(vs) && |vs| > 1
    ensures vs[0] in vs && vs[1] in vs && vs[0] != vs[1]
  {
  }

  lemma AtMostOne(vs: seq<Text>, v: Text)
    requires Distinct(vs) && forall w | w in vs :: w == v
    ensures |vs| <= 1
  {
    if |vs| > 1 {
      FirstTwoDiffer(vs);
    }
  }

  lemma PlainHasOneVariant(raw: Text)
    requires raw != [] && forall b | b in raw :: Plain(b)
    ensures VariantsOf(raw) == [raw]
  {
    PlainUnchanged(raw, Exact);
    PlainUnchanged(raw, Json);
    PlainUnchanged(raw, PercentUpper);
    PlainUnchanged(raw, PercentLower);
    PlainUnchanged(raw, SingleQuoted);
    PlainUnchanged(raw, Backslashed);
    VariantsMeaning(raw);
    var all, vs := AllForms(raw), VariantsOf(raw);
    assert all == [raw, raw, raw, raw, raw, raw];
    assert raw == all[0] && raw in all;
    forall v | v in vs ensures v == raw {
      assert v in all;
    }
    AtMostOne(vs, raw);
    assert raw in vs;
  }

  // "REDACTED"
  const REDACTED_WORD: Text := [82, 69, 68, 65, 67, 84, 69, 68]

  // Only a text with a bracket can reach across an edge of the marker.
  lemma StraddleHasBracket(v: Text)
    requires Straddles(v)
    ensures 91 in v || 93 in v
  {
    if p :| 0 <= p <= |v| && OccursAt(MARKER, v, p) {
      assert v[p] == v[p..p + |MARKER|][0];
    } else if n :| 1 <= n <= |MARKER| && HeadIsMarkerTail(v, n) {
      assert v[n - 1] == v[..n][n - 1] == MARKER[|MARKER| - n..][n - 1] == MARKER[16];
    } else {
      var n :| 1 <= n <= |MARKER| && TailIsMarkerHead(v, n);
      assert v[|v| - n] == v[|v| - n..][0] == MARKER[..n][0];
    }
  }

  lemma PlainDoesNotStraddle(raw: Text)
    requires forall b | b in raw :: Plain(b)
    ensures !Straddles(raw)
  {
    if Straddles(raw) {
      StraddleHasBracket(raw);
    }
  }

  // The marker's brackets and colon leave room for one plain text of eight bytes or more.
  lemma PlainInsideMarker(raw: Text)
    requires |raw| >= 8 && forall b | b in raw :: Plain(b)
    ensures InsideMarker(raw) <==> raw == REDACTED_WORD
  {
    if p :| 0 <= p <= |MARKER| && OccursAt(raw, MARKER, p) {
      forall k | p <= k < p + |raw| ensures Plain(MARKER[k]) {
        assert raw[k - p] == MARKER[p..p + |raw|][k - p] == MARKER[k];
      }
      assert !Plain(MARKER[0]) && !Plain(MARKER[9]) && !Plain(MARKER[16]);
      assert p == 1 && |raw| == 8;
      assert raw == MARKER[1..9] == REDACTED_WORD;
    }
    assert OccursAt(REDACTED_WORD, MARKER, 1);
  }

  // Redacting a plain secret of the length authoring demands ends clean on every input,
  // at every positive bound, unless the secret is the word the marker itself contains.
  lemma PlainSecretExactly(raw: Text, s: Text, bound: nat)
    requires |raw| >= 8 && forall b | b in raw :: Plain(b)
    requires bound > 0
    ensures ContainsAny(Passes(s, VariantsOf(raw), bound), VariantsOf(raw)) <==>
            raw == REDACTED_WORD && Occurs(raw, s)
  {
    hide MARKER, Encode, REDACTED_WORD;
    PlainHasOneVariant(raw);
    PlainDoesNotStraddle(raw);
    PlainInsideMarker(raw);
    CleanExactly(s, VariantsOf(raw), bound);
  }
}
