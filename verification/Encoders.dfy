// The encoded forms of a secret, and the standard decoders that undo them.
// Every encoder works byte by byte, so each is given by the text of a single byte.
module Encoders {
  import opened Bytes
  import opened Results

  datatype Form = Exact | Json | PercentUpper | PercentLower | SingleQuoted | Backslashed

  const PERCENT: byte := 37
  const QUOTE: byte := 39
  const BACKSLASH: byte := 92
  const DOUBLE_QUOTE: byte := 34
  const NEWLINE: byte := 10

  // The bytes an unquoted shell word treats specially: " \t\n\"'\\$`!*?[]{}()<>|&;#~=%^".
  predicate IsSpecial(b: byte) {
    || b == 32 || b == 9 || b == 10 || b == 34 || b == 39 || b == 92 || b == 36 || b == 96 || b == 33
    || b == 42 || b == 63 || b == 91 || b == 93 || b == 123 || b == 125 || b == 40 || b == 41 || b == 60
    || b == 62 || b == 124 || b == 38 || b == 59 || b == 35 || b == 126 || b == 61 || b == 37 || b == 94
  }

  predicate IsAlphanumeric(b: byte) {
    48 <= b <= 57 || 65 <= b <= 90 || 97 <= b <= 122
  }

  // Section 2.3 of RFC 3986.
  predicate IsUnreserved(b: byte) {
    IsAlphanumeric(b) || b == 45 || b == 95 || b == 46 || b == 126
  }

  function HexDigit(d: nat, upper: bool): byte
    requires d < 16
  {
    if d < 10 then 48 + d else if upper then 55 + d else 87 + d
  }

  function PercentByte(b: byte, upper: bool): Text {
    if IsUnreserved(b) then [b] else [PERCENT, HexDigit(b / 16, upper), HexDigit(b % 16, upper)]
  }

  // The string escapes serde_json writes (section 7 of RFC 8259).
  function JsonByte(b: byte): Text {
    if b == DOUBLE_QUOTE || b == BACKSLASH then [BACKSLASH, b]
    else if b == 8 then [BACKSLASH, 98]
    else if b == 9 then [BACKSLASH, 116]
    else if b == 10 then [BACKSLASH, 110]
    else if b == 12 then [BACKSLASH, 102]
    else if b == 13 then [BACKSLASH, 114]
    else if b < 32 then [BACKSLASH, 117, 48, 48, HexDigit(b / 16, false), HexDigit(b % 16, false)]
    else [b]
  }

  function EncodeByte(form: Form, b: byte): Text {
    match form
    case Exact => [b]
    case Json => JsonByte(b)
    case PercentUpper => PercentByte(b, true)
    case PercentLower => PercentByte(b, false)
    case SingleQuoted => if b == QUOTE then [QUOTE, BACKSLASH, QUOTE, QUOTE] else [b]
    case Backslashed => if IsSpecial(b) then [BACKSLASH, b] else [b]
  }

  function Encode(form: Form, raw: Text): Text {
    if raw == [] then [] else EncodeByte(form, raw[0]) + Encode(form, raw[1..])
  }

  lemma {:induction false} EncodeAppend(form: Form, raw: Text, b: byte)
    ensures Encode(form, raw + [b]) == Encode(form, raw) + EncodeByte(form, b)
  {
    if raw == [] {
      assert Encode(form, [b]) == EncodeByte(form, b) + [];
      assert [] + [b] == [b];
    } else {
      assert (raw + [b])[1..] == raw[1..] + [b];
      EncodeAppend(form, raw[1..], b);
      Assoc(EncodeByte(form, raw[0]), Encode(form, raw[1..]), EncodeByte(form, b));
    }
  }

  lemma {:induction false} EncodeExact(raw: Text)
    ensures Encode(Exact, raw) == raw
  {
    if raw != [] {
      EncodeExact(raw[1..]);
    }
  }

  // ---- the loops that build them ---------------------------------------------

  method PercentEncode(raw: Text, upper: bool) returns (out: Text)
    ensures out == Encode(if upper then PercentUpper else PercentLower, raw)
  {
    ghost var form := if upper then PercentUpper else PercentLower;
    out := [];
    for i := 0 to |raw|
      invariant out == Encode(form, raw[..i])
    {
      var b := raw[i];
      assert raw[..i + 1] == raw[..i] + [b];
      EncodeAppend(form, raw[..i], b);
      if IsUnreserved(b) {
        out := out + [b];
      } else {
        out := out + [PERCENT];
        out := out + [HexDigit(b / 16, upper)];
        out := out + [HexDigit(b % 16, upper)];
      }
    }
    assert raw[..|raw|] == raw;
  }

  method ShellSingleQuotedBody(raw: Text) returns (out: Text)
    ensures out == Encode(SingleQuoted, raw)
  {
    out := [];
    for i := 0 to |raw|
      invariant out == Encode(SingleQuoted, raw[..i])
    {
      assert raw[..i + 1] == raw[..i] + [raw[i]];
      EncodeAppend(SingleQuoted, raw[..i], raw[i]);
      if raw[i] == QUOTE {
        out := out + [QUOTE, BACKSLASH, QUOTE, QUOTE];
      } else {
        out := out + [raw[i]];
      }
    }
    assert raw[..|raw|] == raw;
  }

  method ShellBackslashEscaped(raw: Text) returns (out: Text)
    ensures out == Encode(Backslashed, raw)
  {
    out := [];
    for i := 0 to |raw|
      invariant out == Encode(Backslashed, raw[..i])
    {
      assert raw[..i + 1] == raw[..i] + [raw[i]];
      EncodeAppend(Backslashed, raw[..i], raw[i]);
      if IsSpecial(raw[i]) {
        out := out + [BACKSLASH];
      }
      out := out + [raw[i]];
    }
    assert raw[..|raw|] == raw;
  }

  // ---- decoders ---------------------------------------------------------------

  function Push(b: byte, rest: Option<Text>): Option<Text> {
    match rest
    case None => None
    case Some(t) => Some([b] + t)
  }

  function HexValue(b: byte): Option<nat> {
    if 48 <= b <= 57 then Some(b - 48)
    else if 65 <= b <= 70 then Some(b - 55)
    else if 97 <= b <= 102 then Some(b - 87)
    else None
  }

  // Section 2.1 of RFC 3986.
  function PercentDecode(t: Text): Option<Text> {
    if t == [] then Some([])
    else if t[0] != PERCENT then Push(t[0], PercentDecode(t[1..]))
    else if |t| < 3 || HexValue(t[1]).None? || HexValue(t[2]).None? then None
    else Push(HexByte(t[1], t[2]), PercentDecode(t[3..]))
  }

  function HexByte(high: byte, low: byte): byte
    requires HexValue(high).Some? && HexValue(low).Some?
  {
    HexValue(high).value * 16 + HexValue(low).value
  }

  // What a shell may read as more than itself where it is not quoted (section 2.2 of
  // POSIX.1-2017 XCU).
  predicate ShellReads(b: byte) {
    || b == 124 || b == 38 || b == 59 || b == 60 || b == 62 || b == 40 || b == 41 || b == 36 || b == 96
    || b == 92 || b == 34 || b == 39 || b == 32 || b == 9 || b == 10
    || b == 42 || b == 63 || b == 91 || b == 35 || b == 126 || b == 61 || b == 37
  }

  // Quote removal over one shell word (sections 2.2.1 and 2.2.2 of POSIX.1-2017 XCU): a
  // bare special byte would end the word or start an expansion, so it is no result at all.
  function ShellUnquote(t: Text, quoted: bool): Option<Text> {
    if t == [] then (if quoted then None else Some([]))
    else if t[0] == QUOTE then ShellUnquote(t[1..], !quoted)
    else if quoted then Push(t[0], ShellUnquote(t[1..], true))
    else if t[0] == BACKSLASH then
      (if |t| == 1 then None
       else if t[1] == NEWLINE then ShellUnquote(t[2..], false)
       else Push(t[1], ShellUnquote(t[2..], false)))
    else if ShellReads(t[0]) then None
    else Push(t[0], ShellUnquote(t[1..], false))
  }

  // Section 7 of RFC 8259, for code points below 128.
  function JsonUnescape(t: Text): Option<Text> {
    if t == [] then Some([])
    else if t[0] == DOUBLE_QUOTE || t[0] < 32 then None
    else if t[0] != BACKSLASH then Push(t[0], JsonUnescape(t[1..]))
    else if |t| == 1 then None
    else if t[1] == 117 then
      (if |t| < 6 || t[2] != 48 || t[3] != 48 || HexValue(t[4]).None? || HexValue(t[5]).None?
       then None
       else Push(HexByte(t[4], t[5]), JsonUnescape(t[6..])))
    else match JsonShort(t[1])
         case None => None
         case Some(b) => Push(b, JsonUnescape(t[2..]))
  }

  function JsonShort(b: byte): Option<byte> {
    if b == DOUBLE_QUOTE || b == BACKSLASH || b == 47 then Some(b)
    else if b == 98 then Some(8)
    else if b == 116 then Some(9)
    else if b == 110 then Some(10)
    else if b == 102 then Some(12)
    else if b == 114 then Some(13)
    else None
  }

  // ---- the tables, against the texts that define them -------------------------------------

  lemma ShellTable(b: byte)
    ensures ShellReads(b) <==> b as char in "|&;<>()$`\\\"' \t\n" || b as char in "*?[#~=%"
  {
  }

  // The bytes escaped are those a shell reads, and five more.
  lemma SpecialTable(b: byte)
    ensures IsSpecial(b) <==> ShellReads(b) || b as char in "!]{}^"
    ensures IsSpecial(b) <==> b as char in " \t\n\"'\\$`!*?[]{}()<>|&;#~=%^"
    ensures EncodeByte(Backslashed, b) == [BACKSLASH, b] <==> IsSpecial(b)
    ensures EncodeByte(Backslashed, b) == [b] <==> !IsSpecial(b)
  {
  }

  // Only the quote leaves its quotes, and comes back.
  lemma QuoteTable(b: byte)
    ensures EncodeByte(SingleQuoted, b) == [b] <==> b as char != '\''
    ensures var e := EncodeByte(SingleQuoted, QUOTE);
            |e| == 4 && forall i | 0 <= i < 4 :: e[i] as char == "'\\''"[i]
  {
  }

  // Unreserved characters stand for themselves, every other byte for its two hex digits.
  lemma PercentTable(b: byte, upper: bool)
    ensures PercentByte(b, upper) == [b] <==>
            || b as char in "ABCDEFGHIJKLMNOPQRSTUVWXYZ" || b as char in "abcdefghijklmnopqrstuvwxyz"
            || b as char in "0123456789-._~"
    ensures var e := PercentByte(b, upper);
            e != [b] ==>
              && |e| == 3 && e[0] as char == '%'
              && var digits := if upper then "0123456789ABCDEF" else "0123456789abcdef";
                 e[1] as char == digits[b / 16] && e[2] as char == digits[b % 16]
  {
    CapitalTable(b);
    LetterTable(b);
    DigitTable(b / 16, upper);
    DigitTable(b % 16, upper);
  }

  lemma CapitalTable(b: byte)
    ensures 65 <= b <= 90 <==> b as char in "ABCDEFGHIJKLMNOPQRSTUVWXYZ"
  {
    var letters := "ABCDEFGHIJKLMNOPQRSTUVWXYZ";
    assert forall i | 0 <= i < 26 :: letters[i] == (65 + i) as char;
    if 65 <= b <= 90 {
      assert letters[b - 65] == b as char;
    }
  }

  lemma LetterTable(b: byte)
    ensures 97 <= b <= 122 <==> b as char in "abcdefghijklmnopqrstuvwxyz"
  {
    var letters := "abcdefghijklmnopqrstuvwxyz";
    assert forall i | 0 <= i < 26 :: letters[i] == (97 + i) as char;
    if 97 <= b <= 122 {
      assert letters[b - 97] == b as char;
    }
  }

  lemma DigitTable(d: nat, upper: bool)
    requires d < 16
    ensures HexDigit(d, upper) as char == (if upper then "0123456789ABCDEF" else "0123456789abcdef")[d]
  {
  }

  // Two bytes for the characters with a short escape, six for the other control characters.
  lemma JsonTable(b: byte)
    ensures |JsonByte(b)| == 2 <==> b as char in "\"\\\U{08}\t\n\U{0C}\r"
    ensures |JsonByte(b)| == 6 <==> b < 32 && b as char !in "\U{08}\t\n\U{0C}\r"
    ensures |JsonByte(b)| != 2 && |JsonByte(b)| != 6 ==> JsonByte(b) == [b]
    ensures |JsonByte(b)| == 6 ==>
              forall i | 0 <= i < 4 :: JsonByte(b)[i] as char == "\\u00"[i]
    ensures |JsonByte(b)| == 6 ==>
              && JsonByte(b)[4] as char == "0123456789abcdef"[b / 16]
              && JsonByte(b)[5] as char == "0123456789abcdef"[b % 16]
  {
    if |JsonByte(b)| == 6 {
      DigitTable(b / 16, false);
      DigitTable(b % 16, false);
    }
  }

  // The short escapes, character by character.
  lemma ShortTable(b: byte)
    requires |JsonByte(b)| == 2
    ensures JsonByte(b)[0] as char == '\\'
    ensures JsonByte(b)[1] as char ==
            match b as char
            case '\U{08}' => 'b'
            case '\t' => 't'
            case '\n' => 'n'
            case '\U{0C}' => 'f'
            case '\r' => 'r'
            case other => other
  {
  }

  // ---- round trips --------------------------------------------------------------

  lemma HexDigitsDecode(b: byte, upper: bool)
    ensures HexValue(HexDigit(b / 16, upper)).Some? && HexValue(HexDigit(b % 16, upper)).Some?
    ensures HexByte(HexDigit(b / 16, upper), HexDigit(b % 16, upper)) == b
  {
  }

  lemma {:induction false} PercentRoundTrip(raw: Text, upper: bool)
    ensures PercentDecode(Encode(if upper then PercentUpper else PercentLower, raw)) == Some(raw)
  {
    var form := if upper then PercentUpper else PercentLower;
    if raw != [] {
      var rest := Encode(form, raw[1..]);
      var t := Encode(form, raw);
      PercentRoundTrip(raw[1..], upper);
      HexDigitsDecode(raw[0], upper);
      assert t[|PercentByte(raw[0], upper)|..] == rest;
      assert raw == [raw[0]] + raw[1..];
    }
  }

  // A quote is read by closing the quotes, reading it escaped, and opening them again.
  lemma QuoteReadsBack(rest: Text)
    ensures ShellUnquote([QUOTE] + ([BACKSLASH, QUOTE] + ([QUOTE] + rest)), true)
            == Push(QUOTE, ShellUnquote(rest, true))
  {
    var reopened := [QUOTE] + rest;
    var escaped := [BACKSLASH, QUOTE] + reopened;
    assert ([QUOTE] + escaped)[1..] == escaped && escaped[2..] == reopened && reopened[1..] == rest;
    assert ShellUnquote(reopened, false) == ShellUnquote(rest, true);
    assert ShellUnquote(escaped, false) == Push(QUOTE, ShellUnquote(reopened, false));
  }

  // A body in its single quotes reads back as the secret, closing quote included.
  lemma {:induction false} SingleQuotedRoundTrip(raw: Text)
    ensures ShellUnquote(Encode(SingleQuoted, raw) + [QUOTE], true) == Some(raw)
  {
    if raw == [] {
      assert ShellUnquote([QUOTE][1..], false) == Some([]);
    } else {
      var rest := Encode(SingleQuoted, raw[1..]) + [QUOTE];
      var t := Encode(SingleQuoted, raw) + [QUOTE];
      SingleQuotedRoundTrip(raw[1..]);
      Assoc(EncodeByte(SingleQuoted, raw[0]), Encode(SingleQuoted, raw[1..]), [QUOTE]);
      if raw[0] == QUOTE {
        assert t == [QUOTE] + ([BACKSLASH, QUOTE] + ([QUOTE] + rest));
        QuoteReadsBack(rest);
      } else {
        assert t[1..] == rest;
      }
      assert raw == [raw[0]] + raw[1..];
    }
  }

  lemma SingleQuotedWord(raw: Text)
    ensures ShellUnquote([QUOTE] + (Encode(SingleQuoted, raw) + [QUOTE]), false) == Some(raw)
  {
    var body := Encode(SingleQuoted, raw) + [QUOTE];
    assert ([QUOTE] + body)[1..] == body;
    SingleQuotedRoundTrip(raw);
  }

  function WithoutNewlines(t: Text): Text {
    if t == [] then []
    else if t[0] == NEWLINE then WithoutNewlines(t[1..])
    else [t[0]] + WithoutNewlines(t[1..])
  }

  // A shell drops every backslash-newline pair, so exactly the newlines are lost.
  lemma {:induction false} BackslashedReadsBack(raw: Text)
    ensures ShellUnquote(Encode(Backslashed, raw), false) == Some(WithoutNewlines(raw))
  {
    if raw != [] {
      var rest := Encode(Backslashed, raw[1..]);
      var t := Encode(Backslashed, raw);
      BackslashedReadsBack(raw[1..]);
      if IsSpecial(raw[0]) {
        assert t[2..] == rest;
      } else {
        assert t[1..] == rest;
      }
    }
  }

  lemma {:induction false} WithoutNewlinesShorter(t: Text)
    ensures |WithoutNewlines(t)| <= |t|
    ensures WithoutNewlines(t) == t <==> NEWLINE !in t
  {
    if t != [] {
      WithoutNewlinesShorter(t[1..]);
      assert t == [t[0]] + t[1..];
    }
  }

  lemma BackslashedRoundTripExactly(raw: Text)
    ensures ShellUnquote(Encode(Backslashed, raw), false) == Some(raw) <==> NEWLINE !in raw
  {
    BackslashedReadsBack(raw);
    WithoutNewlinesShorter(raw);
  }

  lemma JsonByteDecodes(b: byte, rest: Text)
    ensures JsonUnescape(JsonByte(b) + rest) == Push(b, JsonUnescape(rest))
  {
    var t := JsonByte(b) + rest;
    HexDigitsDecode(b, false);
    assert t[|JsonByte(b)|..] == rest;
  }

  lemma {:induction false} JsonRoundTrip(raw: Text)
    ensures JsonUnescape(Encode(Json, raw)) == Some(raw)
  {
    hide JsonByte;
    if raw != [] {
      JsonRoundTrip(raw[1..]);
      JsonByteDecodes(raw[0], Encode(Json, raw[1..]));
      assert raw == [raw[0]] + raw[1..];
    }
  }

  // ---- injectivity -----------------------------------------------------------------

  // Dropping each escaping backslash undoes the backslash form even across newlines.
  function DropEscapes(t: Text): Text {
    if t == [] then []
    else if t[0] == BACKSLASH && |t| > 1 then [t[1]] + DropEscapes(t[2..])
    else [t[0]] + DropEscapes(t[1..])
  }

  lemma {:induction false} DropEscapesUndoes(raw: Text)
    ensures DropEscapes(Encode(Backslashed, raw)) == raw
  {
    if raw != [] {
      var t := Encode(Backslashed, raw);
      DropEscapesUndoes(raw[1..]);
      if IsSpecial(raw[0]) {
        assert t[2..] == Encode(Backslashed, raw[1..]);
      } else {
        assert t[1..] == Encode(Backslashed, raw[1..]);
      }
      assert raw == [raw[0]] + raw[1..];
    }
  }

  // No form maps two secrets to the same text.
  lemma EncodeInjective(form: Form, a: Text, b: Text)
    ensures Encode(form, a) == Encode(form, b) <==> a == b
  {
    match form
    case Exact => EncodeExact(a); EncodeExact(b);
    case Json => JsonRoundTrip(a); JsonRoundTrip(b);
    case PercentUpper => PercentRoundTrip(a, true); PercentRoundTrip(b, true);
    case PercentLower => PercentRoundTrip(a, false); PercentRoundTrip(b, false);
    case SingleQuoted => SingleQuotedRoundTrip(a); SingleQuotedRoundTrip(b);
    case Backslashed => DropEscapesUndoes(a); DropEscapesUndoes(b);
  }
}
