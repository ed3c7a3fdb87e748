/** JSON string literals: escaping when serializing, and quote skipping and unescaping when parsing. */
module StringLiteral {
  import opened Bytes
  import opened Utf8
  import opened Wrappers

  const QUOTE: byte := 0x22
  const BACKSLASH: byte := 0x5C
  const SLASH: byte := 0x2F

  // ----- Serializing -----

  function LowHexDigit(d: byte): byte {
    if d < 10 then 0x30 + d else 0x61 + (d - 10)
  }

  /** What `json_serialize_string` appends for one byte. */
  function EscapeByte(c: byte, escapeSlashes: bool): (r: bytes)
    ensures 1 <= |r| <= 6
  {
    if c == QUOTE then [BACKSLASH, QUOTE]
    else if c == BACKSLASH then [BACKSLASH, BACKSLASH]
    else if c == 0x08 then [BACKSLASH, 0x62]
    else if c == 0x0C then [BACKSLASH, 0x66]
    else if c == 0x0A then [BACKSLASH, 0x6E]
    else if c == 0x0D then [BACKSLASH, 0x72]
    else if c == 0x09 then [BACKSLASH, 0x74]
    else if c < 0x20 then [BACKSLASH, 0x75, 0x30, 0x30, LowHexDigit(c >> 4), LowHexDigit(c & 0x0F)]
    else if c == SLASH && escapeSlashes then [BACKSLASH, SLASH]
    else [c]
  }

  function Escape(s: bytes, escapeSlashes: bool): bytes {
    if s == [] then [] else EscapeByte(s[0], escapeSlashes) + Escape(s[1..], escapeSlashes)
  }

  function Quoted(s: bytes, escapeSlashes: bool): bytes {
    [QUOTE] + (Escape(s, escapeSlashes) + [QUOTE])
  }

  // ----- Parsing -----

  /** The closing quote of the literal whose body contains position `p`, if the literal is closed. */
  function ClosingQuote(t: bytes, p: nat): (q: Option<nat>)
    ensures q.Some? ==> p <= q.value < |t| && t[q.value] == QUOTE
    decreases |t| - p
  {
    if At(t, p) == QUOTE then Some(p)
    else if At(t, p) == 0 then None
    else if At(t, p) == BACKSLASH then
      if At(t, p + 1) == 0 then None else ClosingQuote(t, p + 2)
    else ClosingQuote(t, p + 1)
  }

  /** `skip_quotes`: from the opening quote to just behind the closing one. */
  method SkipQuotes(t: bytes, p: nat) returns (next: Option<nat>)
    requires p <= |t|
    ensures next == if At(t, p) != QUOTE then None
                    else match ClosingQuote(t, p + 1) case Some(q) => Some(q + 1) case None => None
  {
    if At(t, p) != QUOTE {
      return None;
    }
    var cur := p + 1;
    while At(t, cur) != QUOTE
      invariant p < cur <= |t|
      invariant ClosingQuote(t, p + 1) == ClosingQuote(t, cur)
      decreases |t| - cur
    {
      if At(t, cur) == 0 {
        return None;
      } else if At(t, cur) == BACKSLASH {
        cur := cur + 1;
        if At(t, cur) == 0 {
          return None;
        }
      }
      cur := cur + 1;
    }
    return Some(cur + 1);
  }

  const NOT_HEX: bv32 := 0xFFFF_FFFF

  /** `hex_char_to_int`, with -1 for a byte that is no digit. */
  function HexCharToInt(c: byte): bv32 {
    if 0x30 <= c <= 0x39 then (c - 0x30) as bv32
    else if 0x61 <= c <= 0x66 then (c - 0x61) as bv32 + 10
    else if 0x41 <= c <= 0x46 then (c - 0x41) as bv32 + 10
    else NOT_HEX
  }

  /** `parse_utf16_hex`: the value of the four digits at `p`. */
  function Utf16Hex(t: bytes, p: nat): (r: Option<bv32>)
    ensures r.Some? ==> p + 4 <= |t| && r.value <= 0xFFFF
  {
    var x1, x2, x3, x4 := HexCharToInt(At(t, p)), HexCharToInt(At(t, p + 1)), HexCharToInt(At(t, p + 2)),
        HexCharToInt(At(t, p + 3));
    if x1 == NOT_HEX || x2 == NOT_HEX || x3 == NOT_HEX || x4 == NOT_HEX then None
    else Some((x1 << 12) | (x2 << 8) | (x3 << 4) | x4)
  }

  /** The code point that the \u escape at `p` denotes (section 7 of RFC 8259), and the position behind
      the escape.  `p` is the position of the letter u. */
  function Utf16Escape(t: bytes, p: nat): (r: Option<(bv32, nat)>)
    ensures r.Some? ==> IsScalar(r.value.0) && (r.value.1 == p + 5 || r.value.1 == p + 11) && r.value.1 <= |t|
  {
    match Utf16Hex(t, p + 1)
    case None => None
    case Some(unit) =>
      if !(0xD800 <= unit <= 0xDFFF) then Some((unit, p + 5))
      else if unit > 0xDBFF || At(t, p + 5) != BACKSLASH || At(t, p + 6) != 0x75 then None
      else match Utf16Hex(t, p + 7)
        case None => None
        case Some(trail) =>
          if !(0xDC00 <= trail <= 0xDFFF) then None
          else Some((SurrogatePair(unit, trail), p + 11))
  }

  /** The code point of a lead and a trail surrogate. */
  function SurrogatePair(lead: bv32, trail: bv32): (cp: bv32)
    requires 0xD800 <= lead <= 0xDBFF && 0xDC00 <= trail <= 0xDFFF
    ensures 0x10000 <= cp <= 0x10FFFF
  {
    0x10000 + (lead - 0xD800) * 0x400 + (trail - 0xDC00)
  }

  /** One step of `process_string`: the bytes it writes and the position behind what it read. */
  function Token(t: bytes, p: nat): (r: Option<(bytes, nat)>)
    requires At(t, p) != 0
    ensures r.Some? ==> p < r.value.1 <= |t| && 1 <= |r.value.0| <= 4
  {
    var c := At(t, p);
    if c == BACKSLASH then
      var e := At(t, p + 1);
      if e == QUOTE || e == BACKSLASH || e == SLASH then Some(([e], p + 2))
      else if e == 0x62 then Some(([0x08], p + 2))
      else if e == 0x66 then Some(([0x0C], p + 2))
      else if e == 0x6E then Some(([0x0A], p + 2))
      else if e == 0x72 then Some(([0x0D], p + 2))
      else if e == 0x74 then Some(([0x09], p + 2))
      else if e == 0x75 then
        match Utf16Escape(t, p + 1) case None => None case Some((cp, next)) => Some((Encode(cp), next))
      else None
    else if c < 0x20 then None
    else Some(([c], p + 1))
  }

  /** `process_string` on the text from `p` up to `end`: its output and the position where it stops. */
  function Unescape(t: bytes, p: nat, end: nat): (r: Option<(bytes, nat)>)
    decreases |t| - p
  {
    if At(t, p) == 0 || p >= end then Some(([], p))
    else match Token(t, p)
      case None => None
      case Some((out, next)) => Prefixed(out, Unescape(t, next, end))
  }

  /** A result with `out` put in front of its output. */
  function Prefixed(out: bytes, r: Option<(bytes, nat)>): Option<(bytes, nat)> {
    match r case None => None case Some((rest, stop)) => Some((out + rest, stop))
  }

  lemma PrefixedTwice(a: bytes, b: bytes, r: Option<(bytes, nat)>)
    ensures Prefixed(a, Prefixed(b, r)) == Prefixed(a + b, r)
    ensures Prefixed([], r) == r
  {
    if r.Some? {
      assert a + (b + r.value.0) == (a + b) + r.value.0;
      assert [] + r.value.0 == r.value.0;
    }
  }

  /** `get_quoted_string`: the string denoted by the literal at `p`, and the position behind it. */
  function QuotedString(t: bytes, p: nat): (r: Option<(bytes, nat)>)
    ensures r.Some? ==> p < r.value.1 <= |t|
  {
    if At(t, p) != QUOTE then None
    else match ClosingQuote(t, p + 1)
      case None => None
      case Some(q) =>
        match Unescape(t, p + 1, q)
        case None => None
        case Some((s, _)) => Some((s, q + 1))
  }

  // ----- Unescaping stays inside the literal -----

  lemma {:induction false} ClosingQuoteSkipsPlain(t: bytes, p: nat, n: nat)
    requires forall k :: p <= k < p + n ==> At(t, k) != 0 && At(t, k) != QUOTE && At(t, k) != BACKSLASH
    ensures ClosingQuote(t, p) == ClosingQuote(t, p + n)
    decreases n
  {
    if n > 0 {
      ClosingQuoteSkipsPlain(t, p + 1, n - 1);
    }
  }

  lemma HexIsPlain(c: byte)
    requires HexCharToInt(c) != NOT_HEX
    ensures c != 0 && c != QUOTE && c != BACKSLASH
  {
  }

  /** The escape is made of bytes that the quote scanner passes over. */
  lemma EscapeInsideLiteral(t: bytes, p: nat)
    requires At(t, p) == 0x75 && Utf16Escape(t, p).Some?
    ensures ClosingQuote(t, p) == ClosingQuote(t, Utf16Escape(t, p).value.1)
  {
    HexUnitInsideLiteral(t, p + 1);
    ClosingQuoteSkipsPlain(t, p, 5);
    if Utf16Escape(t, p).value.1 == p + 11 {
      HexUnitInsideLiteral(t, p + 7);
      ClosingQuoteSkipsPlain(t, p + 7, 4);
    }
  }

  lemma HexUnitInsideLiteral(t: bytes, p: nat)
    requires Utf16Hex(t, p).Some?
    ensures forall k :: p <= k < p + 4 ==> At(t, k) != 0 && At(t, k) != QUOTE && At(t, k) != BACKSLASH
  {
    HexIsPlain(At(t, p));
    HexIsPlain(At(t, p + 1));
    HexIsPlain(At(t, p + 2));
    HexIsPlain(At(t, p + 3));
  }

  /** A token of a closed literal ends at or before the closing quote, and writes no more than it reads. */
  lemma TokenInsideLiteral(t: bytes, p: nat, q: nat)
    requires ClosingQuote(t, p) == Some(q) && p < q
    requires Token(t, p).Some?
    ensures var (out, next) := Token(t, p).value;
            next <= q && ClosingQuote(t, next) == Some(q) && |out| <= next - p
  {
    hide Encode, Utf16Escape;
    if At(t, p) == BACKSLASH && At(t, p + 1) == 0x75 {
      EscapeInsideLiteral(t, p + 1);
      ClosingQuoteSkipsPlain(t, p + 1, 1);
    }
  }

  /** Unescaping the body of a closed literal stops exactly at the closing quote, and the output is no
      longer than the body. */
  lemma {:induction false} UnescapeInsideLiteral(t: bytes, p: nat, q: nat)
    requires ClosingQuote(t, p) == Some(q)
    requires Unescape(t, p, q).Some?
    ensures var (out, stop) := Unescape(t, p, q).value; stop == q && |out| <= q - p
    decreases q - p
  {
    if p < q {
      TokenInsideLiteral(t, p, q);
      UnescapeInsideLiteral(t, Token(t, p).value.1, q);
    }
  }

  // ----- Round trip -----

  /** The escaped form of a byte is one token, which denotes the byte, and the quote scanner passes over it. */
  lemma EscapeByteToken(t: bytes, p: nat, c: byte, escapeSlashes: bool)
    requires Has(t, p, EscapeByte(c, escapeSlashes))
    ensures At(t, p) != 0
    ensures Token(t, p) == Some(([c], p + |EscapeByte(c, escapeSlashes)|))
    ensures ClosingQuote(t, p) == ClosingQuote(t, p + |EscapeByte(c, escapeSlashes)|)
  {
    var e := EscapeByte(c, escapeSlashes);
    HasAt(t, p, e, 0);
    if |e| > 1 {
      HasAt(t, p, e, 1);
    }
    if |e| == 6 {
      HasAt(t, p, e, 2);
      HasAt(t, p, e, 3);
      HasAt(t, p, e, 4);
      HasAt(t, p, e, 5);
      ControlEscape(t, p + 1, c);
      EscapeInsideLiteral(t, p + 1);
      ClosingQuoteSkipsPlain(t, p + 1, 1);
    }
  }

  lemma ControlEscape(t: bytes, p: nat, c: byte)
    requires c < 0x20 && At(t, p) == 0x75 && At(t, p + 1) == 0x30 && At(t, p + 2) == 0x30
    requires At(t, p + 3) == LowHexDigit(c >> 4) && At(t, p + 4) == LowHexDigit(c & 0x0F)
    ensures Utf16Escape(t, p) == Some((c as bv32, p + 5)) && Encode(c as bv32) == [c]
  {
  }

  lemma {:induction false} EscapeRoundTrip(t: bytes, p: nat, s: bytes, escapeSlashes: bool)
    requires Has(t, p, Escape(s, escapeSlashes) + [QUOTE])
    ensures var q := p + |Escape(s, escapeSlashes)|;
            ClosingQuote(t, p) == Some(q) && Unescape(t, p, q) == Some((s, q))
    decreases s
  {
    hide Token, EscapeByte;
    if s == [] {
      assert Escape(s, escapeSlashes) == [] && [] + [QUOTE] == [QUOTE];
      HasAt(t, p, [QUOTE], 0);
    } else {
      hide Has;
      var e, rest := EscapeByte(s[0], escapeSlashes), Escape(s[1..], escapeSlashes) + [QUOTE];
      assert Escape(s, escapeSlashes) + [QUOTE] == e + rest;
      HasConcat(t, p, e, rest);
      EscapeByteToken(t, p, s[0], escapeSlashes);
      EscapeRoundTrip(t, p + |e|, s[1..], escapeSlashes);
      assert [s[0]] + s[1..] == s;
    }
  }

  /** Parsing the literal that serialization writes gives the string back, whatever its bytes, and stops
      behind the matching quote. */
  lemma QuotedRoundTrip(t: bytes, p: nat, s: bytes, escapeSlashes: bool)
    requires Has(t, p, Quoted(s, escapeSlashes))
    ensures At(t, p) == QUOTE
    ensures QuotedString(t, p) == Some((s, p + |Quoted(s, escapeSlashes)|))
  {
    hide Has, Escape, ClosingQuote, Unescape;
    HasConcat(t, p, [QUOTE], Escape(s, escapeSlashes) + [QUOTE]);
    HasAt(t, p, [QUOTE], 0);
    EscapeRoundTrip(t, p + 1, s, escapeSlashes);
  }

  // ----- The parser's buffer writing -----

  /** The bit form of the surrogate computation in the code is the arithmetic one. */
  lemma SurrogateBits(lead: bv32, trail: bv32)
    requires 0xD800 <= lead <= 0xDBFF && 0xDC00 <= trail <= 0xDFFF
    ensures ((((lead - 0xD800) & 0x3FF) << 10) | ((trail - 0xDC00) & 0x3FF)) + 0x010000 == SurrogatePair(lead, trail)
  {
  }

  /** The byte writing of `parse_utf16`: the result points at the last byte written. */
  method WriteCodePoint(cp: bv32, output: array<byte>, processed: nat) returns (processedPtr: nat)
    requires IsScalar(cp) && processed + |Encode(cp)| <= output.Length
    modifies output
    ensures processedPtr == processed + |Encode(cp)| - 1
    ensures output[..processed] == old(output[..processed])
    ensures output[processed..processedPtr + 1] == Encode(cp)
  {
    hide Lead2, Lead3, Lead4, Continuation;
    processedPtr := processed;
    if cp < 0x80 {
      output[processedPtr] := cp as byte;
    } else if cp < 0x800 {
      output[processedPtr] := Lead2(cp);
      output[processedPtr + 1] := Continuation(cp, 0);
      processedPtr := processedPtr + 1;
    } else if cp < 0x10000 {
      output[processedPtr] := Lead3(cp);
      output[processedPtr + 1] := Continuation(cp, 6);
      output[processedPtr + 2] := Continuation(cp, 0);
      processedPtr := processedPtr + 2;
    } else {
      output[processedPtr] := Lead4(cp);
      output[processedPtr + 1] := Continuation(cp, 12);
      output[processedPtr + 2] := Continuation(cp, 6);
      output[processedPtr + 3] := Continuation(cp, 0);
      processedPtr := processedPtr + 3;
    }
  }

  /** `parse_utf16`: decodes the \u escape at `unprocessed` and writes its UTF-8 form at `processed`.
      Both results point at the last byte read or written, as in C. */
  method ParseUtf16(t: bytes, unprocessed: nat, output: array<byte>, processed: nat)
      returns (status: Option<(nat, nat)>)
    requires At(t, unprocessed) == 0x75
    requires Utf16Escape(t, unprocessed).Some? ==>
               processed + |Encode(Utf16Escape(t, unprocessed).value.0)| <= output.Length
    modifies output
    ensures status.Some? <==> Utf16Escape(t, unprocessed).Some?
    ensures status.Some? ==>
              var (cp, next) := Utf16Escape(t, unprocessed).value;
              && status.value == (next - 1, processed + |Encode(cp)| - 1)
              && output[..processed] == old(output[..processed])
              && output[processed..processed + |Encode(cp)|] == Encode(cp)
    ensures status.None? ==> output[..] == old(output[..])
  {
    hide HexCharToInt, Utf16Hex, SurrogatePair, Encode;
    var unprocessedPtr := unprocessed + 1;
    var parsed := Utf16Hex(t, unprocessedPtr);
    if parsed.None? {
      return None;
    }
    var cp := parsed.value;
    if 0xD800 <= cp <= 0xDBFF {
      var lead := cp;
      unprocessedPtr := unprocessedPtr + 4;
      if At(t, unprocessedPtr) != BACKSLASH || At(t, unprocessedPtr + 1) != 0x75 {
        return None;
      }
      unprocessedPtr := unprocessedPtr + 2;
      var trailing := Utf16Hex(t, unprocessedPtr);
      if trailing.None? || trailing.value < 0xDC00 || trailing.value > 0xDFFF {
        return None;
      }
      var trail := trailing.value;
      SurrogateBits(lead, trail);
      cp := ((((lead - 0xD800) & 0x3FF) << 10) | ((trail - 0xDC00) & 0x3FF)) + 0x010000;
    } else if 0xDC00 <= cp <= 0xDFFF {
      return None;
    }
    assert Utf16Escape(t, unprocessed) == Some((cp, unprocessedPtr + 4));
    var processedPtr := WriteCodePoint(cp, output, processed);
    unprocessedPtr := unprocessedPtr + 3;
    return Some((unprocessedPtr, processedPtr));
  }

  /** One round of the loop of `process_string`; both results point behind what was read or written. */
  method ProcessToken(t: bytes, input: nat, output: array<byte>, outputIx: nat) returns (status: Option<(nat, nat)>)
    requires At(t, input) != 0
    requires Token(t, input).Some? ==> outputIx + |Token(t, input).value.0| <= output.Length
    modifies output
    ensures status.Some? <==> Token(t, input).Some?
    ensures status.Some? ==>
              var (out, next) := Token(t, input).value;
              && status.value == (next, outputIx + |out|)
              && output[..outputIx] == old(output[..outputIx])
              && output[outputIx..outputIx + |out|] == out
  {
    hide Encode, Utf16Escape;
    var inputPtr, outputPtr := input, outputIx;
    if At(t, inputPtr) == BACKSLASH {
      inputPtr := inputPtr + 1;
      var c := At(t, inputPtr);
      if c == QUOTE || c == BACKSLASH || c == SLASH {
        output[outputPtr] := c;
      } else if c == 0x62 {
        output[outputPtr] := 0x08;
      } else if c == 0x66 {
        output[outputPtr] := 0x0C;
      } else if c == 0x6E {
        output[outputPtr] := 0x0A;
      } else if c == 0x72 {
        output[outputPtr] := 0x0D;
      } else if c == 0x74 {
        output[outputPtr] := 0x09;
      } else if c == 0x75 {
        var escape := ParseUtf16(t, inputPtr, output, outputPtr);
        if escape.None? {
          return None;
        }
        inputPtr, outputPtr := escape.value.0, escape.value.1;
      } else {
        return None;
      }
    } else if At(t, inputPtr) < 0x20 {
      return None;
    } else {
      output[outputPtr] := At(t, inputPtr);
    }
    assert outputPtr == outputIx ==> output[outputIx..outputPtr + 1] == [output[outputIx]];
    return Some((inputPtr + 1, outputPtr + 1));
  }

  /** `process_string`.  The caller has found the closing quote, so no escape reaches beyond the input and
      the buffer of inputLen + 1 bytes suffices. */
  method ProcessString(t: bytes, input: nat, inputLen: nat) returns (result: Option<bytes>)
    requires ClosingQuote(t, input) == Some(input + inputLen)
    ensures result == match Unescape(t, input, input + inputLen) case Some((s, _)) => Some(s) case None => None
    ensures result.Some? ==> |result.value| <= inputLen
  {
    hide Encode, Token;
    var inputPtr := input;
    var output := new byte[inputLen + 1];
    var outputPtr := 0;
    ghost var end := input + inputLen;
    PrefixedTwice([], [], Unescape(t, input, end));
    while At(t, inputPtr) != 0 && inputPtr - input < inputLen
      invariant input <= inputPtr <= end
      invariant ClosingQuote(t, inputPtr) == Some(end)
      invariant 0 <= outputPtr <= inputPtr - input
      invariant Unescape(t, input, end) == Prefixed(output[..outputPtr], Unescape(t, inputPtr, end))
      decreases end - inputPtr
    {
      ghost var written := output[..outputPtr];
      if Token(t, inputPtr).Some? {
        TokenInsideLiteral(t, inputPtr, end);
      }
      var status := ProcessToken(t, inputPtr, output, outputPtr);
      if status.None? {
        return None;
      }
      inputPtr, outputPtr := status.value.0, status.value.1;
      ghost var out := output[|written|..outputPtr];
      assert output[..outputPtr] == written + out;
      PrefixedTwice(written, out, Unescape(t, inputPtr, end));
    }
    UnescapeStops(t, inputPtr, end);
    ghost var text := output[..outputPtr];
    assert text + [] == text;
    output[outputPtr] := 0;
    assert output[..outputPtr] == text;
    return Some(output[..outputPtr]);
  }

  /** `get_quoted_string`. */
  method GetQuotedString(t: bytes, p: nat) returns (result: Option<(bytes, nat)>)
    requires p <= |t|
    ensures result == QuotedString(t, p)
  {
    var skipped := SkipQuotes(t, p);
    if skipped.None? {
      return None;
    }
    var processed := ProcessString(t, p + 1, skipped.value - p - 2);
    if processed.None? {
      return None;
    }
    return Some((processed.value, skipped.value));
  }

  lemma UnescapeStops(t: bytes, p: nat, end: nat)
    requires p >= end || At(t, p) == 0
    ensures Unescape(t, p, end) == Some(([], p))
  {
  }

  // ----- Unescaping keeps well-formed UTF-8 well-formed -----

  lemma {:induction false} WellFormedConcat(a: bytes, b: bytes)
    requires WellFormed(a) && WellFormed(b)
    ensures WellFormed(a + b)
    decreases |a|
  {
    hide VerifySequence, Encode, IsScalar, WellFormed;
    if a == [] {
      assert a + b == b;
    } else {
      WellFormedStep(a, 0);
      assert a[0..] == a;
      var n := VerifySequence(a, 0);
      var cp := VerifySound(a, 0);
      WellFormedConcat(a[n..], b);
      PrependEncoded(cp, a[n..] + b);
      assert a + b == Encode(cp) + (a[n..] + b);
    }
  }

  lemma EncodedWellFormed(cp: bv32)
    requires IsScalar(cp)
    ensures WellFormed(Encode(cp))
  {
    assert EncodeAll([]) == [] && AllScalar([]);
    PrependEncoded(cp, []);
    assert Encode(cp) + [] == Encode(cp);
  }

  lemma AsciiEncodesItself(c: byte)
    requires c < 0x80
    ensures IsScalar(c as bv32) && Encode(c as bv32) == [c]
    ensures SequenceLength(c) == 1 && Accept(c as bv32, 1) == 1
  {
  }

  /** Behind ASCII bytes the rest of a well-formed text is well-formed. */
  lemma {:induction false} AsciiPrefix(s: bytes, n: nat)
    requires n <= |s| && WellFormed(s)
    requires forall k :: 0 <= k < n ==> s[k] < 0x80
    ensures WellFormed(s[n..])
    decreases n
  {
    if n > 0 {
      WellFormedStep(s, 0);
      assert s[0..] == s;
      AsciiEncodesItself(s[0]);
      AsciiPrefix(s[1..], n - 1);
      assert s[1..][n - 1..] == s[n..];
    } else {
      assert s[0..] == s;
    }
  }

  /** A token that starts with an ASCII byte reads ASCII bytes only and writes one well-formed character. */
  lemma AsciiToken(t: bytes, p: nat)
    requires At(t, p) != 0 && At(t, p) < 0x80 && Token(t, p).Some?
    ensures var (out, next) := Token(t, p).value;
            WellFormed(out) && forall k :: p <= k < next ==> At(t, k) < 0x80
  {
    hide Encode, Utf16Hex, IsScalar, WellFormed;
    if At(t, p) == BACKSLASH && At(t, p + 1) == 0x75 {
      var (cp, next) := Utf16Escape(t, p + 1).value;
      EncodedWellFormed(cp);
      HexUnitIsAscii(t, p + 2);
      if next == p + 12 {
        HexUnitIsAscii(t, p + 8);
      }
    } else {
      var (out, next) := Token(t, p).value;
      AsciiEncodesItself(out[0]);
      EncodedWellFormed(out[0] as bv32);
    }
  }

  lemma HexUnitIsAscii(t: bytes, p: nat)
    requires Utf16Hex(t, p).Some?
    ensures At(t, p) < 0x80 && At(t, p + 1) < 0x80 && At(t, p + 2) < 0x80 && At(t, p + 3) < 0x80
  {
  }

  /** Bytes of a multi-byte character are copied. */
  lemma {:induction false} UnescapeCopies(t: bytes, p: nat, n: nat, q: nat)
    requires p + n <= q <= |t|
    requires forall k :: p <= k < p + n ==> t[k] >= 0x80
    ensures Unescape(t, p, q) == Prefixed(t[p..p + n], Unescape(t, p + n, q))
    decreases n
  {
    if n == 0 {
      PrefixedTwice([], [], Unescape(t, p, q));
    } else {
      UnescapeCopies(t, p + 1, n - 1, q);
      PrefixedTwice([t[p]], t[p + 1..p + n], Unescape(t, p + n, q));
      assert [t[p]] + t[p + 1..p + n] == t[p..p + n];
    }
  }

  /** The bytes of an encoded character are either one ASCII byte or all at least 0x80. */
  lemma MultiByte(cp: bv32)
    requires IsScalar(cp) && |Encode(cp)| > 1
    ensures forall k :: 0 <= k < |Encode(cp)| ==> Encode(cp)[k] >= 0x80
  {
  }

  /** Unescaping well-formed UTF-8 text yields well-formed UTF-8. */
  lemma {:induction false} UnescapeKeepsUtf8(t: bytes, p: nat, q: nat)
    requires ClosingQuote(t, p) == Some(q) && WellFormed(t[p..q])
    requires Unescape(t, p, q).Some?
    ensures WellFormed(Unescape(t, p, q).value.0)
    decreases q - p
  {
    hide Token, Encode, VerifySequence, WellFormed, IsScalar;
    if p == q {
      EmptyIsWellFormed();
    } else if t[p] < 0x80 {
      TokenInsideLiteral(t, p, q);
      AsciiToken(t, p);
      var (out, next) := Token(t, p).value;
      forall k | 0 <= k < next - p
        ensures t[p..q][k] < 0x80
      {
        assert t[p..q][k] == At(t, p + k);
      }
      AsciiPrefix(t[p..q], next - p);
      assert t[p..q][next - p..] == t[next..q];
      UnescapeKeepsUtf8(t, next, q);
      WellFormedConcat(out, Unescape(t, next, q).value.0);
    } else {
      var n := CopiedCharacter(t, p, q);
      UnescapeKeepsUtf8(t, p + n, q);
      WellFormedConcat(t[p..p + n], Unescape(t, p + n, q).value.0);
    }
  }

  /** A body that starts with a non-ASCII byte starts with a multi-byte character, which is copied. */
  lemma CopiedCharacter(t: bytes, p: nat, q: nat) returns (n: nat)
    requires p < q && ClosingQuote(t, p) == Some(q) && t[p] >= 0x80 && WellFormed(t[p..q])
    ensures 1 <= n && p + n <= q && ClosingQuote(t, p + n) == Some(q)
    ensures WellFormed(t[p..p + n]) && WellFormed(t[p + n..q])
    ensures Unescape(t, p, q) == Prefixed(t[p..p + n], Unescape(t, p + n, q))
  {
    hide Token, Encode, VerifySequence, WellFormed, IsScalar, Unescape;
    var body := t[p..q];
    assert body[0..] == body;
    WellFormedStep(body, 0);
    var cp := VerifySound(body, 0);
    n := |Encode(cp)|;
    assert body[0..n] == t[p..p + n] && body[n..] == t[p + n..q];
    FirstByteHigh(cp);
    MultiByte(cp);
    assert forall k :: p <= k < p + n ==> t[k] == body[0..n][k - p];
    UnescapeCopies(t, p, n, q);
    ClosingQuoteSkipsPlain(t, p, n);
    EncodedWellFormed(cp);
  }

  lemma FirstByteHigh(cp: bv32)
    requires IsScalar(cp) && Encode(cp)[0] >= 0x80
    ensures |Encode(cp)| > 1
  {
  }
}
