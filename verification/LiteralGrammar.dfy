/** What a string literal denotes, read off its bytes (section 7 of RFC 8259), and that exactly this is parsed. */
module LiteralGrammar {
  import opened Bytes
  import opened StringLiteral
  import opened Utf8
  import opened Wrappers

  /** `c` is a hexadecimal digit of value `d`, in either case. */
  predicate SpellsDigit(c: byte, d: bv32) {
    || (d < 10 && c as bv32 == 0x30 + d)
    || (10 <= d < 16 && (c as bv32 == 0x41 + (d - 10) || c as bv32 == 0x61 + (d - 10)))
  }

  /** The hexadecimal digit number `k` of a 16-bit unit, counted from the left. */
  function DigitOf(unit: bv32, k: nat): (d: bv32)
    ensures d < 16
  {
    if k == 0 then (unit >> 12) & 0xF
    else if k == 1 then (unit >> 8) & 0xF
    else if k == 2 then (unit >> 4) & 0xF
    else unit & 0xF
  }

  /** At `p` stand a backslash, a u, and the four digits of `unit`. */
  predicate SpellsUnit(t: bytes, p: nat, unit: bv32) {
    && At(t, p) == 0x5C && At(t, p + 1) == 0x75
    && SpellsDigit(At(t, p + 2), DigitOf(unit, 0))
    && SpellsDigit(At(t, p + 3), DigitOf(unit, 1))
    && SpellsDigit(At(t, p + 4), DigitOf(unit, 2))
    && SpellsDigit(At(t, p + 5), DigitOf(unit, 3))
  }

  function Lead(cp: bv32): bv32
    requires 0x10000 <= cp <= 0x10FFFF
  {
    0xD800 + ((cp - 0x10000) >> 10)
  }

  function Trail(cp: bv32): bv32
    requires 0x10000 <= cp <= 0x10FFFF
  {
    0xDC00 + ((cp - 0x10000) & 0x3FF)
  }

  /** From `p` to `q` stands the escape of a scalar value: one unit, or a lead and a trail surrogate. */
  predicate SpellsScalar(t: bytes, p: nat, q: nat, cp: bv32)
    requires IsScalar(cp)
  {
    if cp < 0x10000 then q == p + 6 && SpellsUnit(t, p, cp)
    else
      && q == p + 12
      && SpellsUnit(t, p, Lead(cp))
      && SpellsUnit(t, p + 6, Trail(cp))
  }

  /** The byte behind a backslash, and what both stand for. */
  predicate SpellsShort(c: byte, out: byte) {
    || (c == 0x22 && out == 0x22) || (c == 0x5C && out == 0x5C) || (c == 0x2F && out == 0x2F)
    || (c == 0x62 && out == 0x08) || (c == 0x66 && out == 0x0C) || (c == 0x6E && out == 0x0A)
    || (c == 0x72 && out == 0x0D) || (c == 0x74 && out == 0x09)
  }

  /** The bytes from `p` to `q` are one character of a literal or one escape, for the bytes `out`. */
  ghost predicate SpellsPiece(t: bytes, p: nat, q: nat, out: bytes) {
    || (q == p + 1 && At(t, p) >= 0x20 && At(t, p) != 0x22 && At(t, p) != 0x5C && out == [At(t, p)])
    || (q == p + 2 && At(t, p) == 0x5C && |out| == 1 && SpellsShort(At(t, p + 1), out[0]))
    || exists cp: bv32 :: IsScalar(cp) && SpellsScalar(t, p, q, cp) && out == Encode(cp)
  }

  ghost predicate SpellsBody(t: bytes, p: nat, q: nat, chars: bytes)
    decreases |t| - p, |chars|
  {
    if p >= q || p >= |t| then p == q && chars == []
    else
      exists m: nat, n: nat ::
        p < m <= q && n <= |chars| && SpellsPiece(t, p, m, chars[..n]) && SpellsBody(t, m, q, chars[n..])
  }

  /** The bytes from `p` to `q` are a string literal for `chars`. */
  ghost predicate SpellsString(t: bytes, p: nat, q: nat, chars: bytes) {
    && p + 2 <= q && At(t, p) == 0x22 && At(t, q - 1) == 0x22
    && SpellsBody(t, p + 1, q - 1, chars)
  }

  // ---------- digits and escapes ----------

  lemma DigitExactly(c: byte, d: bv32)
    requires d < 16
    ensures SpellsDigit(c, d) <==> HexCharToInt(c) == d
  {
  }

  lemma SomeDigit(c: byte)
    ensures HexCharToInt(c) == NOT_HEX || HexCharToInt(c) < 16
  {
  }

  lemma UnitBits(x1: bv32, x2: bv32, x3: bv32, x4: bv32)
    requires x1 < 16 && x2 < 16 && x3 < 16 && x4 < 16
    ensures var unit := (x1 << 12) | (x2 << 8) | (x3 << 4) | x4;
            && DigitOf(unit, 0) == x1 && DigitOf(unit, 1) == x2 && DigitOf(unit, 2) == x3 && DigitOf(unit, 3) == x4
  {
  }

  lemma UnitOfDigits(unit: bv32)
    requires unit <= 0xFFFF
    ensures (DigitOf(unit, 0) << 12) | (DigitOf(unit, 1) << 8) | (DigitOf(unit, 2) << 4) | DigitOf(unit, 3) == unit
  {
  }

  /** The four digits behind \u are read as the unit they spell ... */
  lemma UnitIsRead(t: bytes, p: nat, unit: bv32)
    requires unit <= 0xFFFF && SpellsUnit(t, p, unit)
    ensures Utf16Hex(t, p + 2) == Some(unit)
  {
    hide HexCharToInt, SpellsDigit, DigitOf;
    DigitExactly(At(t, p + 2), DigitOf(unit, 0));
    DigitExactly(At(t, p + 3), DigitOf(unit, 1));
    DigitExactly(At(t, p + 4), DigitOf(unit, 2));
    DigitExactly(At(t, p + 5), DigitOf(unit, 3));
    UnitOfDigits(unit);
  }

  /** ... and nothing else is. */
  lemma ReadIsUnit(t: bytes, p: nat)
    requires At(t, p) == BACKSLASH && At(t, p + 1) == 0x75 && Utf16Hex(t, p + 2).Some?
    ensures SpellsUnit(t, p, Utf16Hex(t, p + 2).value)
  {
    hide HexCharToInt, SpellsDigit, DigitOf;
    var x1, x2 := HexCharToInt(At(t, p + 2)), HexCharToInt(At(t, p + 3));
    var x3, x4 := HexCharToInt(At(t, p + 4)), HexCharToInt(At(t, p + 5));
    SomeDigit(At(t, p + 2));
    SomeDigit(At(t, p + 3));
    SomeDigit(At(t, p + 4));
    SomeDigit(At(t, p + 5));
    UnitBits(x1, x2, x3, x4);
    DigitExactly(At(t, p + 2), x1);
    DigitExactly(At(t, p + 3), x2);
    DigitExactly(At(t, p + 4), x3);
    DigitExactly(At(t, p + 5), x4);
  }

  /** The surrogates of a code point, and back. */
  lemma PairOf(cp: bv32)
    requires 0x10000 <= cp <= 0x10FFFF
    ensures 0xD800 <= Lead(cp) <= 0xDBFF && 0xDC00 <= Trail(cp) <= 0xDFFF && SurrogatePair(Lead(cp), Trail(cp)) == cp
  {
    hide SurrogatePair;
    var lead, trail := Lead(cp), Trail(cp);
    PairOfParts(lead, trail, cp);
  }

  lemma PairOfParts(lead: bv32, trail: bv32, cp: bv32)
    requires 0x10000 <= cp <= 0x10FFFF
    requires lead == 0xD800 + ((cp - 0x10000) >> 10) && trail == 0xDC00 + ((cp - 0x10000) & 0x3FF)
    ensures 0xD800 <= lead <= 0xDBFF && 0xDC00 <= trail <= 0xDFFF && SurrogatePair(lead, trail) == cp
  {
    PairRanges(lead, trail, cp);
    assert SurrogatePair(lead, trail) == cp;
  }

  lemma PairRanges(lead: bv32, trail: bv32, cp: bv32)
    requires 0x10000 <= cp <= 0x10FFFF
    requires lead == 0xD800 + ((cp - 0x10000) >> 10) && trail == 0xDC00 + ((cp - 0x10000) & 0x3FF)
    ensures 0xD800 <= lead <= 0xDBFF && 0xDC00 <= trail <= 0xDFFF
  {
  }

  lemma PairIsOf(lead: bv32, trail: bv32)
    requires 0xD800 <= lead <= 0xDBFF && 0xDC00 <= trail <= 0xDFFF
    ensures Lead(SurrogatePair(lead, trail)) == lead && Trail(SurrogatePair(lead, trail)) == trail
  {
  }

  /** Every spelling of the escape of every scalar value is read as that value. */
  lemma EscapeIsRead(t: bytes, p: nat, q: nat, cp: bv32)
    requires IsScalar(cp) && SpellsScalar(t, p, q, cp)
    ensures Utf16Escape(t, p + 1) == Some((cp, q)) && Token(t, p) == Some((Encode(cp), q))
  {
    hide Utf16Hex, SpellsUnit, SurrogatePair, Encode, Lead, Trail;
    if cp < 0x10000 {
      UnitStarts(t, p, cp);
      UnitIsRead(t, p, cp);
    } else {
      PairOf(cp);
      UnitStarts(t, p, Lead(cp));
      UnitStarts(t, p + 6, Trail(cp));
      UnitIsRead(t, p, Lead(cp));
      UnitIsRead(t, p + 6, Trail(cp));
    }
  }

  lemma UnitStarts(t: bytes, p: nat, unit: bv32)
    requires SpellsUnit(t, p, unit)
    ensures At(t, p) == BACKSLASH && At(t, p + 1) == 0x75
  {
  }

  /** Whatever is read as an escape is the spelling of the value. */
  lemma ReadIsEscape(t: bytes, p: nat)
    requires At(t, p) == BACKSLASH && At(t, p + 1) == 0x75 && Utf16Escape(t, p + 1).Some?
    ensures var (cp, q) := Utf16Escape(t, p + 1).value; SpellsScalar(t, p, q, cp)
  {
    hide Utf16Hex, SpellsUnit, SurrogatePair, Lead, Trail;
    var unit := Utf16Hex(t, p + 2).value;
    ReadIsUnit(t, p);
    if 0xD800 <= unit <= 0xDFFF {
      ReadIsUnit(t, p + 6);
      PairIsOf(unit, Utf16Hex(t, p + 8).value);
    }
  }

  lemma PieceIsRead(t: bytes, p: nat, q: nat, out: bytes)
    requires SpellsPiece(t, p, q, out)
    ensures At(t, p) != 0 && Token(t, p) == Some((out, q))
  {
    hide Utf16Escape, Encode, SpellsScalar, IsScalar;
    if cp: bv32 :| IsScalar(cp) && SpellsScalar(t, p, q, cp) && out == Encode(cp) {
      ScalarStarts(t, p, q, cp);
      EscapeIsRead(t, p, q, cp);
    } else {
      assert out == [out[0]];
    }
  }

  lemma ScalarStarts(t: bytes, p: nat, q: nat, cp: bv32)
    requires IsScalar(cp) && SpellsScalar(t, p, q, cp)
    ensures At(t, p) == BACKSLASH
  {
  }

  lemma ReadIsPiece(t: bytes, p: nat)
    requires At(t, p) != 0 && At(t, p) != QUOTE && Token(t, p).Some?
    ensures var (out, q) := Token(t, p).value; SpellsPiece(t, p, q, out)
  {
    hide Utf16Escape, Encode, SpellsScalar, IsScalar;
    if At(t, p) == BACKSLASH && At(t, p + 1) == 0x75 {
      ReadIsEscape(t, p);
      var (cp, q) := Utf16Escape(t, p + 1).value;
      assert IsScalar(cp) && SpellsScalar(t, p, q, cp) && Token(t, p) == Some((Encode(cp), q));
    }
  }

  /** One step of unescaping reads exactly the pieces of the grammar, for the bytes that they spell. */
  lemma TokenExactly(t: bytes, p: nat, q: nat, out: bytes)
    requires At(t, p) != 0 && At(t, p) != QUOTE
    ensures Token(t, p) == Some((out, q)) <==> SpellsPiece(t, p, q, out)
  {
    hide Token, SpellsPiece;
    if SpellsPiece(t, p, q, out) {
      PieceIsRead(t, p, q, out);
    }
    if Token(t, p).Some? {
      ReadIsPiece(t, p);
    }
  }

  // ---------- whole literals ----------

  /** The scan for the closing quote passes over a piece. */
  lemma PiecePasses(t: bytes, p: nat, q: nat, out: bytes)
    requires SpellsPiece(t, p, q, out)
    ensures At(t, p) != 0 && Token(t, p) == Some((out, q)) && ClosingQuote(t, p) == ClosingQuote(t, q)
  {
    hide Utf16Escape, Encode, SpellsPiece;
    PieceIsRead(t, p, q, out);
    if At(t, p) == BACKSLASH && At(t, p + 1) == 0x75 {
      EscapeInsideLiteral(t, p + 1);
      ClosingQuoteSkipsPlain(t, p + 1, 1);
    } else {
      PieceIsNoQuote(t, p, q, out);
    }
  }

  lemma PieceIsNoQuote(t: bytes, p: nat, q: nat, out: bytes)
    requires SpellsPiece(t, p, q, out)
    ensures At(t, p) != QUOTE
  {
    if cp: bv32 :| IsScalar(cp) && SpellsScalar(t, p, q, cp) && out == Encode(cp) {
      ScalarStarts(t, p, q, cp);
    }
  }

  lemma {:induction false} BodyIsRead(t: bytes, p: nat, q: nat, chars: bytes)
    requires SpellsBody(t, p, q, chars) && At(t, q) == QUOTE
    ensures ClosingQuote(t, p) == Some(q) && Unescape(t, p, q) == Some((chars, q))
    decreases |t| - p
  {
    hide SpellsPiece, Token;
    if p < q && p < |t| {
      var m: nat, n: nat :|
        p < m <= q && n <= |chars| && SpellsPiece(t, p, m, chars[..n]) && SpellsBody(t, m, q, chars[n..]);
      PiecePasses(t, p, m, chars[..n]);
      BodyIsRead(t, m, q, chars[n..]);
      assert chars[..n] + chars[n..] == chars;
    }
  }

  lemma {:induction false} ReadIsBody(t: bytes, p: nat, q: nat)
    requires ClosingQuote(t, p) == Some(q) && Unescape(t, p, q).Some?
    ensures SpellsBody(t, p, q, Unescape(t, p, q).value.0)
    decreases |t| - p
  {
    hide SpellsPiece, Token;
    if p < q {
      ReadIsPiece(t, p);
      TokenInsideLiteral(t, p, q);
      var (out, m) := Token(t, p).value;
      ReadIsBody(t, m, q);
      var chars := Unescape(t, p, q).value.0;
      assert chars[..|out|] == out && chars[|out|..] == Unescape(t, m, q).value.0;
    }
  }

  /** Exactly the string literals are read, for the bytes that they spell, and up to their closing quote. */
  lemma StringExactly(t: bytes, p: nat, q: nat, chars: bytes)
    ensures QuotedString(t, p) == Some((chars, q)) <==> SpellsString(t, p, q, chars)
  {
    hide SpellsBody, Unescape, ClosingQuote;
    if SpellsString(t, p, q, chars) {
      BodyIsRead(t, p + 1, q - 1, chars);
    }
    if QuotedString(t, p) == Some((chars, q)) {
      ReadIsBody(t, p + 1, q - 1);
    }
  }

  // ---------- what the serializer writes ----------

  predicate LowerCase(s: bytes) {
    forall k :: 0 <= k < |s| ==> !(0x41 <= s[k] <= 0x46)
  }

  /** Of all spellings of a byte the serializer writes the shortest, with digits in lower case; but for a slash, which
      it writes with a backslash when asked to. */
  lemma EscapeIsShortest(c: byte, s: bytes)
    ensures var e := EscapeByte(c, false);
            && SpellsPiece(e, 0, |e|, [c]) && (|e| > 1 ==> LowerCase(e[2..]))
            && (SpellsPiece(s, 0, |s|, [c]) ==>
                  |s| >= |e| && (|s| == |e| && (|s| > 1 ==> LowerCase(s[2..])) ==> s == e))
    ensures EscapeByte(c, true) == if c == 0x2F then [0x5C, 0x2F] else EscapeByte(c, false)
  {
    hide SpellsScalar, Encode, IsScalar;
    EscapeSpells(c);
    if cp: bv32 :| IsScalar(cp) && SpellsScalar(s, 0, |s|, cp) && [c] == Encode(cp) {
      OneByteScalar(cp, c);
      ControlSpelling(s, c);
    } else if SpellsPiece(s, 0, |s|, [c]) {
      ShortSpelling(s, c);
    }
  }

  lemma EscapeSpells(c: byte)
    ensures var e := EscapeByte(c, false); SpellsPiece(e, 0, |e|, [c]) && (|e| > 1 ==> LowerCase(e[2..]))
  {
    hide SpellsScalar, Encode, IsScalar;
    var e := EscapeByte(c, false);
    if |e| == 6 {
      ControlIsSpelled(c);
      assert IsScalar(c as bv32) && SpellsScalar(e, 0, |e|, c as bv32) && [c] == Encode(c as bv32);
    }
  }

  lemma ControlIsSpelled(c: byte)
    requires |EscapeByte(c, false)| == 6
    ensures IsScalar(c as bv32) && SpellsScalar(EscapeByte(c, false), 0, 6, c as bv32) && [c] == Encode(c as bv32)
  {
  }

  lemma OneByteScalar(cp: bv32, c: byte)
    requires IsScalar(cp) && Encode(cp) == [c]
    ensures cp == c as bv32 && cp < 0x80
  {
  }

  /** The spelling of a byte with six bytes. */
  lemma ControlSpelling(s: bytes, c: byte)
    requires c < 0x80 && IsScalar(c as bv32) && SpellsScalar(s, 0, |s|, c as bv32)
    ensures |s| == 6
    ensures |EscapeByte(c, false)| == 6 && LowerCase(s[2..]) ==> s == EscapeByte(c, false)
  {
    if LowerCase(s[2..]) {
      assert forall k :: 2 <= k < 6 ==> s[k] == s[2..][k - 2];
    }
  }

  lemma ShortSpelling(s: bytes, c: byte)
    requires SpellsPiece(s, 0, |s|, [c]) && |s| <= 2
    ensures |s| >= |EscapeByte(c, false)| && (|s| == |EscapeByte(c, false)| ==> s == EscapeByte(c, false))
  {
    hide Encode, IsScalar;
  }
}
