/** UTF-8 checking in `is_valid_utf8`, against the encoding of RFC 3629. */
module Utf8 {
  import opened Bytes

  /** A Unicode scalar value: a code point that is not a surrogate. */
  predicate IsScalar(cp: bv32) {
    cp <= 0x10FFFF && !(0xD800 <= cp <= 0xDFFF)
  }

  /** The six-bit group of `cp` that starts at bit `shift`, as a continuation byte. */
  function Continuation(cp: bv32, shift: nat): byte
    requires shift <= 12
  {
    0x80 | ((cp >> shift) & 0x3F) as byte
  }

  /** The encoding table of section 3 of RFC 3629. */
  function Encode(cp: bv32): (r: bytes)
    requires IsScalar(cp)
    ensures 1 <= |r| <= 4
  {
    if cp < 0x80 then [cp as byte]
    else if cp < 0x800 then [Lead2(cp), Continuation(cp, 0)]
    else if cp < 0x10000 then [Lead3(cp), Continuation(cp, 6), Continuation(cp, 0)]
    else [Lead4(cp), Continuation(cp, 12), Continuation(cp, 6), Continuation(cp, 0)]
  }

  function Lead2(cp: bv32): byte { 0xC0 | ((cp >> 6) & 0x1F) as byte }
  function Lead3(cp: bv32): byte { 0xE0 | ((cp >> 12) & 0x0F) as byte }
  function Lead4(cp: bv32): byte { 0xF0 | ((cp >> 18) & 0x07) as byte }

  ghost predicate AllScalar(cps: seq<bv32>) {
    forall i :: 0 <= i < |cps| ==> IsScalar(cps[i])
  }

  ghost function EncodeAll(cps: seq<bv32>): bytes
    requires AllScalar(cps)
  {
    if cps == [] then [] else Encode(cps[0]) + EncodeAll(cps[1..])
  }

  /** `s` is a concatenation of encoded scalar values. */
  ghost predicate WellFormed(s: bytes) {
    exists cps: seq<bv32> :: AllScalar(cps) && s == EncodeAll(cps)
  }

  predicate IsCont(b: byte) {
    b & 0xC0 == 0x80
  }

  /** `num_bytes_in_utf8_sequence`; what is left in the end starts with the bits 11110. */
  function SequenceLength(c: byte): (n: nat)
    ensures n <= 4
  {
    if c == 0xC0 || c == 0xC1 || c > 0xF4 || IsCont(c) then 0
    else if c & 0x80 == 0 then 1
    else if c & 0xE0 == 0xC0 then 2
    else if c & 0xF0 == 0xE0 then 3
    else 4
  }

  function CodePoint2(a: byte, b: byte): bv32 {
    ((a & 0x1F) as bv32 << 6) | (b & 0x3F) as bv32
  }

  function CodePoint3(a: byte, b: byte, c: byte): bv32 {
    ((((a & 0x0F) as bv32 << 6) | (b & 0x3F) as bv32) << 6) | (c & 0x3F) as bv32
  }

  function CodePoint4(a: byte, b: byte, c: byte, d: byte): bv32 {
    ((((((a & 0x07) as bv32 << 6) | (b & 0x3F) as bv32) << 6) | (c & 0x3F) as bv32) << 6) | (d & 0x3F) as bv32
  }

  /** `verify_utf8_sequence` on the text from position `p` on: the length of the accepted sequence, or 0. */
  function VerifySequence(s: bytes, p: nat): (len: nat) {
    var a, b, c, d := At(s, p), At(s, p + 1), At(s, p + 2), At(s, p + 3);
    var len := SequenceLength(a);
    if len == 1 then Accept(a as bv32, 1)
    else if len == 2 && IsCont(b) then Accept(CodePoint2(a, b), 2)
    else if len == 3 && IsCont(b) && IsCont(c) then Accept(CodePoint3(a, b, c), 3)
    else if len == 4 && IsCont(b) && IsCont(c) && IsCont(d) then Accept(CodePoint4(a, b, c, d), 4)
    else 0
  }

  /** The checks on the decoded value: overlong encodings, range, surrogate halves. */
  function Accept(cp: bv32, len: nat): nat {
    if (cp < 0x80 && len > 1) || (cp < 0x800 && len > 2) || (cp < 0x10000 && len > 3) then 0
    else if cp > 0x10FFFF then 0
    else if 0xD800 <= cp <= 0xDFFF then 0
    else len
  }

  // Decoding inverts encoding, one sequence length at a time.

  lemma Recode1(a: byte)
    requires SequenceLength(a) == 1
    ensures IsScalar(a as bv32) && Encode(a as bv32) == [a]
  {
    assert a < 0x80;
    assert a as bv32 < 0x80 && (a as bv32) as byte == a;
  }

  lemma Recode2(a: byte, b: byte)
    requires SequenceLength(a) == 2 && IsCont(b) && Accept(CodePoint2(a, b), 2) != 0
    ensures IsScalar(CodePoint2(a, b)) && Encode(CodePoint2(a, b)) == [a, b]
  {
    var cp := CodePoint2(a, b);
    assert cp < 0x800 && Lead2(cp) == a && Continuation(cp, 0) == b;
  }

  lemma Recode3(a: byte, b: byte, c: byte)
    requires SequenceLength(a) == 3 && IsCont(b) && IsCont(c) && Accept(CodePoint3(a, b, c), 3) != 0
    ensures IsScalar(CodePoint3(a, b, c)) && Encode(CodePoint3(a, b, c)) == [a, b, c]
  {
    Bits3(a, b, c);
    hide SequenceLength, IsCont, CodePoint3, Lead3, Continuation;
  }

  lemma Bits3(a: byte, b: byte, c: byte)
    requires SequenceLength(a) == 3 && IsCont(b) && IsCont(c)
    ensures var cp := CodePoint3(a, b, c);
            cp < 0x10000 && Lead3(cp) == a && Continuation(cp, 6) == b && Continuation(cp, 0) == c
  {
  }

  lemma Recode4(a: byte, b: byte, c: byte, d: byte)
    requires SequenceLength(a) == 4 && IsCont(b) && IsCont(c) && IsCont(d) && Accept(CodePoint4(a, b, c, d), 4) != 0
    ensures IsScalar(CodePoint4(a, b, c, d)) && Encode(CodePoint4(a, b, c, d)) == [a, b, c, d]
  {
    Bits4(a, b, c, d);
    hide SequenceLength, IsCont, CodePoint4, Lead4, Continuation;
  }

  lemma Bits4(a: byte, b: byte, c: byte, d: byte)
    requires SequenceLength(a) == 4 && IsCont(b) && IsCont(c) && IsCont(d)
    ensures var cp := CodePoint4(a, b, c, d);
            Lead4(cp) == a && Continuation(cp, 12) == b && Continuation(cp, 6) == c && Continuation(cp, 0) == d
  {
  }

  lemma Decode1(cp: bv32)
    requires cp < 0x80
    ensures SequenceLength(cp as byte) == 1 && (cp as byte) as bv32 == cp
  {
  }

  lemma Decode2(cp: bv32)
    requires 0x80 <= cp < 0x800
    ensures SequenceLength(Lead2(cp)) == 2 && IsCont(Continuation(cp, 0))
    ensures CodePoint2(Lead2(cp), Continuation(cp, 0)) == cp
  {
  }

  lemma Decode3(cp: bv32)
    requires 0x800 <= cp < 0x10000
    ensures SequenceLength(Lead3(cp)) == 3 && IsCont(Continuation(cp, 6)) && IsCont(Continuation(cp, 0))
    ensures CodePoint3(Lead3(cp), Continuation(cp, 6), Continuation(cp, 0)) == cp
  {
  }

  lemma Decode4(cp: bv32)
    requires 0x10000 <= cp <= 0x10FFFF
    ensures SequenceLength(Lead4(cp)) == 4
    ensures IsCont(Continuation(cp, 12)) && IsCont(Continuation(cp, 6)) && IsCont(Continuation(cp, 0))
    ensures CodePoint4(Lead4(cp), Continuation(cp, 12), Continuation(cp, 6), Continuation(cp, 0)) == cp
  {
  }

  lemma NulIsNoContinuation()
    ensures !IsCont(0)
  {
  }

  /** Bytes that are read are in the text, unless they are NUL. */
  lemma HasBytes(s: bytes, p: nat, e: bytes)
    requires p < |s| && forall k :: 0 <= k < |e| ==> At(s, p + k) == e[k] && (k > 0 ==> e[k] != 0)
    ensures Has(s, p, e)
  {
    if e != [] {
      assert At(s, p + (|e| - 1)) == e[|e| - 1];
      assert s[p..p + |e|] == e;
    }
  }

  /** An accepted sequence is the encoding of one scalar value and lies within the text. */
  lemma VerifySound(s: bytes, p: nat) returns (cp: bv32)
    requires p < |s| && VerifySequence(s, p) != 0
    ensures IsScalar(cp) && Has(s, p, Encode(cp)) && |Encode(cp)| == VerifySequence(s, p)
  {
    hide SequenceLength, IsCont, CodePoint2, CodePoint3, CodePoint4, Encode, Accept, IsScalar, Has;
    var a, b, c, d := At(s, p), At(s, p + 1), At(s, p + 2), At(s, p + 3);
    NulIsNoContinuation();
    var len := SequenceLength(a);
    if len == 1 {
      Recode1(a);
      HasBytes(s, p, [a]);
      AcceptLength(a as bv32, 1);
      cp := a as bv32;
    } else if len == 2 {
      Recode2(a, b);
      HasBytes(s, p, [a, b]);
      AcceptLength(CodePoint2(a, b), 2);
      cp := CodePoint2(a, b);
    } else if len == 3 {
      Recode3(a, b, c);
      HasBytes(s, p, [a, b, c]);
      AcceptLength(CodePoint3(a, b, c), 3);
      cp := CodePoint3(a, b, c);
    } else {
      Recode4(a, b, c, d);
      HasBytes(s, p, [a, b, c, d]);
      AcceptLength(CodePoint4(a, b, c, d), 4);
      cp := CodePoint4(a, b, c, d);
    }
  }

  lemma AcceptLength(cp: bv32, len: nat)
    ensures Accept(cp, len) == 0 || Accept(cp, len) == len
  {
  }

  /** The encoding of any scalar value is accepted in full. */
  lemma VerifyComplete(s: bytes, p: nat, cp: bv32)
    requires IsScalar(cp) && Has(s, p, Encode(cp))
    ensures VerifySequence(s, p) == |Encode(cp)|
  {
    hide SequenceLength, Lead2, Lead3, Lead4, Continuation, IsCont, CodePoint2, CodePoint3, CodePoint4;
    var e := Encode(cp);
    HasAt(s, p, e, 0);
    if cp < 0x80 {
      Decode1(cp);
    } else if cp < 0x800 {
      Decode2(cp);
      HasAt(s, p, e, 1);
    } else if cp < 0x10000 {
      Decode3(cp);
      HasAt(s, p, e, 1);
      HasAt(s, p, e, 2);
    } else {
      Decode4(cp);
      HasAt(s, p, e, 1);
      HasAt(s, p, e, 2);
      HasAt(s, p, e, 3);
    }
  }

  /** Taking an accepted sequence off the front does not change well-formedness. */
  lemma WellFormedStep(s: bytes, p: nat)
    requires p < |s|
    ensures VerifySequence(s, p) == 0 ==> !WellFormed(s[p..])
    ensures VerifySequence(s, p) != 0 ==>
              && p + VerifySequence(s, p) <= |s|
              && (WellFormed(s[p..]) <==> WellFormed(s[p + VerifySequence(s, p)..]))
  {
    hide VerifySequence, Encode, IsScalar;
    var n := VerifySequence(s, p);
    if WellFormed(s[p..]) {
      var cps: seq<bv32> :| AllScalar(cps) && s[p..] == EncodeAll(cps);
      FirstEncoded(s, p, cps);
    }
    if n != 0 {
      var cp := VerifySound(s, p);
      assert s[p..] == s[p..p + n] + s[p + n..];
      if WellFormed(s[p + n..]) {
        PrependEncoded(cp, s[p + n..]);
      }
    }
  }

  lemma PrependEncoded(cp: bv32, rest: bytes)
    requires IsScalar(cp) && WellFormed(rest)
    ensures WellFormed(Encode(cp) + rest)
  {
    hide Encode, IsScalar;
    var cps: seq<bv32> :| AllScalar(cps) && rest == EncodeAll(cps);
    assert ([cp] + cps)[1..] == cps;
    assert Encode(cp) + rest == EncodeAll([cp] + cps);
  }

  lemma FirstEncoded(s: bytes, p: nat, cps: seq<bv32>)
    requires p < |s| && AllScalar(cps) && s[p..] == EncodeAll(cps)
    ensures var n := VerifySequence(s, p); n != 0 && p + n <= |s| && WellFormed(s[p + n..])
  {
    var e, rest := Encode(cps[0]), EncodeAll(cps[1..]);
    assert s[p..][..|e|] == e && s[p..][|e|..] == rest;
    assert s[p..p + |e|] == s[p..][..|e|] && s[p + |e|..] == s[p..][|e|..];
    VerifyComplete(s, p, cps[0]);
  }

  /** Some well-formed text goes from `p` to `length` or beyond. */
  ghost predicate Covered(s: bytes, p: nat, length: nat) {
    exists n :: length <= n <= |s| && p <= n && WellFormed(s[p..n])
  }

  lemma EmptyIsWellFormed()
    ensures WellFormed([])
  {
    assert [] == EncodeAll([]);
  }

  /** One round of the loop does not change whether the length is covered. */
  lemma CoveredStep(s: bytes, p: nat, length: nat)
    requires p < length <= |s|
    ensures VerifySequence(s, p) == 0 ==> !Covered(s, p, length)
    ensures VerifySequence(s, p) != 0 ==>
              && p + VerifySequence(s, p) <= |s|
              && (Covered(s, p, length) <==> Covered(s, p + VerifySequence(s, p), length))
  {
    hide VerifySequence, Encode, IsScalar, WellFormed, Has;
    var v := VerifySequence(s, p);
    if Covered(s, p, length) {
      var n :| length <= n <= |s| && p <= n && WellFormed(s[p..n]);
      SequenceOfPrefix(s, p, n);
      assert p + v <= n && WellFormed(s[p + v..n]);
    }
    if v != 0 {
      var cp := VerifySound(s, p);
      HasEnds(s, p, Encode(cp));
      if Covered(s, p + v, length) {
        var n :| length <= n <= |s| && p + v <= n && WellFormed(s[p + v..n]);
        PrependEncoded(cp, s[p + v..n]);
        assert s[p..n] == s[p..p + v] + s[p + v..n];
      }
    }
  }

  /** A sequence that is accepted in a prefix is accepted in the whole. */
  lemma SequenceOfPrefix(s: bytes, p: nat, n: nat)
    requires p < n <= |s| && WellFormed(s[p..n])
    ensures var v := VerifySequence(s, p); v != 0 && p + v <= n && WellFormed(s[p + v..n])
  {
    hide VerifySequence, Encode, IsScalar, WellFormed, Has;
    var t := s[..n];
    assert t[p..] == s[p..n];
    WellFormedStep(t, p);
    var v := VerifySequence(t, p);
    var cp := VerifySound(t, p);
    HasEnds(t, p, Encode(cp));
    assert s[p..p + v] == t[p..p + v];
    HasThere(s, p, Encode(cp));
    VerifyComplete(s, p, cp);
    assert t[p + v..] == s[p + v..n];
  }

  lemma HasEnds(s: bytes, p: nat, e: bytes)
    requires Has(s, p, e)
    ensures p + |e| <= |s| && s[p..p + |e|] == e
  {
  }

  lemma HasThere(s: bytes, p: nat, e: bytes)
    requires p + |e| <= |s| && s[p..p + |e|] == e
    ensures Has(s, p, e)
  {
  }

  /** `is_valid_utf8` of the first `length` bytes of a C string: accepts exactly when they are covered by well-formed
      text.  For the whole string that is its well-formedness: a sequence cut off by the end of the string is refused
      because the terminating NUL is no continuation byte. */
  method IsValidUtf8(s: bytes, length: nat) returns (valid: bool)
    requires length <= |s|
    ensures valid <==> exists n :: length <= n <= |s| && WellFormed(s[..n])
    ensures length == |s| ==> (valid <==> WellFormed(s))
  {
    hide WellFormed, VerifySequence;
    var p := 0;
    while p < length
      invariant p <= |s|
      invariant Covered(s, 0, length) <==> Covered(s, p, length)
      decreases |s| - p
    {
      CoveredStep(s, p, length);
      var len := VerifySequence(s, p);
      if len == 0 {
        FromStart(s, length);
        return false;
      }
      p := p + len;
    }
    EmptyIsWellFormed();
    assert s[p..p] == [];
    FromStart(s, length);
    return true;
  }

  lemma FromStart(s: bytes, length: nat)
    requires length <= |s|
    ensures Covered(s, 0, length) <==> exists n :: length <= n <= |s| && WellFormed(s[..n])
    ensures length == |s| ==> (Covered(s, 0, length) <==> WellFormed(s))
  {
    hide WellFormed;
    forall n | 0 <= n <= |s|
      ensures s[0..n] == s[..n]
    {
    }
    assert s[..|s|] == s;
    if WellFormed(s) {
      assert WellFormed(s[0..|s|]);
    }
    if Covered(s, 0, length) {
      var n :| length <= n <= |s| && WellFormed(s[0..n]);
      assert WellFormed(s[..n]);
    }
  }

  lemma SequenceBytes(s: bytes, p: nat)
    requires VerifySequence(s, p) != 0
    ensures !IsCont(At(s, p)) && forall q :: p < q < p + VerifySequence(s, p) ==> IsCont(At(s, q))
  {
    hide IsCont, CodePoint2, CodePoint3, CodePoint4;
  }

  /** A well-formed text may be cut exactly in front of the bytes that are no continuation bytes. */
  lemma {:induction false} CutsAtSequences(s: bytes, p: nat, length: nat)
    requires p <= length < |s| && WellFormed(s[p..])
    ensures WellFormed(s[p..length]) <==> !IsCont(s[length])
    decreases |s| - p
  {
    hide VerifySequence, IsCont, WellFormed;
    WellFormedStep(s, p);
    SequenceBytes(s, p);
    var v := VerifySequence(s, p);
    if length == p {
      EmptyIsWellFormed();
      assert s[p..p] == [];
    } else {
      if WellFormed(s[p..length]) {
        SequenceOfPrefix(s, p, length);
      }
      if length < p + v {
        assert IsCont(At(s, length));
      } else {
        CutsAtSequences(s, p + v, length);
        if WellFormed(s[p + v..length]) {
          var cp := VerifySound(s, p);
          PrependEncoded(cp, s[p + v..length]);
          assert s[p..length] == s[p..p + v] + s[p + v..length];
        }
      }
    }
  }

  /** The check is about the bytes before `length` whenever no continuation byte follows them, as at the end of a C
      string.  Otherwise exactly a length inside a sequence is accepted without their being well-formed. */
  lemma CheckIsExact(s: bytes, length: nat)
    requires length <= |s|
    ensures length == |s| || !IsCont(s[length]) ==>
              ((exists n :: length <= n <= |s| && WellFormed(s[..n])) <==> WellFormed(s[..length]))
    ensures length < |s| && IsCont(s[length]) ==>
              ((exists n :: length <= n <= |s| && WellFormed(s[..n])) && !WellFormed(s[..length]) <==>
               exists n :: length < n <= |s| && WellFormed(s[..n]))
  {
    hide WellFormed, IsCont;
    forall n | length < n <= |s| && WellFormed(s[..n])
      ensures WellFormed(s[..length]) <==> !IsCont(s[length])
    {
      var t := s[..n];
      assert t[0..] == t && t[0..length] == s[..length];
      CutsAtSequences(t, 0, length);
    }
  }

  /** A length that cuts a sequence in two is accepted, although the bytes up to it are not well-formed: the check looks
      at the bytes behind them. */
  lemma CutSequenceIsAccepted()
    ensures var s: bytes := [0xC3, 0xA9];
            WellFormed(s) && (exists n :: 1 <= n <= |s| && WellFormed(s[..n])) && !WellFormed(s[..1])
  {
    var s: bytes := [0xC3, 0xA9];
    assert Encode(0xE9) == s;
    EmptyIsWellFormed();
    PrependEncoded(0xE9, []);
    assert s + [] == s && s[..2] == s;
    assert WellFormed(s[..2]);
    WellFormedStep(s[..1], 0);
    assert s[..1][0..] == s[..1];
  }
}
