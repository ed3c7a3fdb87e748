/** The bytes of a C string.  A text is the sequence of bytes in front of the terminating NUL;
    reading at or past its end yields that NUL, as it does in C. */
module Bytes {
  type byte = bv8
  type bytes = seq<byte>

  function At(s: bytes, p: nat): byte {
    if p < |s| then s[p] else 0
  }

  /** A member name: the C code keeps names as NUL-terminated strings. */
  predicate NulFree(s: bytes) {
    0 !in s
  }

  /** The bytes of `s` stand in `t` from position `p` on. */
  predicate Has(t: bytes, p: nat, s: bytes) {
    p + |s| <= |t| && t[p..p + |s|] == s
  }

  lemma HasConcat(t: bytes, p: nat, a: bytes, b: bytes)
    ensures Has(t, p, a + b) <==> Has(t, p, a) && Has(t, p + |a|, b)
  {
    if Has(t, p, a + b) {
      assert t[p..p + |a|] == (a + b)[..|a|];
      assert t[p + |a|..p + |a| + |b|] == (a + b)[|a|..];
    }
    if Has(t, p, a) && Has(t, p + |a|, b) {
      assert t[p..p + |a + b|] == t[p..p + |a|] + t[p + |a|..p + |a| + |b|];
    }
  }

  lemma HasAt(t: bytes, p: nat, s: bytes, k: nat)
    requires Has(t, p, s) && k < |s|
    ensures At(t, p + k) == s[k]
  {
    assert s[k] == t[p..p + |s|][k];
  }

  /** A text `done + whole` whose second part starts with `piece`. */
  lemma Regroup(done: bytes, piece: bytes, rest: bytes, whole: bytes)
    requires whole == piece + rest
    ensures (done + piece) + rest == done + whole
  {
  }

  lemma Parts(a: bytes, b: bytes)
    ensures (a + b)[..|a|] == a && (a + b)[|a|..] == b
  {
  }

  lemma EmptyParts(s: bytes)
    ensures [] + s == s && s + [] == s
  {
  }
}
