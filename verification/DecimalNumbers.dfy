/** The library's number text for integers: "%1.17g" prints an integer of magnitude up to 2^53 as its decimal
    digits, and `strtod` reads such digits back.  These are the integer parts of the two C functions. */
module DecimalNumbers {
  import opened Bytes
  import opened Json

  const MINUS: byte := 0x2D
  const EXACT: int := 0x20_0000_0000_0000

  function DigitByte(d: nat): byte
    requires d < 10
  {
    if d == 0 then 0x30 else if d == 1 then 0x31 else if d == 2 then 0x32 else if d == 3 then 0x33
    else if d == 4 then 0x34 else if d == 5 then 0x35 else if d == 6 then 0x36 else if d == 7 then 0x37
    else if d == 8 then 0x38 else 0x39
  }

  /** The value of a digit, or 10 for any other byte. */
  function DigitValue(c: byte): (d: nat)
    ensures d <= 10
  {
    if c == 0x30 then 0 else if c == 0x31 then 1 else if c == 0x32 then 2 else if c == 0x33 then 3
    else if c == 0x34 then 4 else if c == 0x35 then 5 else if c == 0x36 then 6 else if c == 0x37 then 7
    else if c == 0x38 then 8 else if c == 0x39 then 9 else 10
  }

  function Digits(n: nat): (s: bytes)
    ensures s != []
  {
    if n < 10 then [DigitByte(n)] else Digits(n / 10) + [DigitByte(n % 10)]
  }

  function FormatInteger(x: real): bytes {
    if x.Floor as real == x then Decimal(x.Floor) else []
  }

  function Decimal(n: int): bytes {
    if n < 0 then [MINUS] + Digits(-n) else Digits(n)
  }

  /** The digits from `p` on, behind a prefix of value `value`. */
  function ReadDigits(t: bytes, p: nat, value: nat): (r: (nat, nat))
    ensures p <= r.1 && (p <= |t| ==> r.1 <= |t|)
    decreases |t| - p
  {
    var d := DigitValue(At(t, p));
    if d < 10 then ReadDigits(t, p + 1, 10 * value + d) else (value, p)
  }

  function ReadInteger(t: bytes, p: nat): Reading {
    var start := if At(t, p) == MINUS then p + 1 else p;
    var (value, end) := ReadDigits(t, start, 0);
    if end == start then Reading(0.0, p, true)
    else
      var magnitude: int := value;
      Reading((if start == p then magnitude else -magnitude) as real, end, true)
  }

  lemma DigitInverse(d: nat)
    requires d < 10
    ensures DigitValue(DigitByte(d)) == d && StartsNumber(DigitByte(d))
    ensures DigitByte(d) != MINUS && (DigitByte(d) == 0x30 <==> d == 0)
    ensures DigitByte(d) != 0x78 && DigitByte(d) != 0x58 && DigitByte(d) != 0
  {
  }

  /** Reading the digits of `n` yields `n`, or goes on from `n` when more digits follow. */
  lemma {:induction false} ReadsDigits(t: bytes, p: nat, n: nat)
    requires Has(t, p, Digits(n))
    ensures ReadDigits(t, p, 0) == ReadDigits(t, p + |Digits(n)|, n)
    ensures DigitValue(At(t, p)) < 10
    decreases n
  {
    if n < 10 {
      DigitInverse(n);
      HasAt(t, p, Digits(n), 0);
    } else {
      HasConcat(t, p, Digits(n / 10), [DigitByte(n % 10)]);
      ReadsDigits(t, p, n / 10);
      DigitInverse(n % 10);
      HasAt(t, p + |Digits(n / 10)|, [DigitByte(n % 10)], 0);
    }
  }

  lemma {:induction false} DigitsAreDecimal(n: nat)
    ensures StartsNumber(Digits(n)[0]) && Digits(n)[0] != MINUS
    ensures Digits(n)[0] == 0x30 <==> n == 0
    ensures n < 10 ==> |Digits(n)| == 1
    ensures forall k :: 0 <= k < |Digits(n)| ==> var c := Digits(n)[k]; c != 0x78 && c != 0x58 && c != 0
  {
    DigitInverse(n % 10);
    if n >= 10 {
      DigitsAreDecimal(n / 10);
    }
  }

  lemma DecimalIsDecimal(n: int)
    ensures var s := Decimal(n); s != [] && StartsNumber(s[0]) && IsDecimal(s)
  {
    DigitsAreDecimal(if n < 0 then -n else n);
  }

  lemma ReadsDecimal(t: bytes, p: nat, n: int)
    requires Has(t, p, Decimal(n)) && EndsNumber(At(t, p + |Decimal(n)|))
    ensures ReadInteger(t, p) == Reading(n as real, p + |Decimal(n)|, true)
  {
    hide Has, ReadDigits, Digits, EndsNumber;
    SignByte(t, p, n);
    if n < 0 {
      HasConcat(t, p, [MINUS], Digits(-n));
      ReadsAllDigits(t, p + 1, -n);
    } else {
      ReadsAllDigits(t, p, n);
    }
  }

  lemma ReadsAllDigits(t: bytes, p: nat, n: nat)
    requires Has(t, p, Digits(n)) && EndsNumber(At(t, p + |Digits(n)|))
    ensures ReadDigits(t, p, 0) == (n, p + |Digits(n)|)
  {
    hide Has, Digits;
    ReadsDigits(t, p, n);
  }

  lemma SignByte(t: bytes, p: nat, n: int)
    requires Has(t, p, Decimal(n))
    ensures At(t, p) == MINUS <==> n < 0
  {
    DigitsAreDecimal(if n < 0 then -n else n);
    HasAt(t, p, Decimal(n), 0);
  }

  /** Every integer of magnitude up to 2^53 survives printing and reading. */
  lemma IntegersAreFaithful(n: int)
    requires -EXACT <= n <= EXACT
    ensures Faithful(FormatInteger, ReadInteger, n as real)
  {
    hide Decimal, ReadInteger, IsDecimal, EndsNumber, Has;
    DecimalIsDecimal(n);
    FormatsDecimal(n);
    forall t: bytes, p: nat | Has(t, p, Decimal(n)) && EndsNumber(At(t, p + |Decimal(n)|))
      ensures ReadInteger(t, p) == Reading(n as real, p + |Decimal(n)|, true)
    {
      ReadsDecimal(t, p, n);
    }
  }

  lemma FormatsDecimal(n: int)
    ensures FormatInteger(n as real) == Decimal(n)
  {
    assert (n as real).Floor == n;
  }
}
