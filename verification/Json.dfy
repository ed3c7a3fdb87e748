/** JSON values, and the C library's conversions between numbers and text. */
module Json {
  import opened Assoc
  import opened Bytes

  const MAX_NESTING: nat := 2048

  datatype Value =
    | Null
    | Boolean(flag: bool)
    | Number(number: real)
    | String(chars: bytes)
    | Array(items: seq<Value>)
    | Object(members: seq<Entry<bytes, Value>>)

  type Members = seq<Entry<bytes, Value>>

  /** How many containers enclose the innermost element, not counting empty containers themselves. */
  function Depth(v: Value): nat
    decreases v, 1
  {
    match v
    case Array(items) => if items == [] then 0 else 1 + ItemsDepth(items)
    case Object(members) => if members == [] then 0 else 1 + MembersDepth(members)
    case _ => 0
  }

  function ItemsDepth(items: seq<Value>): nat
    decreases items, 0
  {
    if items == [] then 0 else Max(Depth(items[0]), ItemsDepth(items[1..]))
  }

  function MembersDepth(members: Members): nat
    decreases members, 0
  {
    if members == [] then 0 else Max(MemberDepth(members[0]), MembersDepth(members[1..]))
  }

  function MemberDepth(member: Entry<bytes, Value>): nat
    decreases member, 2
  {
    Depth(member.value)
  }

  function Max(a: nat, b: nat): nat {
    if a > b then a else b
  }

  /** The result of `strtod`: the number, the end of what was read, and whether it is finite and in range. */
  datatype Reading = Reading(number: real, end: nat, ok: bool)

  ghost predicate StaysInside(f: (bytes, nat) -> Reading) {
    forall t: bytes, p: nat :: p <= |t| ==> p <= f(t, p).end <= |t|
  }

  /** `strtod` is code outside the repository: any function that reads within the text. */
  type Strtod = f: (bytes, nat) -> Reading | StaysInside(f)
    witness (t: bytes, p: nat) => Reading(0.0, p, true)

  /** `is_decimal`. */
  predicate IsDecimal(s: bytes) {
    && !(|s| > 1 && s[0] == 0x30 && s[1] != 0x2E)
    && !(|s| > 2 && s[0] == 0x2D && s[1] == 0x30 && s[2] != 0x2E)
    && forall k :: 0 <= k < |s| ==> s[k] != 0x78 && s[k] != 0x58 && s[k] != 0
  }

  /** The bytes that can follow a number: NUL , ] } / and white space. */
  predicate EndsNumber(c: byte) {
    c == 0 || c == 0x2C || c == 0x2F || c == 0x5D || c == 0x7D || c == 0x20 || 0x09 <= c <= 0x0D
  }

  predicate StartsNumber(c: byte) {
    c == 0x2D || 0x30 <= c <= 0x39
  }

  /** `format` and `strtod` agree on the number `x`: its printed form is a decimal that reads back as `x`. */
  ghost predicate Faithful(format: real -> bytes, strtod: Strtod, x: real) {
    var s := format(x);
    && s != [] && StartsNumber(s[0]) && IsDecimal(s)
    && forall t: bytes, p: nat :: Has(t, p, s) && EndsNumber(At(t, p + |s|)) ==>
         strtod(t, p) == Reading(x, p + |s|, true)
  }

  /** What holds of every value the library builds: the member names of an object are distinct C strings. */
  ghost predicate WellNamed(v: Value)
    decreases v
  {
    match v
    case Array(items) => forall i :: 0 <= i < |items| ==> WellNamed(items[i])
    case Object(members) =>
      && Distinct(members)
      && forall i :: 0 <= i < |members| ==> NulFree(members[i].name) && WellNamed(members[i].value)
    case _ => true
  }

  /** All numbers of the value survive printing and reading. */
  ghost predicate Printable(v: Value, format: real -> bytes, strtod: Strtod)
    decreases v
  {
    match v
    case Number(x) => Faithful(format, strtod, x)
    case Array(items) => forall i :: 0 <= i < |items| ==> Printable(items[i], format, strtod)
    case Object(members) => forall i :: 0 <= i < |members| ==> Printable(members[i].value, format, strtod)
    case _ => true
  }

  ghost predicate Proper(v: Value, format: real -> bytes, strtod: Strtod) {
    WellNamed(v) && Printable(v, format, strtod)
  }
}
