/** The parser: `parse_value` and what it calls, as functions of the text and a position. */
module Parser {
  import opened Assoc
  import opened Bytes
  import opened Json
  import opened Serializer
  import opened StringLiteral
  import opened Wrappers

  /** `isspace` in the C locale. */
  predicate IsSpace(c: byte) {
    c == SPACE || 0x09 <= c <= 0x0D
  }

  /** SKIP_WHITESPACES. */
  function SkipSpaces(t: bytes, p: nat): (q: nat)
    ensures p <= q && (p <= |t| ==> q <= |t|) && !IsSpace(At(t, q))
    decreases |t| - p
  {
    if IsSpace(At(t, p)) then SkipSpaces(t, p + 1) else p
  }

  function ParseValue(t: bytes, start: nat, nesting: nat, strtod: Strtod): (r: Option<(Value, nat)>)
    requires start <= |t|
    ensures r.Some? ==> start <= r.value.1 <= |t|
    decreases |t| - start, 2
  {
    if nesting > MAX_NESTING then None
    else
      var p := SkipSpaces(t, start);
      var c := At(t, p);
      if c == OPEN_BRACE then ParseObject(t, p, nesting + 1, strtod)
      else if c == OPEN_BRACKET then ParseArray(t, p, nesting + 1, strtod)
      else if c == QUOTE then ParseString(t, p)
      else if c == 0x66 || c == 0x74 then ParseBoolean(t, p)
      else if StartsNumber(c) then ParseNumber(t, p, strtod)
      else if c == 0x6E then ParseNull(t, p)
      else None
  }

  function ParseObject(t: bytes, p: nat, nesting: nat, strtod: Strtod): (r: Option<(Value, nat)>)
    requires p < |t| && At(t, p) == OPEN_BRACE
    ensures r.Some? ==> p < r.value.1 <= |t|
    decreases |t| - p, 1
  {
    var q := SkipSpaces(t, p + 1);
    if At(t, q) == CLOSE_BRACE then Some((Object([]), q + 1))
    else match ParseMembers(t, q, nesting, strtod, [])
      case None => None
      case Some((members, stop)) =>
        var end := SkipSpaces(t, stop);
        if At(t, end) != CLOSE_BRACE then None else Some((Object(members), end + 1))
  }

  /** The member loop of `parse_object_value`, with the members read so far. */
  function ParseMembers(t: bytes, p: nat, nesting: nat, strtod: Strtod, members: Members): (r: Option<(Members, nat)>)
    requires p <= |t|
    ensures r.Some? ==> p <= r.value.1 <= |t|
    decreases |t| - p, 3
  {
    if At(t, p) == 0 then Some((members, p))
    else match QuotedString(t, p)
      case None => None
      case Some((key, q)) =>
        if !NulFree(key) then None
        else
          var colon := SkipSpaces(t, q);
          if At(t, colon) != COLON then None
          else match ParseValue(t, colon + 1, nesting, strtod)
            case None => None
            case Some((value, stop)) =>
              match Add(members, key, value)
              case None => None
              case Some(extended) =>
                var comma := SkipSpaces(t, stop);
                if At(t, comma) != COMMA then Some((extended, comma))
                else
                  var next := SkipSpaces(t, comma + 1);
                  if At(t, next) == CLOSE_BRACE then Some((extended, next))
                  else ParseMembers(t, next, nesting, strtod, extended)
  }

  function ParseArray(t: bytes, p: nat, nesting: nat, strtod: Strtod): (r: Option<(Value, nat)>)
    requires p < |t| && At(t, p) == OPEN_BRACKET
    ensures r.Some? ==> p < r.value.1 <= |t|
    decreases |t| - p, 1
  {
    var q := SkipSpaces(t, p + 1);
    if At(t, q) == CLOSE_BRACKET then Some((Array([]), q + 1))
    else match ParseItems(t, q, nesting, strtod, [])
      case None => None
      case Some((items, stop)) =>
        var end := SkipSpaces(t, stop);
        if At(t, end) != CLOSE_BRACKET then None else Some((Array(items), end + 1))
  }

  /** The element loop of `parse_array_value`, with the elements read so far. */
  function ParseItems(t: bytes, p: nat, nesting: nat, strtod: Strtod, items: seq<Value>): (r: Option<(seq<Value>, nat)>)
    requires p <= |t|
    ensures r.Some? ==> p <= r.value.1 <= |t|
    decreases |t| - p, 3
  {
    if At(t, p) == 0 then Some((items, p))
    else match ParseValue(t, p, nesting, strtod)
      case None => None
      case Some((value, stop)) =>
        var comma := SkipSpaces(t, stop);
        if At(t, comma) != COMMA then Some((items + [value], comma))
        else
          var next := SkipSpaces(t, comma + 1);
          if At(t, next) == CLOSE_BRACKET then Some((items + [value], next))
          else ParseItems(t, next, nesting, strtod, items + [value])
  }

  function ParseString(t: bytes, p: nat): (r: Option<(Value, nat)>)
    ensures r.Some? ==> p < r.value.1 <= |t|
  {
    match QuotedString(t, p) case None => None case Some((s, q)) => Some((String(s), q))
  }

  function ParseBoolean(t: bytes, p: nat): (r: Option<(Value, nat)>)
    ensures r.Some? ==> p < r.value.1 <= |t|
  {
    if Has(t, p, TRUE_TOKEN) then Some((Boolean(true), p + |TRUE_TOKEN|))
    else if Has(t, p, FALSE_TOKEN) then Some((Boolean(false), p + |FALSE_TOKEN|))
    else None
  }

  /** A number literal of which `strtod` reads nothing is accepted as well. */
  function ParseNumber(t: bytes, p: nat, strtod: Strtod): (r: Option<(Value, nat)>)
    requires p <= |t|
    ensures r.Some? ==> p <= r.value.1 <= |t|
  {
    var reading := strtod(t, p);
    if !reading.ok || !IsDecimal(t[p..reading.end]) then None
    else Some((Number(reading.number), reading.end))
  }

  function ParseNull(t: bytes, p: nat): (r: Option<(Value, nat)>)
    ensures r.Some? ==> p < r.value.1 <= |t|
  {
    if Has(t, p, NULL_TOKEN) then Some((Null, p + |NULL_TOKEN|)) else None
  }

  const BOM: bytes := [0xEF, 0xBB, 0xBF]

  /** `json_parse_string`: the first value of the text, and the position behind it. */
  function ParseText(t: bytes, strtod: Strtod): Option<(Value, nat)> {
    ParseValue(t, if Has(t, 0, BOM) then |BOM| else 0, 0, strtod)
  }
}
