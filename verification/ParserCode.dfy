/** The parser as the C code runs it: a cursor that moves through the text, and loops that fill containers. */
module ParserCode {
  import opened Assoc
  import opened Bytes
  import opened Json
  import opened Parser
  import opened Serializer
  import opened StringLiteral
  import opened Wrappers

  /** SKIP_WHITESPACES. */
  method SkipWhitespaces(t: bytes, p: nat) returns (cursor: nat)
    requires p <= |t|
    ensures cursor == SkipSpaces(t, p)
  {
    cursor := p;
    while IsSpace(At(t, cursor))
      invariant p <= cursor <= |t| && SkipSpaces(t, p) == SkipSpaces(t, cursor)
      decreases |t| - cursor
    {
      cursor := cursor + 1;
    }
  }

  /** `json_parse_string`. */
  method JsonParseString(t: bytes, strtod: Strtod) returns (result: Option<(Value, nat)>)
    ensures result == ParseText(t, strtod)
  {
    var cursor := 0;
    if At(t, 0) == 0xEF && At(t, 1) == 0xBB && At(t, 2) == 0xBF {
      assert t[0..3] == BOM;
      cursor := 3;
    } else if Has(t, 0, BOM) {
      HasAt(t, 0, BOM, 0);
      HasAt(t, 0, BOM, 1);
      HasAt(t, 0, BOM, 2);
      assert false;
    }
    result := JsonParseValue(t, cursor, 0, strtod);
  }

  /** `parse_value`. */
  method JsonParseValue(t: bytes, start: nat, nesting: nat, strtod: Strtod) returns (result: Option<(Value, nat)>)
    requires start <= |t|
    ensures result == ParseValue(t, start, nesting, strtod)
    decreases |t| - start, 2
  {
    hide ParseObject, ParseArray, QuotedString, IsDecimal;
    if nesting > MAX_NESTING {
      return None;
    }
    var cursor := SkipWhitespaces(t, start);
    var c := At(t, cursor);
    if c == OPEN_BRACE {
      result := JsonParseObject(t, cursor, nesting + 1, strtod);
    } else if c == OPEN_BRACKET {
      result := JsonParseArray(t, cursor, nesting + 1, strtod);
    } else if c == QUOTE {
      var quoted := GetQuotedString(t, cursor);
      if quoted.None? {
        return None;
      }
      result := Some((String(quoted.value.0), quoted.value.1));
    } else if c == 0x66 || c == 0x74 {
      result := ParseBoolean(t, cursor);
    } else if StartsNumber(c) {
      result := ParseNumber(t, cursor, strtod);
    } else if c == 0x6E {
      result := ParseNull(t, cursor);
    } else {
      result := None;
    }
  }

  /** `parse_object_value`. */
  method JsonParseObject(t: bytes, start: nat, nesting: nat, strtod: Strtod) returns (result: Option<(Value, nat)>)
    requires start < |t| && At(t, start) == OPEN_BRACE
    ensures result == ParseObject(t, start, nesting, strtod)
    decreases |t| - start, 1
  {
    hide ParseMembers, SkipSpaces;
    var cursor := SkipWhitespaces(t, start + 1);
    if At(t, cursor) == CLOSE_BRACE {
      return Some((Object([]), cursor + 1));
    }
    var parsed := JsonParseMembers(t, cursor, nesting, strtod);
    if parsed.None? {
      return None;
    }
    cursor := SkipWhitespaces(t, parsed.value.1);
    if At(t, cursor) != CLOSE_BRACE {
      return None;
    }
    return Some((Object(parsed.value.0), cursor + 1));
  }

  /** The loop of `parse_object_value`. */
  method JsonParseMembers(t: bytes, start: nat, nesting: nat, strtod: Strtod) returns (result: Option<(Members, nat)>)
    requires start <= |t|
    ensures result == ParseMembers(t, start, nesting, strtod, [])
    decreases |t| - start, 3
  {
    hide ParseValue, QuotedString, NulFree, Add, SkipSpaces;
    var cursor := start;
    var members: Members := [];
    while At(t, cursor) != 0
      invariant start <= cursor <= |t|
      invariant ParseMembers(t, start, nesting, strtod, []) == ParseMembers(t, cursor, nesting, strtod, members)
      decreases |t| - cursor
    {
      var quoted := GetQuotedString(t, cursor);
      if quoted.None? || !NulFree(quoted.value.0) {
        return None;
      }
      var newKey := quoted.value.0;
      cursor := SkipWhitespaces(t, quoted.value.1);
      if At(t, cursor) != COLON {
        return None;
      }
      var parsed := JsonParseValue(t, cursor + 1, nesting, strtod);
      if parsed.None? {
        return None;
      }
      var added := Add(members, newKey, parsed.value.0);
      if added.None? {
        return None;
      }
      members := added.value;
      cursor := SkipWhitespaces(t, parsed.value.1);
      if At(t, cursor) != COMMA {
        return Some((members, cursor));
      }
      cursor := SkipWhitespaces(t, cursor + 1);
      if At(t, cursor) == CLOSE_BRACE {
        return Some((members, cursor));
      }
    }
    return Some((members, cursor));
  }

  /** `parse_array_value`. */
  method JsonParseArray(t: bytes, start: nat, nesting: nat, strtod: Strtod) returns (result: Option<(Value, nat)>)
    requires start < |t| && At(t, start) == OPEN_BRACKET
    ensures result == ParseArray(t, start, nesting, strtod)
    decreases |t| - start, 1
  {
    hide ParseItems, SkipSpaces;
    var cursor := SkipWhitespaces(t, start + 1);
    if At(t, cursor) == CLOSE_BRACKET {
      return Some((Array([]), cursor + 1));
    }
    var parsed := JsonParseItems(t, cursor, nesting, strtod);
    if parsed.None? {
      return None;
    }
    cursor := SkipWhitespaces(t, parsed.value.1);
    if At(t, cursor) != CLOSE_BRACKET {
      return None;
    }
    return Some((Array(parsed.value.0), cursor + 1));
  }

  /** The loop of `parse_array_value`. */
  method JsonParseItems(t: bytes, start: nat, nesting: nat, strtod: Strtod) returns (result: Option<(seq<Value>, nat)>)
    requires start <= |t|
    ensures result == ParseItems(t, start, nesting, strtod, [])
    decreases |t| - start, 3
  {
    hide ParseValue, SkipSpaces;
    var cursor := start;
    var items: seq<Value> := [];
    while At(t, cursor) != 0
      invariant start <= cursor <= |t|
      invariant ParseItems(t, start, nesting, strtod, []) == ParseItems(t, cursor, nesting, strtod, items)
      decreases |t| - cursor
    {
      var parsed := JsonParseValue(t, cursor, nesting, strtod);
      if parsed.None? {
        return None;
      }
      items := items + [parsed.value.0];
      cursor := SkipWhitespaces(t, parsed.value.1);
      if At(t, cursor) != COMMA {
        return Some((items, cursor));
      }
      cursor := SkipWhitespaces(t, cursor + 1);
      if At(t, cursor) == CLOSE_BRACKET {
        return Some((items, cursor));
      }
    }
    return Some((items, cursor));
  }
}
