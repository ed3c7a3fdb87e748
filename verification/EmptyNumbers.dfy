/** Numbers that `strtod` reads nothing of: the parser accepts them without moving its cursor. */
module EmptyNumbers {
  import opened Assoc
  import opened Bytes
  import opened DecimalNumbers
  import opened Json
  import opened Parser
  import opened Serializer
  import opened StringLiteral
  import opened Wrappers

  /** At the value behind `p` stands what looks like a number, but `strtod` reads nothing of it. */
  predicate Stalls(t: bytes, p: nat, strtod: Strtod)
    requires p <= |t|
  {
    var start := SkipSpaces(t, p);
    StartsNumber(At(t, start)) && strtod(t, start).end == start
  }

  /** The concrete case: a lone minus sign is the number 0, and nothing of the text is consumed. */
  lemma LoneMinus()
    ensures ParseText([0x2D], ReadInteger) == Some((Number(0.0), 0))
  {
    var t: bytes := [0x2D];
    assert !Has(t, 0, BOM);
    assert SkipSpaces(t, 0) == 0 && ReadDigits(t, 1, 0) == (0, 1);
  }

  /** Exactly these values end where they start. */
  lemma StallsExactly(t: bytes, p: nat, nesting: nat, strtod: Strtod)
    requires p <= |t| && ParseValue(t, p, nesting, strtod).Some?
    ensures ParseValue(t, p, nesting, strtod).value.1 == SkipSpaces(t, p) <==> Stalls(t, p, strtod)
  {
    hide ParseMembers, ParseItems, QuotedString, IsDecimal, SkipSpaces;
  }

  /** Neither a comma nor a closing bracket follows such a value. */
  lemma NothingFollows(t: bytes, p: nat, strtod: Strtod)
    requires p <= |t| && Stalls(t, p, strtod)
    ensures var start := SkipSpaces(t, p);
            SkipSpaces(t, start) == start && At(t, start) !in {COMMA, CLOSE_BRACKET, CLOSE_BRACE}
  {
  }

  /** A conversion that refuses such numbers. */
  function Strict(strtod: Strtod): Strtod {
    (t: bytes, p: nat) => var r := strtod(t, p); if r.end == p then Reading(r.number, p, false) else r
  }

  /** Inside a container such a number never gets through: a parser that refuses them accepts the same values, except
      where the whole value is one. */
  lemma {:induction false} StrictAgrees(t: bytes, p: nat, nesting: nat, strtod: Strtod)
    requires p <= |t|
    ensures ParseValue(t, p, nesting, Strict(strtod)) ==
            if Stalls(t, p, strtod) then None else ParseValue(t, p, nesting, strtod)
    decreases |t| - p, 2
  {
    hide ParseMembers, ParseItems, QuotedString, IsDecimal, SkipSpaces;
    var start := SkipSpaces(t, p);
    if At(t, start) == OPEN_BRACE {
      MembersAgree(t, SkipSpaces(t, start + 1), nesting + 1, strtod, []);
    } else if At(t, start) == OPEN_BRACKET {
      ItemsAgree(t, SkipSpaces(t, start + 1), nesting + 1, strtod, []);
    }
  }

  lemma {:induction false} ItemsAgree(t: bytes, p: nat, nesting: nat, strtod: Strtod, items: seq<Value>)
    requires p <= |t|
    ensures var loose := ParseItems(t, p, nesting, strtod, items);
            var strict := ParseItems(t, p, nesting, Strict(strtod), items);
            loose == strict || (strict == None && loose.Some? && At(t, SkipSpaces(t, loose.value.1)) != CLOSE_BRACKET)
    decreases |t| - p, 3
  {
    hide ParseValue, Strict, SkipSpaces, Stalls;
    if At(t, p) != 0 {
      StrictAgrees(t, p, nesting, strtod);
      var parsed := ParseValue(t, p, nesting, strtod);
      if parsed.Some? {
        StallsExactly(t, p, nesting, strtod);
        if Stalls(t, p, strtod) {
          NothingFollows(t, p, strtod);
        }
        var comma := SkipSpaces(t, parsed.value.1);
        if !Stalls(t, p, strtod) && At(t, comma) == COMMA && At(t, SkipSpaces(t, comma + 1)) != CLOSE_BRACKET {
          ItemsAgree(t, SkipSpaces(t, comma + 1), nesting, strtod, items + [parsed.value.0]);
        }
      }
    }
  }

  lemma {:induction false} MembersAgree(t: bytes, p: nat, nesting: nat, strtod: Strtod, members: Members)
    requires p <= |t|
    ensures var loose := ParseMembers(t, p, nesting, strtod, members);
            var strict := ParseMembers(t, p, nesting, Strict(strtod), members);
            loose == strict || (strict == None && loose.Some? && At(t, SkipSpaces(t, loose.value.1)) != CLOSE_BRACE)
    decreases |t| - p, 3
  {
    hide ParseValue, Strict, QuotedString, NulFree, Add, SkipSpaces, Stalls;
    if At(t, p) != 0 && QuotedString(t, p).Some? {
      var (key, q) := QuotedString(t, p).value;
      var colon := SkipSpaces(t, q);
      if At(t, colon) == COLON {
        StrictAgrees(t, colon + 1, nesting, strtod);
        var parsed := ParseValue(t, colon + 1, nesting, strtod);
        if parsed.Some? {
          StallsExactly(t, colon + 1, nesting, strtod);
          if Stalls(t, colon + 1, strtod) {
            NothingFollows(t, colon + 1, strtod);
          }
          var comma, extended := SkipSpaces(t, parsed.value.1), Add(members, key, parsed.value.0);
          var next := SkipSpaces(t, comma + 1);
          if extended.Some? && !Stalls(t, colon + 1, strtod) && At(t, comma) == COMMA && At(t, next) != CLOSE_BRACE {
            MembersAgree(t, next, nesting, strtod, extended.value);
          }
        }
      }
    }
  }

  /** So it is accepted as a whole document only. */
  lemma OnlyAsDocument(t: bytes, strtod: Strtod)
    ensures var start := if Has(t, 0, BOM) then |BOM| else 0;
            ParseText(t, Strict(strtod)) == if Stalls(t, start, strtod) then None else ParseText(t, strtod)
  {
    StrictAgrees(t, if Has(t, 0, BOM) then |BOM| else 0, 0, strtod);
  }
}
