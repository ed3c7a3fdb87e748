/** Which texts spell which values, read off the bytes alone, and that exactly these are parsed. */
module Grammar {
  import opened Assoc
  import opened Bytes
  import opened Json
  import opened LiteralGrammar
  import opened Parser
  import opened RoundTrip
  import opened Serializer
  import opened StringLiteral
  import opened Wrappers

  // ---------- the grammar ----------

  predicate White(c: byte) {
    c == 0x20 || c == 0x09 || c == 0x0A || c == 0x0B || c == 0x0C || c == 0x0D
  }

  /** There is only white space from `p` to `q`. */
  predicate Blank(t: bytes, p: nat, q: nat) {
    p <= q && forall k :: p <= k < q ==> White(At(t, k))
  }

  /** The byte `c` with white space in front of it. */
  predicate Sign(t: bytes, p: nat, q: nat, c: byte) {
    p < q && Blank(t, p, q - 1) && At(t, q - 1) == c
  }

  /** A closing bracket, in front of which one more comma may stand. */
  ghost predicate Closing(t: bytes, p: nat, q: nat, c: byte) {
    Sign(t, p, q, c) || exists k: nat :: Sign(t, p, k, 0x2C) && Sign(t, k, q, c)
  }

  predicate Word(t: bytes, p: nat, q: nat, word: bytes) {
    q == p + |word| && forall k :: 0 <= k < |word| ==> At(t, p + k) == word[k]
  }

  /** A number: `strtod` reads it and stops at `q`, it holds no x, and no digit follows a leading zero. */
  predicate SpellsNumber(t: bytes, p: nat, q: nat, x: real, strtod: Strtod) {
    var digits := if At(t, p) == 0x2D then p + 1 else p;
    && (At(t, p) == 0x2D || 0x30 <= At(t, p) <= 0x39)
    && strtod(t, p) == Reading(x, q, true)
    && (At(t, digits) == 0x30 && digits + 1 < q ==> At(t, digits + 1) == 0x2E)
    && forall k :: p <= k < q ==> At(t, k) != 0x78 && At(t, k) != 0x58 && At(t, k) != 0
  }

  /** The bytes from `p` to `q`, white space in front of them included, spell the value. */
  ghost predicate Spells(t: bytes, p: nat, q: nat, v: Value, strtod: Strtod)
    decreases v, 3
  {
    exists s: nat :: Blank(t, p, s) && SpellsAt(t, s, q, v, strtod)
  }

  ghost predicate SpellsAt(t: bytes, p: nat, q: nat, v: Value, strtod: Strtod)
    decreases v, 2
  {
    match v
    case Null => Word(t, p, q, [0x6E, 0x75, 0x6C, 0x6C])
    case Boolean(flag) => Word(t, p, q, if flag then [0x74, 0x72, 0x75, 0x65] else [0x66, 0x61, 0x6C, 0x73, 0x65])
    case Number(x) => SpellsNumber(t, p, q, x, strtod)
    case String(chars) => SpellsString(t, p, q, chars)
    case Array(items) =>
      At(t, p) == 0x5B && if items == [] then Sign(t, p + 1, q, 0x5D) else SpellsItems(t, p + 1, q, items, strtod)
    case Object(members) =>
      At(t, p) == 0x7B && if members == [] then Sign(t, p + 1, q, 0x7D) else SpellsMembers(t, p + 1, q, members, strtod)
  }

  /** Elements with commas between them, and the closing bracket. */
  ghost predicate SpellsItems(t: bytes, p: nat, q: nat, items: seq<Value>, strtod: Strtod)
    decreases items, 0
  {
    items != [] &&
    exists m: nat ::
      && Spells(t, p, m, items[0], strtod)
      && if |items| == 1 then Closing(t, m, q, 0x5D)
         else exists k: nat :: Sign(t, m, k, 0x2C) && SpellsItems(t, k, q, items[1..], strtod)
  }

  /** Members with commas between them, and the closing brace. */
  ghost predicate SpellsMembers(t: bytes, p: nat, q: nat, members: Members, strtod: Strtod)
    decreases members, 0
  {
    members != [] &&
    exists m: nat ::
      && SpellsMember(t, p, m, members[0], strtod)
      && if |members| == 1 then Closing(t, m, q, 0x7D)
         else exists k: nat :: Sign(t, m, k, 0x2C) && SpellsMembers(t, k, q, members[1..], strtod)
  }

  /** The name as a string literal, a colon, and the value. */
  ghost predicate SpellsMember(t: bytes, p: nat, q: nat, member: Entry<bytes, Value>, strtod: Strtod)
    decreases member, 4
  {
    exists s: nat, k: nat, c: nat ::
      && Blank(t, p, s) && SpellsString(t, s, k, member.name) && Sign(t, k, c, 0x3A)
      && Spells(t, c, q, member.value, strtod)
  }

  // ---------- white space and signs ----------

  lemma WhiteIsSpace(c: byte)
    ensures White(c) <==> IsSpace(c)
  {
  }

  lemma {:induction false} SkipIsBlank(t: bytes, p: nat)
    ensures Blank(t, p, SkipSpaces(t, p))
    decreases |t| - p
  {
    if IsSpace(At(t, p)) {
      SkipIsBlank(t, p + 1);
    }
  }

  lemma {:induction false} BlankIsSkipped(t: bytes, p: nat, q: nat)
    requires Blank(t, p, q) && !White(At(t, q))
    ensures SkipSpaces(t, p) == q
    decreases q - p
  {
    if p < q {
      BlankIsSkipped(t, p + 1, q);
    }
  }

  lemma SignExactly(t: bytes, p: nat, q: nat, c: byte)
    requires !White(c)
    ensures Sign(t, p, q, c) <==> q > 0 && SkipSpaces(t, p) == q - 1 && At(t, q - 1) == c
  {
    hide White;
    SkipIsBlank(t, p);
    if Sign(t, p, q, c) {
      BlankIsSkipped(t, p, q - 1);
    }
  }

  lemma BehindBlank(t: bytes, p: nat, s: nat, q: nat, v: Value, strtod: Strtod)
    requires Blank(t, p, s) && Spells(t, s, q, v, strtod)
    ensures Spells(t, p, q, v, strtod)
  {
    hide SpellsAt, White;
    var m: nat :| Blank(t, s, m) && SpellsAt(t, m, q, v, strtod);
    assert Blank(t, p, m);
  }

  lemma ItemsBehindBlank(t: bytes, p: nat, s: nat, q: nat, items: seq<Value>, strtod: Strtod)
    requires Blank(t, p, s) && SpellsItems(t, s, q, items, strtod)
    ensures SpellsItems(t, p, q, items, strtod)
  {
    hide Spells, Blank, Closing, Sign;
    forall m: nat | Spells(t, s, m, items[0], strtod)
      ensures Spells(t, p, m, items[0], strtod)
    {
      BehindBlank(t, p, s, m, items[0], strtod);
    }
  }

  lemma MemberBehindBlank(t: bytes, p: nat, s: nat, q: nat, member: Entry<bytes, Value>, strtod: Strtod)
    requires Blank(t, p, s) && SpellsMember(t, s, q, member, strtod)
    ensures SpellsMember(t, p, q, member, strtod)
  {
    hide Spells, SpellsString, Sign, White;
    var m: nat, k: nat, c: nat :|
      && Blank(t, s, m) && SpellsString(t, m, k, member.name) && Sign(t, k, c, 0x3A)
      && Spells(t, c, q, member.value, strtod);
    assert Blank(t, p, m);
  }

  lemma MembersBehindBlank(t: bytes, p: nat, s: nat, q: nat, members: Members, strtod: Strtod)
    requires Blank(t, p, s) && SpellsMembers(t, s, q, members, strtod)
    ensures SpellsMembers(t, p, q, members, strtod)
  {
    hide SpellsMember, Blank, Closing, Sign;
    forall m: nat | SpellsMember(t, s, m, members[0], strtod)
      ensures SpellsMember(t, p, m, members[0], strtod)
    {
      MemberBehindBlank(t, p, s, m, members[0], strtod);
    }
  }

  // ---------- what is parsed is spelled ----------

  lemma NumberExactly(t: bytes, p: nat, q: nat, x: real, strtod: Strtod)
    requires p <= |t| && StartsNumber(At(t, p))
    ensures ParseNumber(t, p, strtod) == Some((Number(x), q)) <==> SpellsNumber(t, p, q, x, strtod)
  {
    var end := strtod(t, p).end;
    var s := t[p..end];
    assert forall k :: p <= k < end ==> At(t, k) == s[k - p];
    assert forall k :: 0 <= k < |s| ==> s[k] == At(t, p + k);
  }

  lemma WordStarts(t: bytes, p: nat, q: nat, word: bytes)
    requires word != [] && Word(t, p, q, word)
    ensures At(t, p) == word[0] && q == p + |word|
  {
    assert At(t, p + 0) == word[0];
  }

  lemma WordExactly(t: bytes, p: nat, word: bytes)
    requires word != [] && 0 !in word
    ensures Has(t, p, word) <==> Word(t, p, p + |word|, word)
  {
    if Has(t, p, word) {
      forall k | 0 <= k < |word|
        ensures At(t, p + k) == word[k]
      {
        HasAt(t, p, word, k);
      }
    }
    if Word(t, p, p + |word|, word) {
      assert At(t, p + (|word| - 1)) == word[|word| - 1];
      assert word[|word| - 1] in word;
      assert t[p..p + |word|] == word;
    }
  }

  lemma {:induction false} ValueIsSpelled(t: bytes, p: nat, nesting: nat, strtod: Strtod)
    requires p <= |t| && ParseValue(t, p, nesting, strtod).Some?
    ensures var (v, q) := ParseValue(t, p, nesting, strtod).value; Spells(t, p, q, v, strtod)
    decreases |t| - p, 2
  {
    hide SkipSpaces, Blank, ParseObject, ParseArray, QuotedString, SpellsNumber, SpellsString,
      Word, Has, SpellsItems, SpellsMembers, Sign, IsDecimal;
    var s := SkipSpaces(t, p);
    SkipIsBlank(t, p);
    var (v, q) := ParseValue(t, p, nesting, strtod).value;
    var c := At(t, s);
    if c == OPEN_BRACE {
      ObjectIsSpelled(t, s, nesting + 1, strtod);
    } else if c == OPEN_BRACKET {
      ArrayIsSpelled(t, s, nesting + 1, strtod);
    } else if c == QUOTE {
      StringExactly(t, s, q, v.chars);
    } else if StartsNumber(c) {
      NumberExactly(t, s, q, v.number, strtod);
    } else {
      WordExactly(t, s, TRUE_TOKEN);
      WordExactly(t, s, FALSE_TOKEN);
      WordExactly(t, s, NULL_TOKEN);
    }
    assert SpellsAt(t, s, q, v, strtod);
  }

  lemma {:induction false} ArrayIsSpelled(t: bytes, p: nat, nesting: nat, strtod: Strtod)
    requires p < |t| && At(t, p) == OPEN_BRACKET && ParseArray(t, p, nesting, strtod).Some?
    ensures var (v, q) := ParseArray(t, p, nesting, strtod).value; v.Array? && SpellsAt(t, p, q, v, strtod)
    decreases |t| - p, 1
  {
    hide SkipSpaces, ParseItems, SpellsItems, Sign;
    var s := SkipSpaces(t, p + 1);
    SignExactly(t, p + 1, s + 1, CLOSE_BRACKET);
    if At(t, s) != CLOSE_BRACKET {
      ItemsAreSpelled(t, s, nesting, strtod, []);
      SkipIsBlank(t, p + 1);
      var (items, stop) := ParseItems(t, s, nesting, strtod, []).value;
      assert items[0..] == items;
      ItemsBehindBlank(t, p + 1, s, SkipSpaces(t, stop) + 1, items, strtod);
    }
  }

  lemma LastItem(t: bytes, p: nat, m: nat, q: nat, value: Value, strtod: Strtod)
    requires Spells(t, p, m, value, strtod) && Closing(t, m, q, 0x5D)
    ensures SpellsItems(t, p, q, [value], strtod)
  {
    hide Spells, Closing, Sign;
  }

  lemma NextItem(t: bytes, p: nat, m: nat, k: nat, q: nat, value: Value, rest: seq<Value>, strtod: Strtod)
    requires Spells(t, p, m, value, strtod) && Sign(t, m, k, 0x2C) && SpellsItems(t, k, q, rest, strtod)
    ensures SpellsItems(t, p, q, [value] + rest, strtod)
  {
    hide Spells, Closing, Sign;
    assert ([value] + rest)[1..] == rest;
  }

  lemma {:induction false} ItemsAreSpelled(t: bytes, p: nat, nesting: nat, strtod: Strtod, before: seq<Value>)
    requires p <= |t| && ParseItems(t, p, nesting, strtod, before).Some?
    requires At(t, SkipSpaces(t, ParseItems(t, p, nesting, strtod, before).value.1)) == CLOSE_BRACKET
    ensures var (items, stop) := ParseItems(t, p, nesting, strtod, before).value;
            && |items| > |before| && items[..|before|] == before
            && SpellsItems(t, p, SkipSpaces(t, stop) + 1, items[|before|..], strtod)
    decreases |t| - p, 3
  {
    hide SkipSpaces, Blank, ParseValue, Spells, Sign, SpellsItems;
    if At(t, p) == 0 {
      NothingToSkip(t, p);
    } else {
      ValueIsSpelled(t, p, nesting, strtod);
      var (value, m) := ParseValue(t, p, nesting, strtod).value;
      var (items, stop) := ParseItems(t, p, nesting, strtod, before).value;
      var comma := SkipSpaces(t, m);
      var end := SkipSpaces(t, stop) + 1;
      SignExactly(t, m, comma + 1, At(t, comma));
      if At(t, comma) != COMMA {
        NothingToSkip(t, comma);
        assert items[|before|..] == [value];
        LastItem(t, p, m, end, value, strtod);
      } else {
        var next := SkipSpaces(t, comma + 1);
        if At(t, next) == CLOSE_BRACKET {
          NothingToSkip(t, next);
          SignExactly(t, comma + 1, next + 1, CLOSE_BRACKET);
          assert Sign(t, m, comma + 1, 0x2C) && Sign(t, comma + 1, end, 0x5D);
          assert items[|before|..] == [value];
          LastItem(t, p, m, end, value, strtod);
        } else {
          ItemsAreSpelled(t, next, nesting, strtod, before + [value]);
          SkipIsBlank(t, comma + 1);
          var rest := items[|before| + 1..];
          ItemsBehindBlank(t, comma + 1, next, end, rest, strtod);
          assert items[..|before| + 1][..|before|] == before && items[..|before| + 1][|before|] == value;
          assert items[|before|..] == [value] + rest;
          NextItem(t, p, m, comma + 1, end, value, rest, strtod);
        }
      }
    }
  }

  lemma {:induction false} ObjectIsSpelled(t: bytes, p: nat, nesting: nat, strtod: Strtod)
    requires p < |t| && At(t, p) == OPEN_BRACE && ParseObject(t, p, nesting, strtod).Some?
    ensures var (v, q) := ParseObject(t, p, nesting, strtod).value; v.Object? && SpellsAt(t, p, q, v, strtod)
    decreases |t| - p, 1
  {
    hide SkipSpaces, ParseMembers, SpellsMembers, Sign;
    var s := SkipSpaces(t, p + 1);
    SignExactly(t, p + 1, s + 1, CLOSE_BRACE);
    if At(t, s) != CLOSE_BRACE {
      MembersAreSpelled(t, s, nesting, strtod, []);
      SkipIsBlank(t, p + 1);
      var (members, stop) := ParseMembers(t, s, nesting, strtod, []).value;
      assert members[0..] == members;
      MembersBehindBlank(t, p + 1, s, SkipSpaces(t, stop) + 1, members, strtod);
    }
  }

  lemma LastMember(t: bytes, p: nat, m: nat, q: nat, member: Entry<bytes, Value>, strtod: Strtod)
    requires SpellsMember(t, p, m, member, strtod) && Closing(t, m, q, 0x7D)
    ensures SpellsMembers(t, p, q, [member], strtod)
  {
    hide SpellsMember, Closing, Sign;
  }

  lemma NextMember(t: bytes, p: nat, m: nat, k: nat, q: nat, member: Entry<bytes, Value>, rest: Members, strtod: Strtod)
    requires SpellsMember(t, p, m, member, strtod) && Sign(t, m, k, 0x2C) && SpellsMembers(t, k, q, rest, strtod)
    ensures SpellsMembers(t, p, q, [member] + rest, strtod)
  {
    hide SpellsMember, Closing, Sign;
    assert ([member] + rest)[1..] == rest;
  }

  lemma NoMemberRound(t: bytes, p: nat, nesting: nat, strtod: Strtod, before: Members)
    requires p <= |t| && At(t, p) == 0
    ensures var parsed := ParseMembers(t, p, nesting, strtod, before);
            parsed == Some((before, p)) && At(t, SkipSpaces(t, p)) == 0
  {
  }

  /** What one round of the member loop has read when the loop succeeds. */
  lemma MemberRound(t: bytes, p: nat, nesting: nat, strtod: Strtod, before: Members)
    requires p <= |t| && At(t, p) != 0 && ParseMembers(t, p, nesting, strtod, before).Some?
    ensures QuotedString(t, p).Some? && At(t, SkipSpaces(t, QuotedString(t, p).value.1)) == COLON
    ensures var (key, q) := QuotedString(t, p).value;
            var parsed := ParseValue(t, SkipSpaces(t, q) + 1, nesting, strtod);
            && parsed.Some?
            && var extended, comma := before + [Entry(key, parsed.value.0)], SkipSpaces(t, parsed.value.1);
            ParseMembers(t, p, nesting, strtod, before) ==
            if At(t, comma) != COMMA then Some((extended, comma))
            else
              var next := SkipSpaces(t, comma + 1);
              if At(t, next) == CLOSE_BRACE then Some((extended, next))
              else ParseMembers(t, next, nesting, strtod, extended)
  {
    hide SkipSpaces, ParseValue, QuotedString, NulFree, Contains;
  }

  lemma {:induction false} MembersAreSpelled(t: bytes, p: nat, nesting: nat, strtod: Strtod, before: Members)
    requires p <= |t| && ParseMembers(t, p, nesting, strtod, before).Some?
    requires At(t, SkipSpaces(t, ParseMembers(t, p, nesting, strtod, before).value.1)) == CLOSE_BRACE
    ensures var (members, stop) := ParseMembers(t, p, nesting, strtod, before).value;
            && |members| > |before| && members[..|before|] == before
            && SpellsMembers(t, p, SkipSpaces(t, stop) + 1, members[|before|..], strtod)
    decreases |t| - p, 3
  {
    hide SkipSpaces, Blank, ParseValue, Spells, Sign, QuotedString, SpellsMember, SpellsMembers, ParseMembers;
    if At(t, p) == 0 {
      NoMemberRound(t, p, nesting, strtod, before);
    } else {
      MemberRound(t, p, nesting, strtod, before);
      var (key, q) := QuotedString(t, p).value;
      var colon := SkipSpaces(t, q);
      var (value, m) := ParseValue(t, colon + 1, nesting, strtod).value;
      var member := Entry(key, value);
      MemberIsSpelled(t, p, nesting, strtod);
      var (members, stop) := ParseMembers(t, p, nesting, strtod, before).value;
      var comma := SkipSpaces(t, m);
      var end := SkipSpaces(t, stop) + 1;
      SignExactly(t, m, comma + 1, At(t, comma));
      if At(t, comma) != COMMA {
        NothingToSkip(t, comma);
        assert members[|before|..] == [member];
        LastMember(t, p, m, end, member, strtod);
      } else {
        var next := SkipSpaces(t, comma + 1);
        if At(t, next) == CLOSE_BRACE {
          NothingToSkip(t, next);
          SignExactly(t, comma + 1, next + 1, CLOSE_BRACE);
          assert Sign(t, m, comma + 1, 0x2C) && Sign(t, comma + 1, end, 0x7D);
          assert members[|before|..] == [member];
          LastMember(t, p, m, end, member, strtod);
        } else {
          MembersAreSpelled(t, next, nesting, strtod, before + [member]);
          SkipIsBlank(t, comma + 1);
          var rest := members[|before| + 1..];
          MembersBehindBlank(t, comma + 1, next, end, rest, strtod);
          assert members[..|before| + 1][..|before|] == before && members[..|before| + 1][|before|] == member;
          assert members[|before|..] == [member] + rest;
          NextMember(t, p, m, comma + 1, end, member, rest, strtod);
        }
      }
    }
  }

  lemma {:induction false} MemberIsSpelled(t: bytes, p: nat, nesting: nat, strtod: Strtod)
    requires p <= |t| && QuotedString(t, p).Some?
    requires At(t, SkipSpaces(t, QuotedString(t, p).value.1)) == COLON
    requires ParseValue(t, SkipSpaces(t, QuotedString(t, p).value.1) + 1, nesting, strtod).Some?
    ensures var (key, q) := QuotedString(t, p).value;
            var (value, m) := ParseValue(t, SkipSpaces(t, q) + 1, nesting, strtod).value;
            SpellsMember(t, p, m, Entry(key, value), strtod)
    decreases |t| - p, 2
  {
    hide SkipSpaces, ParseValue, Spells, Sign, QuotedString, SpellsString;
    var (key, q) := QuotedString(t, p).value;
    var colon := SkipSpaces(t, q);
    StringExactly(t, p, q, key);
    SignExactly(t, q, colon + 1, COLON);
    ValueIsSpelled(t, colon + 1, nesting, strtod);
    assert Blank(t, p, p);
  }

  // ---------- what is spelled is parsed ----------

  /** The byte a value starts with decides what is parsed there. */
  lemma ValueStartsAt(t: bytes, p: nat, q: nat, v: Value, strtod: Strtod)
    requires SpellsAt(t, p, q, v, strtod)
    ensures At(t, p) != 0 && !White(At(t, p)) && At(t, p) !in {COMMA, CLOSE_BRACKET, CLOSE_BRACE}
    ensures p <= |t|
  {
    hide SpellsBody, SpellsItems, SpellsMembers, Sign, Word;
    match v
    case Null => WordStarts(t, p, q, NULL_TOKEN);
    case Boolean(flag) => WordStarts(t, p, q, if flag then TRUE_TOKEN else FALSE_TOKEN);
    case _ =>
  }

  lemma {:induction false} SpelledIsParsed(t: bytes, p: nat, q: nat, v: Value, nesting: nat, strtod: Strtod)
    requires p <= |t| && Spells(t, p, q, v, strtod) && WellNamed(v) && nesting + Depth(v) <= MAX_NESTING
    ensures ParseValue(t, p, nesting, strtod) == Some((v, q))
    decreases v, 2
  {
    hide SkipSpaces, Blank, SpellsAt, Depth, WellNamed, ParseValue, White;
    var s: nat :| Blank(t, p, s) && SpellsAt(t, s, q, v, strtod);
    ValueStartsAt(t, s, q, v, strtod);
    BlankIsSkipped(t, p, s);
    NothingSkipped(t, s);
    SpacesBeforeValue(t, p, s, nesting, strtod);
    match v
    case Array(items) => ArrayIsParsed(t, s, q, items, nesting, strtod);
    case Object(members) => ObjectIsParsed(t, s, q, members, nesting, strtod);
    case _ => ScalarIsParsed(t, s, q, v, nesting, strtod);
  }

  lemma NothingSkipped(t: bytes, p: nat)
    requires !White(At(t, p))
    ensures SkipSpaces(t, p) == p
  {
  }

  lemma ScalarIsParsed(t: bytes, p: nat, q: nat, v: Value, nesting: nat, strtod: Strtod)
    requires p <= |t| && SpellsAt(t, p, q, v, strtod) && !v.Array? && !v.Object? && nesting <= MAX_NESTING
    requires SkipSpaces(t, p) == p
    ensures ParseValue(t, p, nesting, strtod) == Some((v, q))
  {
    hide SkipSpaces, ParseArray, ParseObject, ParseNumber, QuotedString, SpellsBody, Has, Word;
    match v
    case Null =>
      WordExactly(t, p, NULL_TOKEN);
      WordStarts(t, p, q, NULL_TOKEN);
    case Boolean(flag) =>
      WordExactly(t, p, TRUE_TOKEN);
      WordExactly(t, p, FALSE_TOKEN);
      WordStarts(t, p, q, if flag then TRUE_TOKEN else FALSE_TOKEN);
      if Has(t, p, TRUE_TOKEN) {
        HasAt(t, p, TRUE_TOKEN, 0);
      }
    case Number(x) => NumberExactly(t, p, q, x, strtod);
    case String(chars) => StringExactly(t, p, q, chars);
  }

  lemma {:induction false} ArrayIsParsed(t: bytes, p: nat, q: nat, items: seq<Value>, nesting: nat, strtod: Strtod)
    requires p <= |t| && SpellsAt(t, p, q, Array(items), strtod) && SkipSpaces(t, p) == p
    requires WellNamed(Array(items)) && nesting + Depth(Array(items)) <= MAX_NESTING
    ensures ParseValue(t, p, nesting, strtod) == Some((Array(items), q))
    decreases items, 1
  {
    hide SkipSpaces, ParseItems, ParseObject, ParseNumber, SpellsItems, Sign, WellNamed, ItemsDepth;
    SignExactly(t, p + 1, q, CLOSE_BRACKET);
    if items != [] {
      EachWellNamed(items);
      ItemsAreParsed(t, p + 1, q, items, nesting + 1, strtod, []);
      assert [] + items == items;
    }
  }

  lemma EachWellNamed(items: seq<Value>)
    requires WellNamed(Array(items))
    ensures forall i :: 0 <= i < |items| ==> WellNamed(items[i])
  {
  }

  lemma {:induction false} ItemsAreParsed(t: bytes, p: nat, q: nat, items: seq<Value>, nesting: nat, strtod: Strtod,
                                          before: seq<Value>)
    requires p <= |t| && SpellsItems(t, p, q, items, strtod)
    requires (forall i :: 0 <= i < |items| ==> WellNamed(items[i])) && nesting + ItemsDepth(items) <= MAX_NESTING
    ensures At(t, SkipSpaces(t, p)) != CLOSE_BRACKET
    ensures var parsed := ParseItems(t, SkipSpaces(t, p), nesting, strtod, before);
            && parsed.Some? && parsed.value.0 == before + items
            && SkipSpaces(t, parsed.value.1) + 1 == q && At(t, q - 1) == CLOSE_BRACKET
    decreases items, 0
  {
    hide SkipSpaces, Spells, ParseValue, WellNamed, Depth, Sign;
    var m: nat :| Spells(t, p, m, items[0], strtod)
                  && if |items| == 1 then Closing(t, m, q, 0x5D)
                     else exists k: nat :: Sign(t, m, k, 0x2C) && SpellsItems(t, k, q, items[1..], strtod);
    FirstItem(t, p, m, items[0], nesting, strtod);
    var s := SkipSpaces(t, p);
    var comma := SkipSpaces(t, m);
    NothingToSkip(t, comma);
    if |items| == 1 {
      ClosingIsParsed(t, m, q, CLOSE_BRACKET);
      NothingToSkip(t, SkipSpaces(t, comma + 1));
      assert before + items == before + [items[0]];
    } else {
      var k: nat :| Sign(t, m, k, 0x2C) && SpellsItems(t, k, q, items[1..], strtod);
      SignExactly(t, m, k, COMMA);
      ItemsAreParsed(t, k, q, items[1..], nesting, strtod, before + [items[0]]);
      assert (before + [items[0]]) + items[1..] == before + items;
    }
  }

  lemma {:induction false} FirstItem(t: bytes, p: nat, m: nat, v: Value, nesting: nat, strtod: Strtod)
    requires p <= |t| && Spells(t, p, m, v, strtod) && WellNamed(v) && nesting + Depth(v) <= MAX_NESTING
    ensures var s := SkipSpaces(t, p);
            && s <= |t| && At(t, s) != 0 && At(t, s) != CLOSE_BRACKET
            && ParseValue(t, s, nesting, strtod) == Some((v, m))
    decreases v, 3
  {
    hide SkipSpaces, SpellsAt, ParseValue, WellNamed, Depth, White;
    var s: nat :| Blank(t, p, s) && SpellsAt(t, s, m, v, strtod);
    ValueStartsAt(t, s, m, v, strtod);
    BlankIsSkipped(t, p, s);
    NothingSkipped(t, s);
    SpelledIsParsed(t, p, m, v, nesting, strtod);
    SpacesBeforeValue(t, p, s, nesting, strtod);
  }

  /** The closing bracket, behind one more comma or not. */
  lemma ClosingIsParsed(t: bytes, p: nat, q: nat, c: byte)
    requires Closing(t, p, q, c) && c in {CLOSE_BRACKET, CLOSE_BRACE}
    ensures q > 0 && At(t, q - 1) == c
    ensures var comma := SkipSpaces(t, p);
            if At(t, comma) == COMMA then SkipSpaces(t, comma + 1) == q - 1 else comma == q - 1
  {
    hide SkipSpaces, Sign;
    SignExactly(t, p, q, c);
    if !Sign(t, p, q, c) {
      var k: nat :| Sign(t, p, k, 0x2C) && Sign(t, k, q, c);
      SignExactly(t, p, k, COMMA);
      SignExactly(t, k, q, c);
    }
  }

  lemma {:induction false} ObjectIsParsed(t: bytes, p: nat, q: nat, members: Members, nesting: nat, strtod: Strtod)
    requires p <= |t| && SpellsAt(t, p, q, Object(members), strtod) && SkipSpaces(t, p) == p
    requires WellNamed(Object(members)) && nesting + Depth(Object(members)) <= MAX_NESTING
    ensures ParseValue(t, p, nesting, strtod) == Some((Object(members), q))
    decreases members, 1
  {
    hide SkipSpaces, ParseMembers, ParseArray, ParseNumber, SpellsMembers, Sign, WellNamed, MembersDepth;
    SignExactly(t, p + 1, q, CLOSE_BRACE);
    if members != [] {
      EachMemberWellNamed(members);
      assert [] + members == members;
      MembersAreParsed(t, p + 1, q, members, nesting + 1, strtod, []);
    }
  }

  lemma EachMemberWellNamed(members: Members)
    requires WellNamed(Object(members))
    ensures Distinct(members)
    ensures forall i :: 0 <= i < |members| ==> NulFree(members[i].name) && WellNamed(members[i].value)
  {
  }

  lemma {:induction false} MembersAreParsed(t: bytes, p: nat, q: nat, members: Members, nesting: nat, strtod: Strtod,
                                            before: Members)
    requires p <= |t| && SpellsMembers(t, p, q, members, strtod) && Distinct(before + members)
    requires forall i :: 0 <= i < |members| ==> NulFree(members[i].name) && WellNamed(members[i].value)
    requires nesting + MembersDepth(members) <= MAX_NESTING
    ensures At(t, SkipSpaces(t, p)) != CLOSE_BRACE
    ensures var parsed := ParseMembers(t, SkipSpaces(t, p), nesting, strtod, before);
            && parsed.Some? && parsed.value.0 == before + members
            && SkipSpaces(t, parsed.value.1) + 1 == q && At(t, q - 1) == CLOSE_BRACE
    decreases members, 0
  {
    hide SkipSpaces, SpellsMember, ParseValue, ParseMembers, QuotedString, WellNamed, NulFree, Depth, Sign,
      Distinct, Add;
    var m: nat :| SpellsMember(t, p, m, members[0], strtod)
                  && if |members| == 1 then Closing(t, m, q, 0x7D)
                     else exists k: nat :: Sign(t, m, k, 0x2C) && SpellsMembers(t, k, q, members[1..], strtod);
    FirstMember(t, p, m, members[0], nesting, strtod);
    AddsNext(before, members);
    MemberStep(t, SkipSpaces(t, p), members[0], nesting, strtod, before);
    var comma := SkipSpaces(t, m);
    NothingToSkip(t, comma);
    if |members| == 1 {
      ClosingIsParsed(t, m, q, CLOSE_BRACE);
      NothingToSkip(t, SkipSpaces(t, comma + 1));
      assert before + members == before + [members[0]];
    } else {
      var k: nat :| Sign(t, m, k, 0x2C) && SpellsMembers(t, k, q, members[1..], strtod);
      SignExactly(t, m, k, COMMA);
      assert (before + [members[0]]) + members[1..] == before + members;
      MembersAreParsed(t, k, q, members[1..], nesting, strtod, before + [members[0]]);
    }
  }

  lemma {:induction false} FirstMember(t: bytes, p: nat, m: nat, member: Entry<bytes, Value>, nesting: nat,
                                       strtod: Strtod)
    requires p <= |t| && SpellsMember(t, p, m, member, strtod) && WellNamed(member.value)
    requires nesting + Depth(member.value) <= MAX_NESTING
    ensures var s := SkipSpaces(t, p);
            && s <= |t| && At(t, s) == QUOTE && QuotedString(t, s).Some? && QuotedString(t, s).value.0 == member.name
            && var colon := SkipSpaces(t, QuotedString(t, s).value.1);
            && colon < |t| && At(t, colon) == COLON
            && ParseValue(t, colon + 1, nesting, strtod) == Some((member.value, m))
    decreases member, 3
  {
    hide SkipSpaces, Spells, SpellsBody, ParseValue, QuotedString, WellNamed, Depth, Sign;
    var s: nat, k: nat, c: nat :|
      && Blank(t, p, s) && SpellsString(t, s, k, member.name) && Sign(t, k, c, 0x3A)
      && Spells(t, c, m, member.value, strtod);
    BlankIsSkipped(t, p, s);
    StringExactly(t, s, k, member.name);
    SignExactly(t, k, c, COLON);
    SpelledIsParsed(t, c, m, member.value, nesting, strtod);
  }

  // ---------- exactly ----------

  /** The parser accepts exactly the texts that the grammar has for a value whose names are distinct and free of NULs,
      up to the nesting limit, and gives that value; the text ends where the value does. */
  lemma ParsesExactly(t: bytes, p: nat, q: nat, v: Value, nesting: nat, strtod: Strtod)
    requires p <= |t|
    ensures ParseValue(t, p, nesting, strtod) == Some((v, q)) <==>
            Spells(t, p, q, v, strtod) && WellNamed(v) && nesting + Depth(v) <= MAX_NESTING
  {
    hide ParseValue, Spells, WellNamed, Depth;
    if ParseValue(t, p, nesting, strtod).Some? {
      ValueIsSpelled(t, p, nesting, strtod);
      ParsedIsWellNamed(t, p, nesting, strtod);
    }
    if Spells(t, p, q, v, strtod) && WellNamed(v) && nesting + Depth(v) <= MAX_NESTING {
      SpelledIsParsed(t, p, q, v, nesting, strtod);
    }
  }

  /** The same for whole documents, which may start with a byte order mark. */
  lemma DocumentExactly(t: bytes, q: nat, v: Value, strtod: Strtod)
    ensures ParseText(t, strtod) == Some((v, q)) <==>
            && Spells(t, if Has(t, 0, [0xEF, 0xBB, 0xBF]) then 3 else 0, q, v, strtod)
            && WellNamed(v) && Depth(v) <= 2048
  {
    ParsesExactly(t, if Has(t, 0, BOM) then |BOM| else 0, q, v, 0, strtod);
  }

  /** A text spells at most one value within the limits, and the value ends in one place only. */
  lemma SpellingIsUnique(t: bytes, p: nat, q: nat, v: Value, q': nat, v': Value, strtod: Strtod)
    requires p <= |t| && Spells(t, p, q, v, strtod) && Spells(t, p, q', v', strtod)
    requires WellNamed(v) && WellNamed(v') && Depth(v) <= MAX_NESTING && Depth(v') <= MAX_NESTING
    ensures v == v' && q == q'
  {
    hide Spells, WellNamed, Depth;
    ParsesExactly(t, p, q, v, 0, strtod);
    ParsesExactly(t, p, q', v', 0, strtod);
  }
}
