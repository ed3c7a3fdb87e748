/** Parsing serialized text gives the value back, in compact and in pretty form. */
module RoundTrip {
  import opened Assoc
  import opened Bytes
  import opened DecimalNumbers
  import opened Json
  import opened Parser
  import opened Serializer
  import opened StringLiteral
  import opened Wrappers

  predicate AllSpaces(s: bytes) {
    forall k :: 0 <= k < |s| ==> IsSpace(s[k])
  }

  lemma {:induction false} SkipsSpaces(t: bytes, p: nat, s: bytes)
    requires Has(t, p, s) && AllSpaces(s)
    ensures SkipSpaces(t, p) == SkipSpaces(t, p + |s|)
    decreases |s|
  {
    if s != [] {
      HasAt(t, p, s, 0);
      assert s == [s[0]] + s[1..];
      HasConcat(t, p, [s[0]], s[1..]);
      SkipsSpaces(t, p + 1, s[1..]);
    }
  }

  lemma NothingToSkip(t: bytes, p: nat)
    requires !IsSpace(At(t, p))
    ensures SkipSpaces(t, p) == p
  {
  }

  lemma {:induction false} RepeatSpaces(s: bytes, n: nat)
    requires AllSpaces(s)
    ensures AllSpaces(Repeat(s, n))
  {
    if n > 0 {
      RepeatSpaces(s, n - 1);
    }
  }

  lemma LayoutIsSpace(level: nat, style: Style)
    ensures AllSpaces(Indent(level, style)) && AllSpaces(NewLine(style)) && AllSpaces(Gap(style))
  {
    RepeatSpaces(INDENT_STR, level);
  }

  // ---------- tokens and the white space between them ----------

  /** The tokens of a value's text, in order. */
  function Tokens(v: Value, style: Style): (tokens: seq<bytes>)
    ensures tokens != []
    decreases v, 2
  {
    match v
    case Null => [NULL_TOKEN]
    case Boolean(flag) => [if flag then TRUE_TOKEN else FALSE_TOKEN]
    case Number(x) => [style.format(x)]
    case String(chars) => [Quoted(chars, style.escapeSlashes)]
    case Array(items) => [[OPEN_BRACKET]] + (ItemTokens(items, style) + [[CLOSE_BRACKET]])
    case Object(members) => [[OPEN_BRACE]] + (MembersTokens(members, style) + [[CLOSE_BRACE]])
  }

  function ItemTokens(items: seq<Value>, style: Style): seq<bytes>
    decreases items, 0
  {
    if items == [] then []
    else Tokens(items[0], style) + if |items| == 1 then [] else [[COMMA]] + ItemTokens(items[1..], style)
  }

  function MembersTokens(members: Members, style: Style): seq<bytes>
    decreases members, 0
  {
    if members == [] then []
    else MemberTokens(members[0], style) + if |members| == 1 then [] else [[COMMA]] + MembersTokens(members[1..], style)
  }

  function MemberTokens(member: Entry<bytes, Value>, style: Style): seq<bytes>
    decreases member, 3
  {
    [Quoted(member.name, style.escapeSlashes)] + ([[COLON]] + Tokens(member.value, style))
  }

  /** The text with the i-th gap in front of the i-th token. */
  function Weave(tokens: seq<bytes>, gaps: seq<bytes>): bytes
    requires |gaps| == |tokens|
  {
    if tokens == [] then [] else (gaps[0] + tokens[0]) + Weave(tokens[1..], gaps[1..])
  }

  predicate AllBlank(gaps: seq<bytes>) {
    forall i :: 0 <= i < |gaps| ==> AllSpaces(gaps[i])
  }

  lemma {:induction false} WeaveConcat(a: seq<bytes>, b: seq<bytes>, gaps: seq<bytes>)
    requires |gaps| == |a| + |b|
    ensures Weave(a + b, gaps) == Weave(a, gaps[..|a|]) + Weave(b, gaps[|a|..])
  {
    if a == [] {
      assert a + b == b && gaps[0..] == gaps;
      EmptyParts(Weave(b, gaps));
    } else {
      assert (a + b)[1..] == a[1..] + b;
      assert gaps[1..][..|a| - 1] == gaps[..|a|][1..] && gaps[1..][|a| - 1..] == gaps[|a|..];
      WeaveConcat(a[1..], b, gaps[1..]);
      Regroup(gaps[0] + a[0], Weave(a[1..], gaps[..|a|][1..]), Weave(b, gaps[|a|..]), Weave((a + b)[1..], gaps[1..]));
    }
  }

  lemma WeaveOne(token: bytes, gap: bytes)
    ensures Weave([token], [gap]) == gap + token
  {
    EmptyParts(gap + token);
  }

  /** A token in front of others. */
  lemma WeaveFirst(token: bytes, tokens: seq<bytes>, gaps: seq<bytes>)
    requires |gaps| == 1 + |tokens|
    ensures Weave([token] + tokens, gaps) == (gaps[0] + token) + Weave(tokens, gaps[1..])
  {
    assert ([token] + tokens)[1..] == tokens;
  }

  /** Tokens between two brackets. */
  lemma WeaveBrackets(first: bytes, inner: seq<bytes>, last: bytes, gaps: seq<bytes>)
    requires |gaps| == |inner| + 2
    ensures Weave([first] + (inner + [last]), gaps)
         == (gaps[0] + first) + (Weave(inner, gaps[1..|gaps| - 1]) + (gaps[|gaps| - 1] + last))
  {
    hide Weave;
    WeaveFirst(first, inner + [last], gaps);
    WeaveConcat(inner, [last], gaps[1..]);
    assert gaps[1..][..|inner|] == gaps[1..|gaps| - 1] && gaps[1..][|inner|..] == [gaps[|gaps| - 1]];
    WeaveOne(last, gaps[|gaps| - 1]);
  }

  /** Reading the blank gap in front of a token. */
  lemma ReadsToken(t: bytes, p: nat, gap: bytes, token: bytes, tail: bytes)
    requires Has(t, p, (gap + token) + tail) && AllSpaces(gap) && token != [] && !IsSpace(token[0])
    ensures var start := p + |gap|;
            && SkipSpaces(t, p) == start && SkipSpaces(t, start) == start
            && Has(t, start, token) && At(t, start) == token[0]
            && Has(t, start + |token|, tail)
    ensures EndsNumber(token[0]) ==> EndsNumber(At(t, p))
  {
    BlankOrToken(gap, token);
    hide Has, AllSpaces, IsSpace, SkipSpaces, EndsNumber;
    HasConcat(t, p, gap + token, tail);
    HasConcat(t, p, gap, token);
    SkipsSpaces(t, p, gap);
    FirstOf(t, p + |gap|, token);
    FirstOf(t, p, gap + token);
    NothingToSkip(t, p + |gap|);
  }

  lemma BlankOrToken(gap: bytes, token: bytes)
    requires AllSpaces(gap) && token != []
    ensures EndsNumber(token[0]) ==> EndsNumber((gap + token)[0])
  {
  }

  // ---------- reading ----------

  /** The bytes a value can start with. */
  predicate StartsValue(c: byte) {
    c == OPEN_BRACKET || c == OPEN_BRACE || c == QUOTE || c == 0x74 || c == 0x66 || c == 0x6E || StartsNumber(c)
  }

  lemma FirstToken(v: Value, style: Style, strtod: Strtod)
    requires Proper(v, style.format, strtod)
    ensures var token := Tokens(v, style)[0]; token != [] && StartsValue(token[0]) && !IsSpace(token[0])
  {
  }

  lemma FirstOf(t: bytes, p: nat, s: bytes)
    requires s != [] && Has(t, p, s)
    ensures At(t, p) == s[0] && (|s| > 1 ==> At(t, p + 1) == s[1])
  {
    HasAt(t, p, s, 0);
    if |s| > 1 {
      HasAt(t, p, s, 1);
    }
  }

  /** White space in front of a value does not matter. */
  lemma SpacesBeforeValue(t: bytes, p: nat, q: nat, nesting: nat, strtod: Strtod)
    requires p <= |t| && q <= |t| && SkipSpaces(t, p) == SkipSpaces(t, q)
    ensures ParseValue(t, p, nesting, strtod) == ParseValue(t, q, nesting, strtod)
  {
  }

  lemma ReadsNumber(t: bytes, p: nat, x: real, style: Style, strtod: Strtod)
    requires Faithful(style.format, strtod, x) && Has(t, p, style.format(x)) && EndsNumber(At(t, p + |style.format(x)|))
    ensures StartsNumber(At(t, p)) && ParseNumber(t, p, strtod) == Some((Number(x), p + |style.format(x)|))
  {
    FirstOf(t, p, style.format(x));
    assert strtod(t, p) == Reading(x, p + |style.format(x)|, true);
  }

  /** Whatever white space stands between its tokens, reading the text of a value at any nesting gives the value and
      stops at the end of the text, unless the nesting limit is exceeded. */
  lemma {:induction false} ReadsValue(t: bytes, p: nat, v: Value, style: Style, gaps: seq<bytes>, nesting: nat,
                                      strtod: Strtod)
    requires Proper(v, style.format, strtod) && |gaps| == |Tokens(v, style)| && AllBlank(gaps)
    requires Has(t, p, Weave(Tokens(v, style), gaps))
    requires EndsNumber(At(t, p + |Weave(Tokens(v, style), gaps)|))
    ensures ParseValue(t, p, nesting, strtod) ==
            if nesting + Depth(v) <= MAX_NESTING then Some((v, p + |Weave(Tokens(v, style), gaps)|)) else None
    decreases v, 1
  {
    hide Has, Weave, ItemTokens, MembersTokens, ParseArray, ParseObject, ItemsDepth, MembersDepth, Quoted, QuotedString,
      Faithful, IsDecimal, SkipSpaces, IsSpace, EndsNumber;
    if nesting > MAX_NESTING {
      return;
    }
    var tokens := Tokens(v, style);
    FirstToken(v, style, strtod);
    assert [tokens[0]] + tokens[1..] == tokens;
    WeaveFirst(tokens[0], tokens[1..], gaps);
    ReadsToken(t, p, gaps[0], tokens[0], Weave(tokens[1..], gaps[1..]));
    var start := p + |gaps[0]|;
    SpacesBeforeValue(t, p, start, nesting, strtod);
    match v
    case Array(items) => ReadsArray(t, p, items, style, gaps, nesting, strtod);
    case Object(members) => ReadsObject(t, p, members, style, gaps, nesting, strtod);
    case _ =>
      WeaveOne(tokens[0], gaps[0]);
      assert tokens == [tokens[0]] && gaps == [gaps[0]];
      ReadsScalar(t, start, v, style, nesting, strtod);
  }

  lemma ReadsScalar(t: bytes, p: nat, v: Value, style: Style, nesting: nat, strtod: Strtod)
    requires Proper(v, style.format, strtod) && !v.Array? && !v.Object? && nesting <= MAX_NESTING
    requires Has(t, p, Tokens(v, style)[0]) && EndsNumber(At(t, p + |Tokens(v, style)[0]|))
    requires SkipSpaces(t, p) == p
    ensures ParseValue(t, p, nesting, strtod) == Some((v, p + |Tokens(v, style)[0]|))
  {
    hide Quoted, QuotedString, Faithful, IsDecimal, SkipSpaces, ParseArray, ParseObject, ParseNumber, Has;
    FirstToken(v, style, strtod);
    FirstOf(t, p, Tokens(v, style)[0]);
    match v
    case String(chars) => QuotedRoundTrip(t, p, chars, style.escapeSlashes);
    case Number(x) => ReadsNumber(t, p, x, style, strtod);
    case Boolean(flag) =>
      if Has(t, p, TRUE_TOKEN) {
        FirstOf(t, p, TRUE_TOKEN);
      }
      assert ParseValue(t, p, nesting, strtod) == ParseBoolean(t, p);
    case Null => assert ParseValue(t, p, nesting, strtod) == ParseNull(t, p);
  }

  lemma ReadsArray(t: bytes, p: nat, items: seq<Value>, style: Style, gaps: seq<bytes>, nesting: nat, strtod: Strtod)
    requires forall i :: 0 <= i < |items| ==> Proper(items[i], style.format, strtod)
    requires |gaps| == |Tokens(Array(items), style)| && AllBlank(gaps)
    requires Has(t, p, Weave(Tokens(Array(items), style), gaps))
    ensures At(t, p + |gaps[0]|) == OPEN_BRACKET
    ensures ParseArray(t, p + |gaps[0]|, nesting + 1, strtod) ==
            if items == [] || nesting + 1 + ItemsDepth(items) <= MAX_NESTING
            then Some((Array(items), p + |Weave(Tokens(Array(items), style), gaps)|)) else None
    decreases items, 1
  {
    hide Has, Weave, ItemTokens, ParseItems, SkipSpaces, Proper, ItemsDepth, AllSpaces, IsSpace, EndsNumber;
    var n := |gaps| - 1;
    var body, closing := Weave(ItemTokens(items, style), gaps[1..n]), gaps[n] + [CLOSE_BRACKET];
    WeaveBrackets([OPEN_BRACKET], ItemTokens(items, style), [CLOSE_BRACKET], gaps);
    Brackets();
    ReadsToken(t, p, gaps[0], [OPEN_BRACKET], body + closing);
    var start := p + |gaps[0]| + 1;
    HasConcat(t, start, body, closing);
    EmptyParts(closing);
    ReadsToken(t, start + |body|, gaps[n], [CLOSE_BRACKET], []);
    if items == [] {
      NothingWoven([], style);
      assert gaps[1..n] == [];
    } else {
      ReadsItems(t, start, items, style, gaps[1..n], gaps[n], nesting + 1, strtod, []);
      assert [] + items == items;
    }
  }

  lemma Brackets()
    ensures !IsSpace(OPEN_BRACKET) && !IsSpace(CLOSE_BRACKET) && !IsSpace(OPEN_BRACE) && !IsSpace(CLOSE_BRACE)
    ensures !IsSpace(COMMA) && !IsSpace(COLON) && !IsSpace(QUOTE)
    ensures EndsNumber(COMMA) && EndsNumber(CLOSE_BRACKET) && EndsNumber(CLOSE_BRACE)
  {
  }

  lemma NothingWoven(gaps: seq<bytes>, style: Style)
    requires gaps == []
    ensures ItemTokens([], style) == [] && MembersTokens([], style) == [] && Weave([], gaps) == []
  {
  }

  /** One element: its text, and the comma and the elements behind it. */
  lemma WeaveItems(items: seq<Value>, style: Style, gaps: seq<bytes>)
    requires items != [] && |gaps| == |ItemTokens(items, style)|
    ensures var n := |Tokens(items[0], style)|;
            && n <= |gaps|
            && (|items| == 1 ==>
                  n == |gaps| && Weave(ItemTokens(items, style), gaps) == Weave(Tokens(items[0], style), gaps))
            && (|items| > 1 ==>
                  && n < |gaps| == n + 1 + |ItemTokens(items[1..], style)|
                  && Weave(ItemTokens(items, style), gaps)
                     == Weave(Tokens(items[0], style), gaps[..n])
                        + ((gaps[n] + [COMMA]) + Weave(ItemTokens(items[1..], style), gaps[n + 1..])))
  {
    hide Weave, Tokens;
    var tokens := Tokens(items[0], style);
    if |items| == 1 {
      assert tokens + [] == tokens;
    } else {
      WeaveConcat(tokens, [[COMMA]] + ItemTokens(items[1..], style), gaps);
      WeaveFirst([COMMA], ItemTokens(items[1..], style), gaps[|tokens|..]);
      assert gaps[|tokens|..][1..] == gaps[|tokens| + 1..];
    }
  }

  lemma {:induction false} ReadsItems(t: bytes, p: nat, items: seq<Value>, style: Style, gaps: seq<bytes>, last: bytes,
                                      nesting: nat, strtod: Strtod, before: seq<Value>)
    requires items != [] && forall i :: 0 <= i < |items| ==> Proper(items[i], style.format, strtod)
    requires |gaps| == |ItemTokens(items, style)| && AllBlank(gaps) && AllSpaces(last)
    requires Has(t, p, Weave(ItemTokens(items, style), gaps))
    requires Has(t, p + |Weave(ItemTokens(items, style), gaps)|, last + [CLOSE_BRACKET])
    ensures At(t, SkipSpaces(t, p)) != CLOSE_BRACKET
    ensures ParseItems(t, SkipSpaces(t, p), nesting, strtod, before) ==
            if nesting + ItemsDepth(items) <= MAX_NESTING
            then Some((before + items, p + |Weave(ItemTokens(items, style), gaps)| + |last|)) else None
    decreases items, 0
  {
    hide Has, Weave, Tokens, ItemTokens, ParseValue, SkipSpaces, Proper, Depth, AllSpaces, IsSpace, EndsNumber,
      StartsValue;
    WeaveItems(items, style, gaps);
    var tokens := Tokens(items[0], style);
    var text := Weave(tokens, gaps[..|tokens|]);
    Brackets();
    if |items| == 1 {
      assert gaps[..|tokens|] == gaps && before + [items[0]] == before + items;
      EmptyParts(last + [CLOSE_BRACKET]);
      ReadsToken(t, p + |text|, last, [CLOSE_BRACKET], []);
    } else {
      var rest := Weave(ItemTokens(items[1..], style), gaps[|tokens| + 1..]);
      HasConcat(t, p, text, (gaps[|tokens|] + [COMMA]) + rest);
      ReadsToken(t, p + |text|, gaps[|tokens|], [COMMA], rest);
      ReadsItems(t, p + |text| + |gaps[|tokens|]| + 1, items[1..], style, gaps[|tokens| + 1..], last, nesting, strtod,
                 before + [items[0]]);
      assert before + [items[0]] + items[1..] == before + items;
    }
    ValueStarts(t, p, items[0], style, gaps[..|tokens|], strtod);
    ReadsValue(t, p, items[0], style, gaps[..|tokens|], nesting, strtod);
    SpacesBeforeValue(t, p, SkipSpaces(t, p), nesting, strtod);
  }

  /** Where a value starts there is no bracket that closes, and no end of the text. */
  lemma ValueStarts(t: bytes, p: nat, v: Value, style: Style, gaps: seq<bytes>, strtod: Strtod)
    requires Proper(v, style.format, strtod) && |gaps| == |Tokens(v, style)| && AllBlank(gaps)
    requires Has(t, p, Weave(Tokens(v, style), gaps))
    ensures p <= |t| && SkipSpaces(t, p) <= |t| && SkipSpaces(t, SkipSpaces(t, p)) == SkipSpaces(t, p)
    ensures var c := At(t, SkipSpaces(t, p)); c != 0 && c != CLOSE_BRACKET && c != CLOSE_BRACE
  {
    hide Weave, Tokens, AllSpaces;
    var tokens := Tokens(v, style);
    FirstToken(v, style, strtod);
    assert [tokens[0]] + tokens[1..] == tokens;
    WeaveFirst(tokens[0], tokens[1..], gaps);
    ReadsToken(t, p, gaps[0], tokens[0], Weave(tokens[1..], gaps[1..]));
  }

  lemma ReadsObject(t: bytes, p: nat, members: Members, style: Style, gaps: seq<bytes>, nesting: nat, strtod: Strtod)
    requires Distinct(members)
    requires forall i :: 0 <= i < |members| ==>
               NulFree(members[i].name) && Proper(members[i].value, style.format, strtod)
    requires |gaps| == |Tokens(Object(members), style)| && AllBlank(gaps)
    requires Has(t, p, Weave(Tokens(Object(members), style), gaps))
    ensures At(t, p + |gaps[0]|) == OPEN_BRACE
    ensures ParseObject(t, p + |gaps[0]|, nesting + 1, strtod) ==
            if members == [] || nesting + 1 + MembersDepth(members) <= MAX_NESTING
            then Some((Object(members), p + |Weave(Tokens(Object(members), style), gaps)|)) else None
    decreases members, 1
  {
    hide Has, Weave, MembersTokens, ParseMembers, SkipSpaces, Proper, MembersDepth, NulFree, Distinct, AllSpaces,
      IsSpace, EndsNumber;
    var n := |gaps| - 1;
    var body, closing := Weave(MembersTokens(members, style), gaps[1..n]), gaps[n] + [CLOSE_BRACE];
    WeaveBrackets([OPEN_BRACE], MembersTokens(members, style), [CLOSE_BRACE], gaps);
    Brackets();
    ReadsToken(t, p, gaps[0], [OPEN_BRACE], body + closing);
    var start := p + |gaps[0]| + 1;
    HasConcat(t, start, body, closing);
    EmptyParts(closing);
    ReadsToken(t, start + |body|, gaps[n], [CLOSE_BRACE], []);
    if members == [] {
      NothingWoven([], style);
      assert gaps[1..n] == [];
    } else {
      assert [] + members == members;
      ReadsMembers(t, start, members, style, gaps[1..n], gaps[n], nesting + 1, strtod, []);
    }
  }

  /** One member: its text, and the comma and the members behind it. */
  lemma WeaveMembers(members: Members, style: Style, gaps: seq<bytes>)
    requires members != [] && |gaps| == |MembersTokens(members, style)|
    ensures var n := |MemberTokens(members[0], style)|;
            && n <= |gaps|
            && (|members| == 1 ==>
                  && n == |gaps|
                  && Weave(MembersTokens(members, style), gaps) == Weave(MemberTokens(members[0], style), gaps))
            && (|members| > 1 ==>
                  && n < |gaps| == n + 1 + |MembersTokens(members[1..], style)|
                  && Weave(MembersTokens(members, style), gaps)
                     == Weave(MemberTokens(members[0], style), gaps[..n])
                        + ((gaps[n] + [COMMA]) + Weave(MembersTokens(members[1..], style), gaps[n + 1..])))
  {
    hide Weave, MemberTokens;
    var tokens := MemberTokens(members[0], style);
    if |members| == 1 {
      assert tokens + [] == tokens;
    } else {
      WeaveConcat(tokens, [[COMMA]] + MembersTokens(members[1..], style), gaps);
      WeaveFirst([COMMA], MembersTokens(members[1..], style), gaps[|tokens|..]);
      assert gaps[|tokens|..][1..] == gaps[|tokens| + 1..];
    }
  }

  /** Reading one member: the key, the colon and the value. */
  lemma ReadsMember(t: bytes, p: nat, member: Entry<bytes, Value>, style: Style, gaps: seq<bytes>, nesting: nat,
                    strtod: Strtod)
    requires Proper(member.value, style.format, strtod)
    requires |gaps| == |MemberTokens(member, style)| && AllBlank(gaps)
    requires Has(t, p, Weave(MemberTokens(member, style), gaps))
    requires EndsNumber(At(t, p + |Weave(MemberTokens(member, style), gaps)|))
    ensures var key := SkipSpaces(t, p);
            && At(t, key) == QUOTE
            && QuotedString(t, key).Some? && QuotedString(t, key).value.0 == member.name
            && var colon := SkipSpaces(t, QuotedString(t, key).value.1);
               && At(t, colon) == COLON
               && ParseValue(t, colon + 1, nesting, strtod) ==
                  if nesting + Depth(member.value) <= MAX_NESTING
                  then Some((member.value, p + |Weave(MemberTokens(member, style), gaps)|)) else None
    decreases member, 0
  {
    hide Has, Weave, Tokens, ParseValue, Escape, QuotedString, Proper, Depth, AllSpaces, IsSpace, EndsNumber,
      SkipSpaces;
    var key, tokens := Quoted(member.name, style.escapeSlashes), Tokens(member.value, style);
    WeaveFirst(key, [[COLON]] + tokens, gaps);
    WeaveFirst([COLON], tokens, gaps[1..]);
    assert gaps[1..][1..] == gaps[2..];
    var text := Weave(tokens, gaps[2..]);
    Brackets();
    ReadsToken(t, p, gaps[0], key, (gaps[1] + [COLON]) + text);
    QuotedRoundTrip(t, p + |gaps[0]|, member.name, style.escapeSlashes);
    var colon := p + |gaps[0]| + |key| + |gaps[1]|;
    ReadsToken(t, p + |gaps[0]| + |key|, gaps[1], [COLON], text);
    ReadsValue(t, colon + 1, member.value, style, gaps[2..], nesting, strtod);
  }

  lemma {:induction false} ReadsMembers(t: bytes, p: nat, members: Members, style: Style, gaps: seq<bytes>, last: bytes,
                                        nesting: nat, strtod: Strtod, before: Members)
    requires members != [] && Distinct(before + members)
    requires forall i :: 0 <= i < |members| ==>
               NulFree(members[i].name) && Proper(members[i].value, style.format, strtod)
    requires |gaps| == |MembersTokens(members, style)| && AllBlank(gaps) && AllSpaces(last)
    requires Has(t, p, Weave(MembersTokens(members, style), gaps))
    requires Has(t, p + |Weave(MembersTokens(members, style), gaps)|, last + [CLOSE_BRACE])
    ensures At(t, SkipSpaces(t, p)) == QUOTE
    ensures ParseMembers(t, SkipSpaces(t, p), nesting, strtod, before) ==
            if nesting + MembersDepth(members) <= MAX_NESTING
            then Some((before + members, p + |Weave(MembersTokens(members, style), gaps)| + |last|)) else None
    decreases members, 0
  {
    hide Has, Weave, MemberTokens, MembersTokens, ParseMembers, ParseValue, SkipSpaces, QuotedString, Proper, Depth,
      NulFree, Distinct, AllSpaces, IsSpace, EndsNumber;
    WeaveMembers(members, style, gaps);
    var tokens := MemberTokens(members[0], style);
    var text := Weave(tokens, gaps[..|tokens|]);
    Brackets();
    AddsNext(before, members);
    if |members| == 1 {
      assert gaps[..|tokens|] == gaps && before + [members[0]] == before + members;
      EmptyParts(last + [CLOSE_BRACE]);
      ReadsToken(t, p + |text|, last, [CLOSE_BRACE], []);
    } else {
      var rest := Weave(MembersTokens(members[1..], style), gaps[|tokens| + 1..]);
      HasConcat(t, p, text, (gaps[|tokens|] + [COMMA]) + rest);
      ReadsToken(t, p + |text|, gaps[|tokens|], [COMMA], rest);
      assert before + [members[0]] + members[1..] == before + members;
      ReadsMembers(t, p + |text| + |gaps[|tokens|]| + 1, members[1..], style, gaps[|tokens| + 1..], last, nesting,
                   strtod, before + [members[0]]);
    }
    ReadsMember(t, p, members[0], style, gaps[..|tokens|], nesting, strtod);
    MemberStep(t, SkipSpaces(t, p), members[0], nesting, strtod, before);
  }

  /** One round of the member loop, behind which the next member or the end of the object stands. */
  lemma MemberStep(t: bytes, p: nat, member: Entry<bytes, Value>, nesting: nat, strtod: Strtod, before: Members)
    requires p <= |t| && At(t, p) != 0 && NulFree(member.name)
    requires QuotedString(t, p).Some? && QuotedString(t, p).value.0 == member.name
    requires At(t, SkipSpaces(t, QuotedString(t, p).value.1)) == COLON
    requires Add(before, member.name, member.value) == Some(before + [member])
    ensures var value := ParseValue(t, SkipSpaces(t, QuotedString(t, p).value.1) + 1, nesting, strtod);
            ParseMembers(t, p, nesting, strtod, before) ==
            if value.None? || value.value.0 != member.value then ParseMembers(t, p, nesting, strtod, before)
            else
              var comma := SkipSpaces(t, value.value.1);
              if At(t, comma) != COMMA then Some((before + [member], comma))
              else
                var next := SkipSpaces(t, comma + 1);
                if At(t, next) == CLOSE_BRACE then Some((before + [member], next))
                else ParseMembers(t, next, nesting, strtod, before + [member])
    ensures ParseValue(t, SkipSpaces(t, QuotedString(t, p).value.1) + 1, nesting, strtod) == None ==>
              ParseMembers(t, p, nesting, strtod, before) == None
  {
    hide ParseValue, QuotedString, NulFree, SkipSpaces;
  }

  lemma AddsNext(before: Members, members: Members)
    requires members != [] && Distinct(before + members)
    ensures Add(before, members[0].name, members[0].value) == Some(before + [members[0]])
  {
    PrefixLacksNext(before + members, |before|);
    assert (before + members)[..|before|] == before;
  }

  // ---------- the layouts of the serializer ----------

  /** The gaps that the serializer leaves, the first of them given. */
  function StyleGaps(v: Value, level: nat, style: Style, first: bytes): (gaps: seq<bytes>)
    ensures |gaps| == |Tokens(v, style)|
    decreases v, 2
  {
    match v
    case Array(items) =>
      [first] + (ItemGaps(items, level, style) + [if items == [] then [] else NewLine(style) + Indent(level, style)])
    case Object(members) =>
      [first] + (MembersGaps(members, level, style) +
               [if members == [] then [] else NewLine(style) + Indent(level, style)])
    case _ => [first]
  }

  function ItemGaps(items: seq<Value>, level: nat, style: Style): (gaps: seq<bytes>)
    ensures |gaps| == |ItemTokens(items, style)|
    decreases items, 0
  {
    if items == [] then []
    else
      StyleGaps(items[0], level + 1, style, NewLine(style) + Indent(level + 1, style))
      + if |items| == 1 then [] else [[]] + ItemGaps(items[1..], level, style)
  }

  function MembersGaps(members: Members, level: nat, style: Style): (gaps: seq<bytes>)
    ensures |gaps| == |MembersTokens(members, style)|
    decreases members, 0
  {
    if members == [] then []
    else MemberGaps(members[0], level, style) +
         if |members| == 1 then [] else [[]] + MembersGaps(members[1..], level, style)
  }

  function MemberGaps(member: Entry<bytes, Value>, level: nat, style: Style): (gaps: seq<bytes>)
    ensures |gaps| == |MemberTokens(member, style)|
    decreases member, 3
  {
    [NewLine(style) + Indent(level + 1, style)] + ([[]] + StyleGaps(member.value, level + 1, style, Gap(style)))
  }

  /** What the serializer writes, in either style and at any level, are the tokens of the value with white space
      between them. */
  lemma {:induction false} SerializeIsWoven(v: Value, level: nat, style: Style, first: bytes)
    requires AllSpaces(first)
    ensures AllBlank(StyleGaps(v, level, style, first))
    ensures first + Serialize(v, level, style) == Weave(Tokens(v, style), StyleGaps(v, level, style, first))
    decreases v, 1
  {
    hide Weave, SerializeItems, SerializeMembers, ItemTokens, MembersTokens, ItemGaps, MembersGaps, Indent, NewLine,
      AllSpaces;
    NoSpaces();
    LayoutIsSpace(level, style);
    BlankConcat(NewLine(style), Indent(level, style));
    match v
    case Array(items) =>
      var last := if items == [] then [] else NewLine(style) + Indent(level, style);
      BlankAround(first, ItemGaps(items, level, style), last);
      WeaveBrackets([OPEN_BRACKET], ItemTokens(items, style), [CLOSE_BRACKET], StyleGaps(v, level, style, first));
      var gaps := StyleGaps(v, level, style, first);
      assert gaps[1..|gaps| - 1] == ItemGaps(items, level, style);
      if items == [] {
        NoGaps(level, style);
        NothingWoven([], style);
        Enclose(first, OPEN_BRACKET, [], [], [], [], [], CLOSE_BRACKET);
      } else {
        ItemsAreWoven(items, level, style);
        Enclose(first, OPEN_BRACKET, NewLine(style), SerializeItems(items, level, style), Indent(level, style),
                Weave(ItemTokens(items, style), ItemGaps(items, level, style)), last, CLOSE_BRACKET);
      }
    case Object(members) =>
      var last := if members == [] then [] else NewLine(style) + Indent(level, style);
      BlankAround(first, MembersGaps(members, level, style), last);
      WeaveBrackets([OPEN_BRACE], MembersTokens(members, style), [CLOSE_BRACE], StyleGaps(v, level, style, first));
      var gaps := StyleGaps(v, level, style, first);
      assert gaps[1..|gaps| - 1] == MembersGaps(members, level, style);
      if members == [] {
        NoGaps(level, style);
        NothingWoven([], style);
        Enclose(first, OPEN_BRACE, [], [], [], [], [], CLOSE_BRACE);
      } else {
        MembersAreWoven(members, level, style);
        Enclose(first, OPEN_BRACE, NewLine(style), SerializeMembers(members, level, style), Indent(level, style),
                Weave(MembersTokens(members, style), MembersGaps(members, level, style)), last, CLOSE_BRACE);
      }
    case _ => WeaveOne(Tokens(v, style)[0], first);
  }

  lemma NoSpaces()
    ensures AllSpaces([])
  {
  }

  lemma NoGaps(level: nat, style: Style)
    ensures ItemGaps([], level, style) == [] && MembersGaps([], level, style) == []
  {
  }

  lemma BlankConcat(a: bytes, b: bytes)
    requires AllSpaces(a) && AllSpaces(b)
    ensures AllSpaces(a + b)
  {
  }

  lemma BlankAround(first: bytes, gaps: seq<bytes>, last: bytes)
    requires AllSpaces(first) && AllSpaces(last)
    ensures AllBlank(gaps) ==> AllBlank([first] + (gaps + [last]))
  {
    hide AllSpaces;
  }

  /** The text of a container, regrouped around its brackets. */
  lemma Enclose(first: bytes, open: byte, line: bytes, body: bytes, indent: bytes, woven: bytes,
                last: bytes, close: byte)
    requires line + body == woven + line && last == line + indent
    ensures first + (([open] + line) + (body + (indent + [close]))) == (first + [open]) + (woven + (last + [close]))
  {
    Regroup([open], line, body + (indent + [close]), line + (body + (indent + [close])));
    Regroup(line, body, indent + [close], body + (indent + [close]));
    Regroup(woven, line, indent + [close], line + (indent + [close]));
    Regroup(line, indent, [close], indent + [close]);
    Regroup(first, [open], woven + (last + [close]), [open] + (woven + (last + [close])));
  }

  lemma {:induction false} ItemsAreWoven(items: seq<Value>, level: nat, style: Style)
    requires items != []
    ensures AllBlank(ItemGaps(items, level, style))
    ensures NewLine(style) + SerializeItems(items, level, style)
         == Weave(ItemTokens(items, style), ItemGaps(items, level, style)) + NewLine(style)
    decreases items, 0
  {
    hide Weave, Serialize, Tokens, StyleGaps, ItemTokens, Indent, NewLine, AllSpaces;
    NoSpaces();
    LayoutIsSpace(level + 1, style);
    BlankConcat(NewLine(style), Indent(level + 1, style));
    var first := NewLine(style) + Indent(level + 1, style);
    var text, gaps := Serialize(items[0], level + 1, style), ItemGaps(items, level, style);
    var mine := StyleGaps(items[0], level + 1, style, first);
    SerializeIsWoven(items[0], level + 1, style, first);
    WeaveItems(items, style, gaps);
    assert gaps[..|mine|] == mine;
    if |items| == 1 {
      assert gaps == mine;
      LastElement(NewLine(style), Indent(level + 1, style), text);
    } else {
      ItemsAreWoven(items[1..], level, style);
      assert gaps[|mine| + 1..] == ItemGaps(items[1..], level, style);
      NextElement(NewLine(style), Indent(level + 1, style), text, SerializeItems(items[1..], level, style),
                  Weave(ItemTokens(items[1..], style), gaps[|mine| + 1..]));
    }
  }

  lemma LastElement(line: bytes, indent: bytes, text: bytes)
    ensures line + ((indent + text) + (([] + line) + [])) == ((line + indent) + text) + line
  {
    EmptyParts(line);
    Regroup(line, indent, text, indent + text);
    Regroup(line, indent + text, line, (indent + text) + line);
  }

  lemma NextElement(line: bytes, indent: bytes, text: bytes, rest: bytes, woven: bytes)
    requires line + rest == woven + line
    ensures line + ((indent + text) + (([COMMA] + line) + rest))
         == (((line + indent) + text) + (([] + [COMMA]) + woven)) + line
  {
    EmptyParts([COMMA]);
    Regroup(line, indent, text, indent + text);
    Regroup([COMMA], line, rest, line + rest);
    Regroup([COMMA], woven, line, woven + line);
    Regroup(line, indent + text, [COMMA] + (woven + line), (indent + text) + ([COMMA] + (woven + line)));
    Regroup((line + indent) + text, [COMMA] + woven, line, ([COMMA] + woven) + line);
  }

  lemma {:induction false} MembersAreWoven(members: Members, level: nat, style: Style)
    requires members != []
    ensures AllBlank(MembersGaps(members, level, style))
    ensures NewLine(style) + SerializeMembers(members, level, style)
         == Weave(MembersTokens(members, style), MembersGaps(members, level, style)) + NewLine(style)
    decreases members, 0
  {
    hide Weave, SerializeMember, MemberTokens, MemberGaps, MembersTokens, Indent, NewLine, AllSpaces;
    NoSpaces();
    var text, gaps := SerializeMember(members[0], level, style), MembersGaps(members, level, style);
    var mine := MemberGaps(members[0], level, style);
    MemberIsWoven(members[0], level, style);
    WeaveMembers(members, style, gaps);
    assert gaps[..|mine|] == mine;
    if |members| == 1 {
      assert gaps == mine;
      LastElement(NewLine(style), Indent(level + 1, style), text);
    } else {
      MembersAreWoven(members[1..], level, style);
      assert gaps[|mine| + 1..] == MembersGaps(members[1..], level, style);
      NextElement(NewLine(style), Indent(level + 1, style), text, SerializeMembers(members[1..], level, style),
                  Weave(MembersTokens(members[1..], style), gaps[|mine| + 1..]));
    }
  }

  lemma {:induction false} MemberIsWoven(member: Entry<bytes, Value>, level: nat, style: Style)
    ensures AllBlank(MemberGaps(member, level, style))
    ensures (NewLine(style) + Indent(level + 1, style)) + SerializeMember(member, level, style)
         == Weave(MemberTokens(member, style), MemberGaps(member, level, style))
    decreases member, 4
  {
    hide Weave, Serialize, Tokens, StyleGaps, Quoted, Indent, NewLine, Gap, AllSpaces;
    NoSpaces();
    LayoutIsSpace(level + 1, style);
    BlankConcat(NewLine(style), Indent(level + 1, style));
    var first, key := NewLine(style) + Indent(level + 1, style), Quoted(member.name, style.escapeSlashes);
    var text, gaps := Serialize(member.value, level + 1, style), MemberGaps(member, level, style);
    SerializeIsWoven(member.value, level + 1, style, Gap(style));
    WeaveFirst(key, [[COLON]] + Tokens(member.value, style), gaps);
    WeaveFirst([COLON], Tokens(member.value, style), gaps[1..]);
    assert gaps[1..][1..] == StyleGaps(member.value, level + 1, style, Gap(style));
    EmptyParts([COLON]);
    Regroup(key, [COLON] + Gap(style), text, ([COLON] + Gap(style)) + text);
    Regroup([COLON], Gap(style), text, Gap(style) + text);
    Regroup(first, key, [COLON] + (Gap(style) + text), key + ([COLON] + (Gap(style) + text)));
  }

  // ---------- whole documents ----------

  /** Any layout: whatever white space stands between the tokens of a value, and whatever may follow a number behind
      them, parsing gives the value, with the same member order, and stops exactly behind the last token, if and only
      if the value is nested no deeper than the parser's limit. */
  lemma AnyLayoutRoundTrip(v: Value, style: Style, gaps: seq<bytes>, tail: bytes, strtod: Strtod)
    requires Proper(v, style.format, strtod) && |gaps| == |Tokens(v, style)| && AllBlank(gaps)
    requires EndsNumber(At(tail, 0))
    ensures var text := Weave(Tokens(v, style), gaps);
            && ParseText(text + tail, strtod) == ParseValue(text + tail, 0, 0, strtod)
            && ParseText(text + tail, strtod) == if Depth(v) <= MAX_NESTING then Some((v, |text|)) else None
  {
    hide Proper, Weave, ParseValue, Depth, Tokens, EndsNumber, AllSpaces, SkipSpaces, IsSpace, StartsValue;
    var text := Weave(Tokens(v, style), gaps);
    assert Has(text + tail, 0, text);
    assert At(text + tail, |text|) == At(tail, 0);
    ReadsValue(text + tail, 0, v, style, gaps, 0, strtod);
    NoMark(text + tail, v, style, gaps, strtod);
  }

  lemma NoMark(t: bytes, v: Value, style: Style, gaps: seq<bytes>, strtod: Strtod)
    requires Proper(v, style.format, strtod) && |gaps| == |Tokens(v, style)| && AllBlank(gaps)
    requires Has(t, 0, Weave(Tokens(v, style), gaps))
    ensures !Has(t, 0, BOM)
  {
    hide Proper, Weave, Tokens, AllSpaces, Has;
    var tokens := Tokens(v, style);
    FirstToken(v, style, strtod);
    assert [tokens[0]] + tokens[1..] == tokens;
    WeaveFirst(tokens[0], tokens[1..], gaps);
    ReadsToken(t, 0, gaps[0], tokens[0], Weave(tokens[1..], gaps[1..]));
    if Has(t, 0, BOM) {
      FirstOf(t, 0, BOM);
    }
  }

  /** The document theorem for the layouts of the serializer: compact or indented, at every level. */
  lemma DocumentRoundTrip(v: Value, level: nat, style: Style, strtod: Strtod)
    requires Proper(v, style.format, strtod)
    ensures var text := Serialize(v, level, style);
            ParseText(text, strtod) == if Depth(v) <= MAX_NESTING then Some((v, |text|)) else None
  {
    hide Proper, Serialize, ParseValue, Depth, Weave;
    NoSpaces();
    SerializeIsWoven(v, level, style, []);
    EmptyParts(Serialize(v, level, style));
    AnyLayoutRoundTrip(v, style, StyleGaps(v, level, style, []), [], strtod);
  }

  /** Layout and slash escaping never change meaning. */
  lemma LayoutDoesNotMatter(v: Value, level: nat, level': nat, style: Style, style': Style, strtod: Strtod)
    requires Proper(v, style.format, strtod) && Proper(v, style'.format, strtod)
    ensures var a, b := ParseText(Serialize(v, level, style), strtod), ParseText(Serialize(v, level', style'), strtod);
            (a.Some? <==> b.Some?) && (a.Some? ==> a.value.0 == b.value.0)
  {
    DocumentRoundTrip(v, level, style, strtod);
    DocumentRoundTrip(v, level', style', strtod);
  }

  /** Every value that the parser returns is well named and within the nesting limit. */
  lemma {:induction false} ParsedIsWellNamed(t: bytes, p: nat, nesting: nat, strtod: Strtod)
    requires p <= |t| && ParseValue(t, p, nesting, strtod).Some?
    ensures var v := ParseValue(t, p, nesting, strtod).value.0;
            WellNamed(v) && nesting + Depth(v) <= MAX_NESTING
    decreases |t| - p, 2
  {
    hide ParseMembers, ParseItems, QuotedString, ItemsDepth, MembersDepth, IsDecimal;
    var start := SkipSpaces(t, p);
    var c := At(t, start);
    if c == OPEN_BRACE {
      var q := SkipSpaces(t, start + 1);
      if At(t, q) != CLOSE_BRACE {
        ParsedMembersWellNamed(t, q, nesting + 1, strtod, []);
      }
    } else if c == OPEN_BRACKET {
      var q := SkipSpaces(t, start + 1);
      if At(t, q) != CLOSE_BRACKET {
        ParsedItemsWellNamed(t, q, nesting + 1, strtod, []);
      }
    }
  }

  lemma {:induction false} ParsedItemsWellNamed(t: bytes, p: nat, nesting: nat, strtod: Strtod, items: seq<Value>)
    requires p <= |t| && ParseItems(t, p, nesting, strtod, items).Some?
    requires forall i :: 0 <= i < |items| ==> WellNamed(items[i]) && nesting + Depth(items[i]) <= MAX_NESTING
    ensures var result := ParseItems(t, p, nesting, strtod, items).value.0;
            && (forall i :: 0 <= i < |result| ==> WellNamed(result[i]))
            && (result != [] ==> nesting + ItemsDepth(result) <= MAX_NESTING)
    decreases |t| - p, 3
  {
    hide ParseValue, WellNamed, Depth, ItemsDepth;
    if At(t, p) == 0 {
      ItemsDepthBound(items, nesting);
    } else {
      ParsedIsWellNamed(t, p, nesting, strtod);
      var (value, stop) := ParseValue(t, p, nesting, strtod).value;
      var extended := items + [value];
      var comma := SkipSpaces(t, stop);
      if At(t, comma) == COMMA && At(t, SkipSpaces(t, comma + 1)) != CLOSE_BRACKET {
        ParsedItemsWellNamed(t, SkipSpaces(t, comma + 1), nesting, strtod, extended);
      } else {
        ItemsDepthBound(extended, nesting);
      }
    }
  }

  lemma {:induction false} ItemsDepthBound(items: seq<Value>, nesting: nat)
    requires forall i :: 0 <= i < |items| ==> nesting + Depth(items[i]) <= MAX_NESTING
    ensures items != [] ==> nesting + ItemsDepth(items) <= MAX_NESTING
    decreases |items|
  {
    if |items| > 1 {
      ItemsDepthBound(items[1..], nesting);
    }
  }

  lemma {:induction false} ParsedMembersWellNamed(t: bytes, p: nat, nesting: nat, strtod: Strtod, members: Members)
    requires p <= |t| && ParseMembers(t, p, nesting, strtod, members).Some?
    requires Distinct(members)
    requires forall i :: 0 <= i < |members| ==>
               NulFree(members[i].name) && WellNamed(members[i].value) &&
                 nesting + Depth(members[i].value) <= MAX_NESTING
    ensures var result := ParseMembers(t, p, nesting, strtod, members).value.0;
            && Distinct(result)
            && (forall i :: 0 <= i < |result| ==> NulFree(result[i].name) && WellNamed(result[i].value))
            && (result != [] ==> nesting + MembersDepth(result) <= MAX_NESTING)
    decreases |t| - p, 3
  {
    hide ParseValue, QuotedString, WellNamed, Depth, MembersDepth, NulFree, Distinct;
    if At(t, p) == 0 {
      MembersDepthBound(members, nesting);
    } else {
      var (key, q) := QuotedString(t, p).value;
      var colon := SkipSpaces(t, q);
      ParsedIsWellNamed(t, colon + 1, nesting, strtod);
      var (value, stop) := ParseValue(t, colon + 1, nesting, strtod).value;
      AddLaw(members, key, value, key);
      var extended := members + [Entry(key, value)];
      var comma := SkipSpaces(t, stop);
      if At(t, comma) == COMMA && At(t, SkipSpaces(t, comma + 1)) != CLOSE_BRACE {
        ParsedMembersWellNamed(t, SkipSpaces(t, comma + 1), nesting, strtod, extended);
      } else {
        MembersDepthBound(extended, nesting);
      }
    }
  }

  lemma {:induction false} MembersDepthBound(members: Members, nesting: nat)
    requires forall i :: 0 <= i < |members| ==> nesting + Depth(members[i].value) <= MAX_NESTING
    ensures members != [] ==> nesting + MembersDepth(members) <= MAX_NESTING
    decreases |members|
  {
    if |members| > 1 {
      MembersDepthBound(members[1..], nesting);
    }
  }

  /** Serializing what was parsed and parsing it again changes nothing, for every accepted text. */
  lemma ReparseIsStable(t: bytes, style: Style, strtod: Strtod)
    requires ParseText(t, strtod).Some?
    requires Printable(ParseText(t, strtod).value.0, style.format, strtod)
    ensures var v := ParseText(t, strtod).value.0;
            var text := Serialize(v, 0, style);
            ParseText(text, strtod) == Some((v, |text|))
  {
    ParsedIsWellNamed(t, if Has(t, 0, BOM) then |BOM| else 0, 0, strtod);
    DocumentRoundTrip(ParseText(t, strtod).value.0, 0, style, strtod);
  }

  /** All numbers are integers that a double holds exactly. */
  ghost predicate IntegersOnly(v: Value)
    decreases v
  {
    match v
    case Number(x) => x.Floor as real == x && -EXACT <= x.Floor <= EXACT
    case Array(items) => forall i :: 0 <= i < |items| ==> IntegersOnly(items[i])
    case Object(members) => forall i :: 0 <= i < |members| ==> IntegersOnly(members[i].value)
    case _ => true
  }

  lemma {:induction false} IntegersArePrintable(v: Value)
    requires IntegersOnly(v)
    ensures Printable(v, FormatInteger, ReadInteger)
    decreases v
  {
    match v
    case Number(x) => IntegersAreFaithful(x.Floor);
    case Array(items) =>
      forall i | 0 <= i < |items|
        ensures Printable(items[i], FormatInteger, ReadInteger)
      {
        IntegersArePrintable(items[i]);
      }
    case Object(members) =>
      forall i | 0 <= i < |members|
        ensures Printable(members[i].value, FormatInteger, ReadInteger)
      {
        IntegersArePrintable(members[i].value);
      }
    case _ =>
  }

  /** The document theorem for values whose numbers are integers, with the integer parts of printing and `strtod` in the
      place of the parameters. */
  lemma IntegerDocumentRoundTrip(v: Value, level: nat, pretty: bool, escapeSlashes: bool)
    requires WellNamed(v) && IntegersOnly(v)
    ensures var text := Serialize(v, level, Style(pretty, escapeSlashes, FormatInteger));
            ParseText(text, ReadInteger) == if Depth(v) <= MAX_NESTING then Some((v, |text|)) else None
  {
    IntegersArePrintable(v);
    DocumentRoundTrip(v, level, Style(pretty, escapeSlashes, FormatInteger), ReadInteger);
  }
}
