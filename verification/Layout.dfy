/** What the two layouts of the serializer look like, byte for byte. */
module Layout {
  import opened Assoc
  import opened Bytes
  import opened Json
  import opened RoundTrip
  import opened Serializer
  import opened StringLiteral

  function Blanks(n: nat): bytes {
    seq(n, _ => 0x20)
  }

  /** The break in front of what stands `n` levels deep: a line feed and four spaces for each level, when `pretty`. */
  function Break(n: nat, pretty: bool): bytes {
    if pretty then [0x0A] + Blanks(4 * n) else []
  }

  /** The parts with a comma between any two. */
  function Join(parts: seq<bytes>): bytes {
    if parts == [] then []
    else if |parts| == 1 then parts[0]
    else parts[0] + ([0x2C] + Join(parts[1..]))
  }

  /** The text of a value that stands `n` levels deep. */
  function Text(v: Value, n: nat, style: Style): bytes
    decreases v, 1
  {
    match v
    case Null => [0x6E, 0x75, 0x6C, 0x6C]
    case Boolean(flag) => if flag then [0x74, 0x72, 0x75, 0x65] else [0x66, 0x61, 0x6C, 0x73, 0x65]
    case Number(x) => style.format(x)
    case String(chars) => Quoted(chars, style.escapeSlashes)
    case Array(items) =>
      if items == [] then [0x5B, 0x5D]
      else ([0x5B] + Join(ItemTexts(items, n + 1, style))) + (Break(n, style.pretty) + [0x5D])
    case Object(members) =>
      if members == [] then [0x7B, 0x7D]
      else ([0x7B] + Join(MemberTexts(members, n + 1, style))) + (Break(n, style.pretty) + [0x7D])
  }

  function ItemTexts(items: seq<Value>, n: nat, style: Style): (texts: seq<bytes>)
    ensures |texts| == |items|
    decreases items, 0
  {
    if items == [] then []
    else [Break(n, style.pretty) + Text(items[0], n, style)] + ItemTexts(items[1..], n, style)
  }

  function MemberTexts(members: Members, n: nat, style: Style): (texts: seq<bytes>)
    ensures |texts| == |members|
    decreases members, 0
  {
    if members == [] then []
    else [Break(n, style.pretty) + MemberText(members[0], n, style)] + MemberTexts(members[1..], n, style)
  }

  function MemberText(member: Entry<bytes, Value>, n: nat, style: Style): bytes
    decreases member, 2
  {
    Quoted(member.name, style.escapeSlashes) +
    ((if style.pretty then [0x3A, 0x20] else [0x3A]) + Text(member.value, n, style))
  }

  lemma {:induction false} RepeatedIndent(n: nat)
    ensures Repeat(INDENT_STR, n) == Blanks(4 * n)
  {
    if n > 0 {
      RepeatedIndent(n - 1);
      assert INDENT_STR + Blanks(4 * (n - 1)) == Blanks(4 * n);
    }
  }

  lemma BreakIs(n: nat, style: Style)
    ensures NewLine(style) + Indent(n, style) == Break(n, style.pretty)
  {
    RepeatedIndent(n);
  }

  /** The serializer writes just this text, in either layout and from every level on. */
  lemma {:induction false} SerializeIsText(v: Value, level: nat, style: Style)
    ensures Serialize(v, level, style) == Text(v, level, style)
    decreases v, 1
  {
    hide NewLine, Indent, Break, Join, ItemTexts, MemberTexts, SerializeItems, SerializeMembers;
    BreakIs(level, style);
    var line, indent := NewLine(style), Indent(level, style);
    match v
    case Array(items) =>
      if items != [] {
        ItemsAreTexts(items, level, style);
        Shift([OPEN_BRACKET], line, SerializeItems(items, level, style), indent, [CLOSE_BRACKET],
              Join(ItemTexts(items, level + 1, style)));
      }
    case Object(members) =>
      if members != [] {
        MembersAreTexts(members, level, style);
        Shift([OPEN_BRACE], line, SerializeMembers(members, level, style), indent, [CLOSE_BRACE],
              Join(MemberTexts(members, level + 1, style)));
      }
    case _ =>
  }

  /** The line break in front of the body moves behind it. */
  lemma Shift(open: bytes, line: bytes, body: bytes, indent: bytes, close: bytes, joined: bytes)
    requires line + body == joined + line
    ensures (open + line) + (body + (indent + close)) == (open + joined) + ((line + indent) + close)
  {
    assert (open + line) + (body + (indent + close)) == (open + (line + body)) + (indent + close);
  }

  lemma {:induction false} ItemsAreTexts(items: seq<Value>, level: nat, style: Style)
    requires items != []
    ensures NewLine(style) + SerializeItems(items, level, style)
         == Join(ItemTexts(items, level + 1, style)) + NewLine(style)
    decreases items, 0
  {
    hide NewLine, Indent, Break, Serialize, Text;
    var line, indent := NewLine(style), Indent(level + 1, style);
    BreakIs(level + 1, style);
    SerializeIsText(items[0], level + 1, style);
    var text, rest := Serialize(items[0], level + 1, style), SerializeItems(items[1..], level, style);
    var parts := ItemTexts(items, level + 1, style);
    assert parts[0] == (line + indent) + text && parts[1..] == ItemTexts(items[1..], level + 1, style);
    if |items| == 1 {
      LastPart(line, indent, text);
    } else {
      ItemsAreTexts(items[1..], level, style);
      NextPart(line, indent, text, rest, Join(parts[1..]));
    }
  }

  lemma LastPart(line: bytes, indent: bytes, text: bytes)
    ensures line + ((indent + text) + (([] + line) + [])) == ((line + indent) + text) + line
  {
  }

  lemma NextPart(line: bytes, indent: bytes, text: bytes, rest: bytes, joined: bytes)
    requires line + rest == joined + line
    ensures line + ((indent + text) + (([COMMA] + line) + rest))
         == (((line + indent) + text) + ([COMMA] + joined)) + line
  {
    assert ([COMMA] + line) + rest == [COMMA] + (line + rest);
    assert ([COMMA] + joined) + line == [COMMA] + (joined + line);
  }

  lemma {:induction false} MembersAreTexts(members: Members, level: nat, style: Style)
    requires members != []
    ensures NewLine(style) + SerializeMembers(members, level, style)
         == Join(MemberTexts(members, level + 1, style)) + NewLine(style)
    decreases members, 0
  {
    hide NewLine, Indent, Break, SerializeMember, MemberText;
    var line, indent := NewLine(style), Indent(level + 1, style);
    BreakIs(level + 1, style);
    MemberIsText(members[0], level, style);
    var text, rest := SerializeMember(members[0], level, style), SerializeMembers(members[1..], level, style);
    var parts := MemberTexts(members, level + 1, style);
    assert parts[0] == (line + indent) + text && parts[1..] == MemberTexts(members[1..], level + 1, style);
    if |members| == 1 {
      LastPart(line, indent, text);
    } else {
      MembersAreTexts(members[1..], level, style);
      NextPart(line, indent, text, rest, Join(parts[1..]));
    }
  }

  lemma {:induction false} MemberIsText(member: Entry<bytes, Value>, level: nat, style: Style)
    ensures SerializeMember(member, level, style) == MemberText(member, level + 1, style)
    decreases member, 2
  {
    hide Quoted, Serialize, Text;
    SerializeIsText(member.value, level + 1, style);
    var name, text := Quoted(member.name, style.escapeSlashes), Serialize(member.value, level + 1, style);
    assert (name + ([COLON] + Gap(style))) + text == name + (([COLON] + Gap(style)) + text);
  }

  // ---------- the same by the gaps between the tokens ----------

  function Flat(tokens: seq<bytes>): bytes {
    if tokens == [] then [] else tokens[0] + Flat(tokens[1..])
  }

  lemma {:induction false} NoGapsAreFlat(tokens: seq<bytes>, gaps: seq<bytes>)
    requires |gaps| == |tokens| && forall i :: 0 <= i < |gaps| ==> gaps[i] == []
    ensures Weave(tokens, gaps) == Flat(tokens)
  {
    if tokens != [] {
      NoGapsAreFlat(tokens[1..], gaps[1..]);
      EmptyParts(tokens[0]);
    }
  }

  /** The gaps in front of the tokens of a value `n` levels deep: line breaks in front of elements, names and the
      closing bracket of a container that is not empty, a space behind a colon, and nothing anywhere else. */
  function PrettyGaps(v: Value, n: nat, first: bytes): seq<bytes>
    decreases v, 1
  {
    match v
    case Array(items) => [first] + (PrettyItemGaps(items, n + 1) + [if items == [] then [] else Break(n, true)])
    case Object(members) =>
      [first] + (PrettyMemberGaps(members, n + 1) + [if members == [] then [] else Break(n, true)])
    case _ => [first]
  }

  function PrettyItemGaps(items: seq<Value>, n: nat): seq<bytes>
    decreases items, 0
  {
    if items == [] then []
    else PrettyGaps(items[0], n, Break(n, true)) + if |items| == 1 then [] else [[]] + PrettyItemGaps(items[1..], n)
  }

  function PrettyMemberGaps(members: Members, n: nat): seq<bytes>
    decreases members, 0
  {
    if members == [] then []
    else NamedGaps(members[0], n) + if |members| == 1 then [] else [[]] + PrettyMemberGaps(members[1..], n)
  }

  function NamedGaps(member: Entry<bytes, Value>, n: nat): seq<bytes>
    decreases member, 2
  {
    [Break(n, true)] + ([[]] + PrettyGaps(member.value, n, [0x20]))
  }

  lemma {:induction false} PrettyGapsAre(v: Value, level: nat, style: Style, first: bytes)
    requires style.pretty
    ensures StyleGaps(v, level, style, first) == PrettyGaps(v, level, first)
    decreases v, 1
  {
    hide Break, NewLine, Indent, ItemGaps, MembersGaps, PrettyItemGaps, PrettyMemberGaps;
    BreakIs(level, style);
    match v
    case Array(items) => PrettyItemGapsAre(items, level, style);
    case Object(members) => PrettyMemberGapsAre(members, level, style);
    case _ =>
  }

  lemma {:induction false} PrettyItemGapsAre(items: seq<Value>, level: nat, style: Style)
    requires style.pretty
    ensures ItemGaps(items, level, style) == PrettyItemGaps(items, level + 1)
    decreases items, 0
  {
    hide Break, NewLine, Indent, StyleGaps, PrettyGaps;
    if items != [] {
      BreakIs(level + 1, style);
      PrettyGapsAre(items[0], level + 1, style, Break(level + 1, true));
      PrettyItemGapsAre(items[1..], level, style);
    }
  }

  lemma {:induction false} PrettyMemberGapsAre(members: Members, level: nat, style: Style)
    requires style.pretty
    ensures MembersGaps(members, level, style) == PrettyMemberGaps(members, level + 1)
    decreases members, 0
  {
    hide MemberGaps, NamedGaps;
    if members != [] {
      NamedGapsAre(members[0], level, style);
      PrettyMemberGapsAre(members[1..], level, style);
    }
  }

  lemma {:induction false} NamedGapsAre(member: Entry<bytes, Value>, level: nat, style: Style)
    requires style.pretty
    ensures MemberGaps(member, level, style) == NamedGaps(member, level + 1)
    decreases member, 2
  {
    hide Break, NewLine, Indent, StyleGaps, PrettyGaps;
    BreakIs(level + 1, style);
    PrettyGapsAre(member.value, level + 1, style, [SPACE]);
  }

  lemma {:induction false} CompactGapsAre(v: Value, level: nat, style: Style)
    requires !style.pretty
    ensures forall i :: 0 <= i < |StyleGaps(v, level, style, [])| ==> StyleGaps(v, level, style, [])[i] == []
    decreases v, 1
  {
    hide ItemGaps, MembersGaps;
    match v
    case Array(items) => CompactItemGapsAre(items, level, style);
    case Object(members) => CompactMemberGapsAre(members, level, style);
    case _ =>
  }

  lemma {:induction false} CompactItemGapsAre(items: seq<Value>, level: nat, style: Style)
    requires !style.pretty
    ensures forall i :: 0 <= i < |ItemGaps(items, level, style)| ==> ItemGaps(items, level, style)[i] == []
    decreases items, 0
  {
    hide StyleGaps;
    if items != [] {
      CompactGapsAre(items[0], level + 1, style);
      CompactItemGapsAre(items[1..], level, style);
      assert NewLine(style) + Indent(level + 1, style) == [];
    }
  }

  lemma {:induction false} CompactMemberGapsAre(members: Members, level: nat, style: Style)
    requires !style.pretty
    ensures forall i :: 0 <= i < |MembersGaps(members, level, style)| ==> MembersGaps(members, level, style)[i] == []
    decreases members, 0
  {
    hide MemberGaps;
    if members != [] {
      CompactNamedGapsAre(members[0], level, style);
      CompactMemberGapsAre(members[1..], level, style);
    }
  }

  lemma {:induction false} CompactNamedGapsAre(member: Entry<bytes, Value>, level: nat, style: Style)
    requires !style.pretty
    ensures forall i :: 0 <= i < |MemberGaps(member, level, style)| ==> MemberGaps(member, level, style)[i] == []
    decreases member, 2
  {
    hide StyleGaps;
    CompactGapsAre(member.value, level + 1, style);
    assert NewLine(style) + Indent(level + 1, style) == [];
  }

  /** Compact text is the tokens and nothing else; pretty text has the line breaks and spaces listed above. */
  lemma LayoutExactly(v: Value, level: nat, style: Style)
    ensures !style.pretty ==> Serialize(v, level, style) == Flat(Tokens(v, style))
    ensures style.pretty ==>
              && |PrettyGaps(v, level, [])| == |Tokens(v, style)|
              && Serialize(v, level, style) == Weave(Tokens(v, style), PrettyGaps(v, level, []))
  {
    hide Serialize, Tokens, StyleGaps, PrettyGaps, Weave, Flat;
    NoSpaces();
    SerializeIsWoven(v, level, style, []);
    EmptyParts(Serialize(v, level, style));
    if style.pretty {
      PrettyGapsAre(v, level, style, []);
    } else {
      CompactGapsAre(v, level, style);
      NoGapsAreFlat(Tokens(v, style), StyleGaps(v, level, style, []));
    }
  }
}
