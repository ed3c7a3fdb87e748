/** The two passes of serialization: the sizing pass, with no buffer, and the writing pass. */
module Writer {
  import opened Assoc
  import opened Bytes
  import opened Json
  import opened Serializer
  import opened StringLiteral

  /** `after` is `before` with `s` written at `off`; besides, only the byte behind `s` may have changed. */
  ghost predicate Wrote(before: bytes, after: bytes, off: nat, s: bytes) {
    && |after| == |before|
    && off + |s| < |before|
    && after[..off] == before[..off]
    && after[off..off + |s|] == s
    && after[off + |s| + 1..] == before[off + |s| + 1..]
  }

  lemma WroteBoth(a: bytes, b: bytes, c: bytes, off: nat, s: bytes, s': bytes)
    requires Wrote(a, b, off, s) && Wrote(b, c, off + |s|, s')
    ensures Wrote(a, c, off, s + s')
  {
    var mid := off + |s|;
    var end := mid + |s'|;
    assert c[..off] == c[..mid][..off] && b[..mid][..off] == b[..off];
    assert c[off..mid] == c[..mid][off..] && b[off..mid] == b[..mid][off..];
    assert c[off..end] == c[off..mid] + c[mid..end];
    assert b[end + 1..] == b[mid + 1..][end - mid..] && a[end + 1..] == a[mid + 1..][end - mid..];
  }

  ghost function Contents(buf: array?<byte>): bytes
    reads if buf == null then {} else {buf}
  {
    if buf == null then [] else buf[..]
  }

  /** Room for `s` and a terminating NUL at `off`, when there is a buffer. */
  ghost predicate Room(buf: array?<byte>, off: nat, s: bytes) {
    buf != null ==> off + |s| < buf.Length
  }

  /** APPEND_STRING. */
  method AppendString(buf: array?<byte>, off: nat, s: bytes) returns (written: nat)
    requires Room(buf, off, s)
    modifies if buf == null then {} else {buf}
    ensures written == |s|
    ensures buf != null ==> Wrote(old(Contents(buf)), Contents(buf), off, s) && buf[off + written] == 0
  {
    written := |s|;
    if buf != null {
      forall k | 0 <= k < |s| {
        buf[off + k] := s[k];
      }
      buf[off + written] := 0;
    }
  }

  lemma NothingWritten(buf: array?<byte>, off: nat)
    requires Room(buf, off, [])
    ensures buf != null ==> Wrote(Contents(buf), Contents(buf), off, [])
  {
  }

  /** One more piece behind what is written so far. */
  lemma Extend(live: bool, start: bytes, mid: bytes, after: bytes, off: nat, done: bytes, s: bytes)
    requires live ==> Wrote(start, mid, off, done) && Wrote(mid, after, off + |done|, s)
    ensures live ==> Wrote(start, after, off, done + s)
  {
    if live {
      WroteBoth(start, mid, after, off, done, s);
    }
  }

  lemma {:induction false} RepeatNext(n: nat)
    ensures |Repeat(INDENT_STR, n)| == 4 * n
    ensures Repeat(INDENT_STR, n + 1) == Repeat(INDENT_STR, n) + INDENT_STR
  {
    if n > 0 {
      RepeatNext(n - 1);
      Regroup(INDENT_STR, Repeat(INDENT_STR, n - 1), INDENT_STR, Repeat(INDENT_STR, n));
    } else {
      EmptyParts(INDENT_STR);
    }
  }

  /** APPEND_INDENT. */
  method AppendIndent(buf: array?<byte>, off: nat, level: nat, style: Style) returns (written: nat)
    requires Room(buf, off, Indent(level, style))
    modifies if buf == null then {} else {buf}
    ensures written == |Indent(level, style)|
    ensures buf != null ==> Wrote(old(Contents(buf)), Contents(buf), off, Indent(level, style))
  {
    hide Wrote, Repeat, Contents;
    written := 0;
    RepeatNext(level);
    RepeatNext(0);
    NothingWritten(buf, off);
    if style.pretty {
      var i := 0;
      while i < level
        invariant 0 <= i <= level && written == 4 * i == |Repeat(INDENT_STR, i)|
        invariant buf != null ==> Wrote(old(Contents(buf)), Contents(buf), off, Repeat(INDENT_STR, i))
      {
        ghost var mid := Contents(buf);
        RepeatNext(i);
        RepeatNext(i + 1);
        var n := AppendString(buf, off + written, INDENT_STR);
        Extend(buf != null, old(Contents(buf)), mid, Contents(buf), off, Repeat(INDENT_STR, i), INDENT_STR);
        written, i := written + n, i + 1;
      }
    }
  }

  lemma EscapeSplit(chars: bytes, i: nat, escapeSlashes: bool)
    requires i < |chars|
    ensures Escape(chars[i..], escapeSlashes) + [QUOTE]
         == EscapeByte(chars[i], escapeSlashes) + (Escape(chars[i + 1..], escapeSlashes) + [QUOTE])
  {
    assert chars[i..][1..] == chars[i + 1..];
  }

  lemma EscapeEmpty(chars: bytes, escapeSlashes: bool)
    requires chars == []
    ensures Escape(chars, escapeSlashes) + [QUOTE] == [QUOTE]
  {
  }

  /** `json_serialize_string`. */
  method SerializeString(chars: bytes, buf: array?<byte>, off: nat, escapeSlashes: bool) returns (written: nat)
    requires Room(buf, off, Quoted(chars, escapeSlashes))
    modifies if buf == null then {} else {buf}
    ensures written == |Quoted(chars, escapeSlashes)|
    ensures buf != null ==>
        && Wrote(old(Contents(buf)), Contents(buf), off, Quoted(chars, escapeSlashes))
        && buf[off + written] == 0
  {
    hide Wrote, EscapeByte, Escape, Contents;
    ghost var start, text := Contents(buf), Quoted(chars, escapeSlashes);
    written := AppendString(buf, off, [QUOTE]);
    ghost var done: bytes := [QUOTE];
    var i := 0;
    assert chars[0..] == chars;
    while i < |chars|
      invariant 0 <= i <= |chars| && written == |done|
      invariant done + (Escape(chars[i..], escapeSlashes) + [QUOTE]) == text
      invariant buf != null ==> Wrote(start, Contents(buf), off, done)
    {
      ghost var mid := Contents(buf);
      ghost var piece := EscapeByte(chars[i], escapeSlashes);
      EscapeSplit(chars, i, escapeSlashes);
      Regroup(done, piece, Escape(chars[i + 1..], escapeSlashes) + [QUOTE],
              Escape(chars[i..], escapeSlashes) + [QUOTE]);
      var n := SerializeByte(chars[i], buf, off + written, escapeSlashes);
      Extend(buf != null, start, mid, Contents(buf), off, done, piece);
      done, written, i := done + piece, written + n, i + 1;
    }
    EscapeEmpty(chars[i..], escapeSlashes);
    assert done + [QUOTE] == text;
    ghost var mid := Contents(buf);
    var n := AppendString(buf, off + written, [QUOTE]);
    Extend(buf != null, start, mid, Contents(buf), off, done, [QUOTE]);
    written := written + n;
  }

  /** The switch of `json_serialize_string`; the default branch writes the byte without a NUL behind it. */
  method SerializeByte(c: byte, buf: array?<byte>, off: nat, escapeSlashes: bool) returns (written: nat)
    requires Room(buf, off, EscapeByte(c, escapeSlashes))
    modifies if buf == null then {} else {buf}
    ensures written == |EscapeByte(c, escapeSlashes)|
    ensures buf != null ==> Wrote(old(Contents(buf)), Contents(buf), off, EscapeByte(c, escapeSlashes))
  {
    if EscapeByte(c, escapeSlashes) != [c] || c == SLASH {
      written := AppendString(buf, off, EscapeByte(c, escapeSlashes));
    } else {
      if buf != null {
        buf[off] := c;
      }
      written := 1;
    }
  }

  /** `json_serialize_to_buffer_r`: without a buffer it counts, with one it writes, and the count of the one is
      the length of what the other writes. */
  method SerializeInto(v: Value, buf: array?<byte>, off: nat, level: nat, style: Style) returns (written: nat)
    requires Room(buf, off, Serialize(v, level, style))
    modifies if buf == null then {} else {buf}
    ensures written == |Serialize(v, level, style)|
    ensures buf != null ==>
        && Wrote(old(Contents(buf)), Contents(buf), off, Serialize(v, level, style))
        && buf[off + written] == 0
    decreases v, 2
  {
    match v
    case Null => written := AppendString(buf, off, NULL_TOKEN);
    case Boolean(flag) => written := AppendString(buf, off, if flag then TRUE_TOKEN else FALSE_TOKEN);
    case Number(x) => written := AppendString(buf, off, style.format(x));
    case String(chars) => written := SerializeString(chars, buf, off, style.escapeSlashes);
    case Array(items) => written := SerializeArray(items, buf, off, level, style, v);
    case Object(members) => written := SerializeObject(members, buf, off, level, style, v);
  }

  method SerializeArray(items: seq<Value>, buf: array?<byte>, off: nat, level: nat, style: Style, ghost v: Value)
      returns (written: nat)
    requires v == Array(items) && Room(buf, off, Serialize(v, level, style))
    modifies if buf == null then {} else {buf}
    ensures written == |Serialize(v, level, style)|
    ensures buf != null ==>
        && Wrote(old(Contents(buf)), Contents(buf), off, Serialize(v, level, style))
        && buf[off + written] == 0
    decreases v, 1
  {
    hide Wrote, Indent, SerializeItems;
    ghost var start := Contents(buf);
    var count := |items|;
    written := AppendString(buf, off, [OPEN_BRACKET]);
    ghost var done: bytes := [OPEN_BRACKET];
    if count > 0 && style.pretty {
      ghost var mid := Contents(buf);
      var n := AppendString(buf, off + written, [NEWLINE]);
      Extend(buf != null, start, mid, Contents(buf), off, done, [NEWLINE]);
      done, written := done + [NEWLINE], written + n;
    }
    if count > 0 {
      ghost var mid, text := Contents(buf), SerializeItems(items, level, style);
      assert done == [OPEN_BRACKET] + NewLine(style);
      Regroup(done, text, Indent(level, style) + [CLOSE_BRACKET], text + (Indent(level, style) + [CLOSE_BRACKET]));
      var n := SerializeElements(items, buf, off + written, level, style, v);
      Extend(buf != null, start, mid, Contents(buf), off, done, text);
      done, written := done + text, written + n;
    }
    EmptyParts([CLOSE_BRACKET]);
    written := FinishContainer(buf, off, written, level, style, count > 0, CLOSE_BRACKET, start, done);
  }

  method SerializeElements(items: seq<Value>, buf: array?<byte>, off: nat, level: nat, style: Style, ghost v: Value)
      returns (written: nat)
    requires v == Array(items) && Room(buf, off, SerializeItems(items, level, style))
    modifies if buf == null then {} else {buf}
    ensures written == |SerializeItems(items, level, style)|
    ensures buf != null ==> Wrote(old(Contents(buf)), Contents(buf), off, SerializeItems(items, level, style))
    decreases v, 0
  {
    hide Wrote, Indent, Separator, Serialize, SerializeItems, Contents;
    ghost var start, text := Contents(buf), SerializeItems(items, level, style);
    ghost var done: bytes := [];
    NothingWritten(buf, off);
    written := 0;
    var i := 0;
    assert items[0..] == items;
    EmptyParts(text);
    while i < |items|
      invariant 0 <= i <= |items| && written == |done|
      invariant done + SerializeItems(items[i..], level, style) == text
      invariant buf != null ==> Wrote(start, Contents(buf), off, done)
    {
      ghost var mid := Contents(buf);
      ghost var piece := (Indent(level + 1, style) + Serialize(items[i], level + 1, style)) +
        Separator(|items| - i, style);
      assert SerializeItems(items[i..], level, style) == piece + SerializeItems(items[i + 1..], level, style) by {
        SerializeItemsSplit(items, i, level, style);
      }
      Regroup(done, piece, SerializeItems(items[i + 1..], level, style), SerializeItems(items[i..], level, style));
      var n := SerializeElement(items[i], buf, off + written, level, style, |items| - i, v);
      Extend(buf != null, start, mid, Contents(buf), off, done, piece);
      done, written, i := done + piece, written + n, i + 1;
    }
    EmptyParts(done);
    NothingLeft(items[i..], [], level, style);
  }

  lemma NothingLeft(items: seq<Value>, members: Members, level: nat, style: Style)
    ensures items == [] ==> SerializeItems(items, level, style) == []
    ensures members == [] ==> SerializeMembers(members, level, style) == []
  {
  }

  lemma SerializeItemsSplit(items: seq<Value>, i: nat, level: nat, style: Style)
    requires i < |items|
    ensures SerializeItems(items[i..], level, style)
         == ((Indent(level + 1, style) + Serialize(items[i], level + 1, style)) + Separator(|items| - i, style))
            + SerializeItems(items[i + 1..], level, style)
  {
    hide Indent, Serialize, Separator;
    assert items[i..][1..] == items[i + 1..];
    Regroup(Indent(level + 1, style) + Serialize(items[i], level + 1, style), Separator(|items| - i, style),
            SerializeItems(items[i + 1..], level, style),
            Separator(|items| - i, style) + SerializeItems(items[i + 1..], level, style));
  }

  lemma SerializeMembersSplit(members: Members, i: nat, level: nat, style: Style)
    requires i < |members|
    ensures SerializeMembers(members[i..], level, style)
         == ((Indent(level + 1, style) + SerializeMember(members[i], level, style)) + Separator(|members| - i, style))
            + SerializeMembers(members[i + 1..], level, style)
  {
    hide Indent, SerializeMember, Separator;
    assert members[i..][1..] == members[i + 1..];
    Regroup(Indent(level + 1, style) + SerializeMember(members[i], level, style), Separator(|members| - i, style),
            SerializeMembers(members[i + 1..], level, style),
            Separator(|members| - i, style) + SerializeMembers(members[i + 1..], level, style));
  }

  /** The loop body for arrays: indentation, element, comma and line break. */
  method SerializeElement(item: Value, buf: array?<byte>, off: nat, level: nat, style: Style, remaining: nat,
                          ghost v: Value)
      returns (written: nat)
    requires item < v
    requires Room(buf, off, (Indent(level + 1, style) + Serialize(item, level + 1, style)) +
                  Separator(remaining, style))
    modifies if buf == null then {} else {buf}
    ensures written == |(Indent(level + 1, style) + Serialize(item, level + 1, style)) + Separator(remaining, style)|
    ensures buf != null ==>
              Wrote(old(Contents(buf)), Contents(buf), off,
                    (Indent(level + 1, style) + Serialize(item, level + 1, style)) + Separator(remaining, style))
    decreases item, 3
  {
    hide Wrote, Indent, Serialize;
    ghost var start, text := Contents(buf), Serialize(item, level + 1, style);
    written := AppendIndent(buf, off, level + 1, style);
    ghost var done := Indent(level + 1, style);
    ghost var mid := Contents(buf);
    var n := SerializeInto(item, buf, off + written, level + 1, style);
    Extend(buf != null, start, mid, Contents(buf), off, done, text);
    done, written := done + text, written + n;
    mid := Contents(buf);
    n := AppendSeparator(buf, off + written, remaining, style);
    Extend(buf != null, start, mid, Contents(buf), off, done, Separator(remaining, style));
    written := written + n;
  }

  method AppendSeparator(buf: array?<byte>, off: nat, remaining: nat, style: Style) returns (written: nat)
    requires Room(buf, off, Separator(remaining, style))
    modifies if buf == null then {} else {buf}
    ensures written == |Separator(remaining, style)|
    ensures buf != null ==> Wrote(old(Contents(buf)), Contents(buf), off, Separator(remaining, style))
  {
    hide Wrote, Contents;
    ghost var start := Contents(buf);
    ghost var done: bytes := [];
    written := 0;
    NothingWritten(buf, off);
    if remaining > 1 {
      ghost var mid := Contents(buf);
      var n := AppendString(buf, off + written, [COMMA]);
      Extend(buf != null, start, mid, Contents(buf), off, done, [COMMA]);
      done, written := done + [COMMA], written + n;
    }
    if style.pretty {
      ghost var mid := Contents(buf);
      var n := AppendString(buf, off + written, [NEWLINE]);
      Extend(buf != null, start, mid, Contents(buf), off, done, [NEWLINE]);
      done, written := done + [NEWLINE], written + n;
    }
    assert done == Separator(remaining, style);
  }

  /** The end of a container: indentation when it is not empty, and the closing bracket. */
  method FinishContainer(buf: array?<byte>, off: nat, sofar: nat, level: nat, style: Style, indented: bool, close: byte,
                         ghost start: bytes, ghost done: bytes) returns (written: nat)
    requires sofar == |done|
    requires Room(buf, off, done + ((if indented then Indent(level, style) else []) + [close]))
    requires buf != null ==> Wrote(start, Contents(buf), off, done)
    modifies if buf == null then {} else {buf}
    ensures written == |done + ((if indented then Indent(level, style) else []) + [close])|
    ensures buf != null ==> Wrote(start, Contents(buf), off, done + ((if indented then Indent(level, style)
        else []) + [close]))
    ensures buf != null ==> buf[off + written] == 0
  {
    hide Wrote, Indent;
    written := sofar;
    ghost var text := done;
    if indented {
      ghost var mid := Contents(buf);
      var n := AppendIndent(buf, off + written, level, style);
      Extend(buf != null, start, mid, Contents(buf), off, text, Indent(level, style));
      text, written := text + Indent(level, style), written + n;
    }
    ghost var mid := Contents(buf);
    var n := AppendString(buf, off + written, [close]);
    Extend(buf != null, start, mid, Contents(buf), off, text, [close]);
    written := written + n;
    assert text + [close] == done + ((if indented then Indent(level, style) else []) + [close]);
  }

  method SerializeObject(members: Members, buf: array?<byte>, off: nat, level: nat, style: Style, ghost v: Value)
      returns (written: nat)
    requires v == Object(members) && Room(buf, off, Serialize(v, level, style))
    modifies if buf == null then {} else {buf}
    ensures written == |Serialize(v, level, style)|
    ensures buf != null ==>
        && Wrote(old(Contents(buf)), Contents(buf), off, Serialize(v, level, style))
        && buf[off + written] == 0
    decreases v, 1
  {
    hide Wrote, Indent, SerializeMembers;
    ghost var start := Contents(buf);
    var count := |members|;
    written := AppendString(buf, off, [OPEN_BRACE]);
    ghost var done: bytes := [OPEN_BRACE];
    if count > 0 && style.pretty {
      ghost var mid := Contents(buf);
      var n := AppendString(buf, off + written, [NEWLINE]);
      Extend(buf != null, start, mid, Contents(buf), off, done, [NEWLINE]);
      done, written := done + [NEWLINE], written + n;
    }
    if count > 0 {
      ghost var mid, text := Contents(buf), SerializeMembers(members, level, style);
      assert done == [OPEN_BRACE] + NewLine(style);
      Regroup(done, text, Indent(level, style) + [CLOSE_BRACE], text + (Indent(level, style) + [CLOSE_BRACE]));
      var n := SerializeEntries(members, buf, off + written, level, style, v);
      Extend(buf != null, start, mid, Contents(buf), off, done, text);
      done, written := done + text, written + n;
    }
    EmptyParts([CLOSE_BRACE]);
    written := FinishContainer(buf, off, written, level, style, count > 0, CLOSE_BRACE, start, done);
  }

  method SerializeEntries(members: Members, buf: array?<byte>, off: nat, level: nat, style: Style, ghost v: Value)
      returns (written: nat)
    requires v == Object(members) && Room(buf, off, SerializeMembers(members, level, style))
    modifies if buf == null then {} else {buf}
    ensures written == |SerializeMembers(members, level, style)|
    ensures buf != null ==> Wrote(old(Contents(buf)), Contents(buf), off, SerializeMembers(members, level, style))
    decreases v, 0
  {
    hide Wrote, Indent, Separator, SerializeMember, SerializeMembers, Contents;
    ghost var start, text := Contents(buf), SerializeMembers(members, level, style);
    ghost var done: bytes := [];
    NothingWritten(buf, off);
    written := 0;
    var i := 0;
    assert members[0..] == members;
    EmptyParts(text);
    while i < |members|
      invariant 0 <= i <= |members| && written == |done|
      invariant done + SerializeMembers(members[i..], level, style) == text
      invariant buf != null ==> Wrote(start, Contents(buf), off, done)
    {
      ghost var mid := Contents(buf);
      ghost var piece := (Indent(level + 1, style) + SerializeMember(members[i], level,
          style)) + Separator(|members| - i, style);
      assert SerializeMembers(members[i..], level, style)
         == piece + SerializeMembers(members[i + 1..], level, style) by {
        SerializeMembersSplit(members, i, level, style);
      }
      Regroup(done, piece, SerializeMembers(members[i + 1..], level, style),
              SerializeMembers(members[i..], level, style));
      var n := SerializeEntry(members[i], buf, off + written, level, style, |members| - i, v);
      Extend(buf != null, start, mid, Contents(buf), off, done, piece);
      done, written, i := done + piece, written + n, i + 1;
    }
    EmptyParts(done);
    NothingLeft([], members[i..], level, style);
  }

  /** The loop body for objects: indentation, key and value, comma and line break. */
  method SerializeEntry(member: Entry<bytes, Value>, buf: array?<byte>, off: nat, level: nat, style: Style,
                        remaining: nat, ghost v: Value) returns (written: nat)
    requires member < v
    requires Room(buf, off, (Indent(level + 1, style) + SerializeMember(member, level, style)) +
                  Separator(remaining, style))
    modifies if buf == null then {} else {buf}
    ensures written == |(Indent(level + 1, style) + SerializeMember(member, level, style)) +
                  Separator(remaining, style)|
    ensures buf != null ==>
              Wrote(old(Contents(buf)), Contents(buf), off,
                    (Indent(level + 1, style) + SerializeMember(member, level, style)) + Separator(remaining, style))
    decreases member, 4
  {
    hide Wrote, Indent, SerializeMember, Separator;
    ghost var start, text := Contents(buf), SerializeMember(member, level, style);
    written := AppendIndent(buf, off, level + 1, style);
    ghost var done := Indent(level + 1, style);
    ghost var mid := Contents(buf);
    var n := SerializeKeyAndValue(member, buf, off + written, level, style);
    Extend(buf != null, start, mid, Contents(buf), off, done, text);
    done, written := done + text, written + n;
    mid := Contents(buf);
    n := AppendSeparator(buf, off + written, remaining, style);
    Extend(buf != null, start, mid, Contents(buf), off, done, Separator(remaining, style));
    written := written + n;
  }

  lemma GapText(key: bytes, style: Style)
    ensures key + ([COLON] + Gap(style)) == if style.pretty then key + [COLON] + [SPACE] else key + [COLON]
  {
  }

  method SerializeKey(name: bytes, buf: array?<byte>, off: nat, style: Style) returns (written: nat)
    requires Room(buf, off, Quoted(name, style.escapeSlashes) + ([COLON] + Gap(style)))
    modifies if buf == null then {} else {buf}
    ensures written == |Quoted(name, style.escapeSlashes) + ([COLON] + Gap(style))|
    ensures buf != null ==>
              Wrote(old(Contents(buf)), Contents(buf), off, Quoted(name, style.escapeSlashes) + ([COLON] + Gap(style)))
  {
    hide Wrote, Quoted;
    ghost var start, key := Contents(buf), Quoted(name, style.escapeSlashes);
    written := SerializeString(name, buf, off, style.escapeSlashes);
    ghost var mid := Contents(buf);
    var n := AppendString(buf, off + written, [COLON]);
    Extend(buf != null, start, mid, Contents(buf), off, key, [COLON]);
    written := written + n;
    GapText(key, style);
    if style.pretty {
      mid := Contents(buf);
      n := AppendString(buf, off + written, [SPACE]);
      Extend(buf != null, start, mid, Contents(buf), off, key + [COLON], [SPACE]);
      written := written + n;
    }
  }

  method SerializeKeyAndValue(member: Entry<bytes, Value>, buf: array?<byte>, off: nat, level: nat, style: Style)
      returns (written: nat)
    requires Room(buf, off, SerializeMember(member, level, style))
    modifies if buf == null then {} else {buf}
    ensures written == |SerializeMember(member, level, style)|
    ensures buf != null ==> Wrote(old(Contents(buf)), Contents(buf), off, SerializeMember(member, level, style))
    decreases member, 3
  {
    hide Wrote, Serialize, Quoted, Gap;
    ghost var start, text := Contents(buf), Serialize(member.value, level + 1, style);
    ghost var key := Quoted(member.name, style.escapeSlashes) + ([COLON] + Gap(style));
    written := SerializeKey(member.name, buf, off, style);
    ghost var mid := Contents(buf);
    var n := SerializeInto(member.value, buf, off + written, level + 1, style);
    Extend(buf != null, start, mid, Contents(buf), off, key, text);
    written := written + n;
  }

  /** `json_serialization_size` and its pretty form. */
  method SerializationSize(v: Value, style: Style) returns (size: nat)
    ensures size == |Serialize(v, 0, style)| + 1
  {
    var written := SerializeInto(v, null, 0, 0, style);
    size := written + 1;
  }

  /** `json_serialize_to_buffer` and its pretty form: refuses a buffer that is too small, and otherwise leaves the
      NUL-terminated text at its start and every byte behind that untouched. */
  method SerializeToBuffer(v: Value, buf: array<byte>, style: Style) returns (ok: bool)
    modifies buf
    ensures ok <==> |Serialize(v, 0, style)| < buf.Length
    ensures ok ==> var n := |Serialize(v, 0, style)|;
                   buf[..n] == Serialize(v, 0, style) && buf[n] == 0 && buf[n + 1..] == old(buf[n + 1..])
    ensures !ok ==> buf[..] == old(buf[..])
  {
    var needed := SerializationSize(v, style);
    if buf.Length < needed {
      return false;
    }
    var written := SerializeInto(v, buf, 0, 0, style);
    return true;
  }

  /** `json_serialize_to_string` and its pretty form: the buffer of exactly the computed size always suffices. */
  method SerializeToString(v: Value, style: Style) returns (text: array<byte>)
    ensures fresh(text) && text[..] == Serialize(v, 0, style) + [0]
  {
    var size := SerializationSize(v, style);
    text := new byte[size];
    var ok := SerializeToBuffer(v, text, style);
    assert text[..] == text[..size - 1] + [text[size - 1]];
  }
}
