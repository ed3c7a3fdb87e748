/** `json_serialize_to_buffer_r`: the text of a value in compact and in pretty form. */
module Serializer {
  import opened Assoc
  import opened Bytes
  import opened Json
  import opened StringLiteral

  /** The settings that govern serialization; `format` stands for sprintf with the float format. */
  datatype Style = Style(pretty: bool, escapeSlashes: bool, format: real -> bytes)

  const COMMA: byte := 0x2C
  const COLON: byte := 0x3A
  const SPACE: byte := 0x20
  const NEWLINE: byte := 0x0A
  const OPEN_BRACKET: byte := 0x5B
  const CLOSE_BRACKET: byte := 0x5D
  const OPEN_BRACE: byte := 0x7B
  const CLOSE_BRACE: byte := 0x7D
  const TRUE_TOKEN: bytes := [0x74, 0x72, 0x75, 0x65]
  const FALSE_TOKEN: bytes := [0x66, 0x61, 0x6C, 0x73, 0x65]
  const NULL_TOKEN: bytes := [0x6E, 0x75, 0x6C, 0x6C]
  const INDENT_STR: bytes := [SPACE, SPACE, SPACE, SPACE]

  function Repeat(s: bytes, n: nat): bytes {
    if n == 0 then [] else s + Repeat(s, n - 1)
  }

  function Indent(level: nat, style: Style): bytes {
    if style.pretty then Repeat(INDENT_STR, level) else []
  }

  function NewLine(style: Style): bytes {
    if style.pretty then [NEWLINE] else []
  }

  function Serialize(v: Value, level: nat, style: Style): bytes
    decreases v, 2
  {
    match v
    case Null => NULL_TOKEN
    case Boolean(flag) => if flag then TRUE_TOKEN else FALSE_TOKEN
    case Number(x) => style.format(x)
    case String(chars) => Quoted(chars, style.escapeSlashes)
    case Array(items) =>
      if items == [] then [OPEN_BRACKET] + [CLOSE_BRACKET]
      else ([OPEN_BRACKET] + NewLine(style)) + (SerializeItems(items, level, style) + (Indent(level,
          style) + [CLOSE_BRACKET]))
    case Object(members) =>
      if members == [] then [OPEN_BRACE] + [CLOSE_BRACE]
      else ([OPEN_BRACE] + NewLine(style)) + (SerializeMembers(members, level, style) + (Indent(level,
          style) + [CLOSE_BRACE]))
  }

  function SerializeItems(items: seq<Value>, level: nat, style: Style): bytes
    decreases items, 0
  {
    if items == [] then []
    else (Indent(level + 1, style) + Serialize(items[0], level + 1, style))
         + (Separator(|items|, style) + SerializeItems(items[1..], level, style))
  }

  function SerializeMembers(members: Members, level: nat, style: Style): bytes
    decreases members, 0
  {
    if members == [] then []
    else (Indent(level + 1, style) + SerializeMember(members[0], level, style))
         + (Separator(|members|, style) + SerializeMembers(members[1..], level, style))
  }

  function SerializeMember(member: Entry<bytes, Value>, level: nat, style: Style): bytes
    decreases member, 3
  {
    (Quoted(member.name, style.escapeSlashes) + ([COLON] + Gap(style))) + Serialize(member.value, level + 1, style)
  }

  function Gap(style: Style): bytes {
    if style.pretty then [SPACE] else []
  }

  /** What stands behind an element when `remaining` elements, itself included, are left. */
  function Separator(remaining: nat, style: Style): bytes {
    (if remaining > 1 then [COMMA] else []) + NewLine(style)
  }
}
