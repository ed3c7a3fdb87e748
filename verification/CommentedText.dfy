/** Parsing text with comments: a comment between tokens is white space, and what looks like one in a string is kept. */
module CommentedText {
  import opened Assoc
  import opened Bytes
  import opened Comments
  import opened DecimalNumbers
  import opened Json
  import opened Parser
  import opened RoundTrip
  import opened Serializer
  import opened StringLiteral
  import opened Wrappers

  /** `json_parse_string_with_comments`; unlike `json_parse_string` it does not skip a byte order mark. */
  function ParseWithComments(t: bytes, strtod: Strtod): Option<(Value, nat)> {
    ParseValue(StripBoth(t), 0, 0, strtod)
  }

  function StripBoth(t: bytes): (r: bytes)
    ensures |r| == |t|
  {
    Strip(Strip(t, false, false, BLOCK_OPEN, BLOCK_CLOSE), false, false, LINE_OPEN, LINE_CLOSE)
  }

  /** A text behind a byte order mark is refused; other texts without comments are read as `json_parse_string` does. */
  lemma MarkedTextIsRefused(t: bytes, strtod: Strtod)
    ensures Has(t, 0, BOM) ==> ParseWithComments(t, strtod) == None
    ensures StripBoth(t) == t && !Has(t, 0, BOM) ==> ParseWithComments(t, strtod) == ParseText(t, strtod)
  {
    hide Strip;
    if Has(t, 0, BOM) {
      FirstOf(t, 0, BOM);
      MarkStays(t, BLOCK_OPEN, BLOCK_CLOSE);
      MarkStays(Strip(t, false, false, BLOCK_OPEN, BLOCK_CLOSE), LINE_OPEN, LINE_CLOSE);
      MarkStartsNothing(StripBoth(t), strtod);
    }
  }

  lemma MarkStays(s: bytes, open: bytes, close: bytes)
    requires SlashToken(open) && At(s, 0) == 0xEF
    ensures At(Strip(s, false, false, open, close), 0) == 0xEF
  {
    hide Strip;
    assert s == [s[0]] + s[1..];
    OneByte(s[0], s[1..], false, false, open, close);
  }

  lemma MarkStartsNothing(t: bytes, strtod: Strtod)
    requires At(t, 0) == 0xEF
    ensures ParseValue(t, 0, 0, strtod) == None
  {
    NothingToSkip(t, 0);
  }

  // ---------- what a pass turns a text into ----------

  /** In front of any other text the pass turns `s` into `r`, and comes out in the state it went in with. */
  ghost predicate Turns(s: bytes, r: bytes, inString: bool, open: bytes, close: bytes)
    requires open != []
  {
    forall rest: bytes ::
      Strip(s + rest, inString, false, open, close) == r + Strip(rest, inString, false, open, close)
  }

  /** The opening tokens that `json_parse_string_with_comments` uses both start with a slash. */
  predicate SlashToken(open: bytes) {
    open != [] && open[0] == SLASH
  }

  lemma TurnsConcat(a: bytes, a': bytes, b: bytes, b': bytes, inString: bool, open: bytes, close: bytes)
    requires open != [] && Turns(a, a', inString, open, close) && Turns(b, b', inString, open, close)
    ensures Turns(a + b, a' + b', inString, open, close)
  {
    forall rest: bytes
      ensures Strip((a + b) + rest, inString, false, open, close)
             == (a' + b') + Strip(rest, inString, false, open, close)
    {
      Regroup(a, b, rest, b + rest);
      assert Strip(a + (b + rest), inString, false, open, close) == a' + Strip(b + rest, inString, false, open, close);
      assert Strip(b + rest, inString, false, open, close) == b' + Strip(rest, inString, false, open, close);
      Regroup(a', b', Strip(rest, inString, false, open, close), b' + Strip(rest, inString, false, open, close));
    }
  }

  lemma TurnsNothing(inString: bool, open: bytes, close: bytes)
    requires open != []
    ensures Turns([], [], inString, open, close)
  {
    forall rest: bytes
      ensures Strip([] + rest, inString, false, open, close) == [] + Strip(rest, inString, false, open, close)
    {
      EmptyParts(rest);
      EmptyParts(Strip(rest, inString, false, open, close));
    }
  }

  lemma TurnsAlone(s: bytes, r: bytes, open: bytes, close: bytes)
    requires open != [] && Turns(s, r, false, open, close)
    ensures Strip(s, false, false, open, close) == r
  {
    EmptyParts(s);
    EmptyParts(r);
    assert Strip(s + [], false, false, open, close) == r + Strip([], false, false, open, close);
  }

  /** A byte that means nothing to the scanner outside literals. */
  predicate IsQuiet(c: byte) {
    c != QUOTE && c != BACKSLASH && c != SLASH
  }

  predicate AllQuiet(s: bytes) {
    forall k :: 0 <= k < |s| ==> IsQuiet(s[k])
  }

  /** One byte that keeps the scanner's state. */
  lemma OneByte(c: byte, rest: bytes, inString: bool, escaped: bool, open: bytes, close: bytes)
    requires SlashToken(open)
    requires escaped || (c != QUOTE && c != BACKSLASH)
    requires inString || c != SLASH
    ensures Strip([c] + rest, inString, escaped, open, close) == [c] + Strip(rest, inString, false, open, close)
  {
    var s := [c] + rest;
    assert s[1..] == rest && s[..1] == [c];
    assert open <= s ==> s[0] == open[0];
  }

  lemma {:induction false} QuietTurns(s: bytes, inString: bool, open: bytes, close: bytes)
    requires SlashToken(open) && AllQuiet(s)
    ensures Turns(s, s, inString, open, close)
  {
    hide Strip;
    if s == [] {
      TurnsNothing(inString, open, close);
    } else {
      QuietTurns(s[1..], inString, open, close);
      forall rest: bytes
        ensures Strip([s[0]] + rest, inString, false, open, close) == [s[0]] + Strip(rest, inString, false, open, close)
      {
        OneByte(s[0], rest, inString, false, open, close);
      }
      assert Turns([s[0]], [s[0]], inString, open, close);
      TurnsConcat([s[0]], [s[0]], s[1..], s[1..], inString, open, close);
      assert [s[0]] + s[1..] == s;
    }
  }

  // ---------- string literals ----------

  /** A backslash in a literal, and the byte behind it. */
  lemma PairTurns(c: byte, open: bytes, close: bytes)
    requires SlashToken(open)
    ensures Turns([BACKSLASH, c], [BACKSLASH, c], true, open, close)
  {
    hide Strip;
    forall rest: bytes
      ensures Strip([BACKSLASH, c] + rest, true, false, open, close)
           == [BACKSLASH, c] + Strip(rest, true, false, open, close)
    {
      assert [BACKSLASH] + [c] == [BACKSLASH, c];
      Regroup([BACKSLASH], [c], rest, [c] + rest);
      AtBackslash([c] + rest, open, close);
      OneByte(c, rest, true, true, open, close);
      Regroup([BACKSLASH], [c], Strip(rest, true, false, open, close), [c] + Strip(rest, true, false, open, close));
    }
  }

  lemma AtBackslash(rest: bytes, open: bytes, close: bytes)
    requires SlashToken(open)
    ensures Strip([BACKSLASH] + rest, true, false, open, close) == [BACKSLASH] + Strip(rest, true, true, open, close)
  {
    var s := [BACKSLASH] + rest;
    assert s[1..] == rest && s[..1] == [BACKSLASH];
  }

  lemma EscapedByteTurns(c: byte, escapeSlashes: bool, open: bytes, close: bytes)
    requires SlashToken(open)
    ensures Turns(EscapeByte(c, escapeSlashes), EscapeByte(c, escapeSlashes), true, open, close)
  {
    hide Strip, EscapeByte, Turns;
    EscapeByteShape(c, escapeSlashes);
    var e := EscapeByte(c, escapeSlashes);
    if |e| == 1 {
      ByteInLiteral(c, open, close);
    } else {
      PairTurns(e[1], open, close);
      QuietTurns(e[2..], true, open, close);
      TurnsConcat([BACKSLASH, e[1]], [BACKSLASH, e[1]], e[2..], e[2..], true, open, close);
    }
  }

  lemma EscapeByteShape(c: byte, escapeSlashes: bool)
    ensures var e := EscapeByte(c, escapeSlashes);
            if |e| == 1 then e == [c] && c != QUOTE && c != BACKSLASH
            else |e| >= 2 && e == [BACKSLASH, e[1]] + e[2..] && AllQuiet(e[2..])
  {
  }

  lemma ByteInLiteral(c: byte, open: bytes, close: bytes)
    requires SlashToken(open) && c != QUOTE && c != BACKSLASH
    ensures Turns([c], [c], true, open, close)
  {
    hide Strip;
    forall rest: bytes
      ensures Strip([c] + rest, true, false, open, close) == [c] + Strip(rest, true, false, open, close)
    {
      OneByte(c, rest, true, false, open, close);
    }
  }

  lemma {:induction false} EscapeTurns(chars: bytes, escapeSlashes: bool, open: bytes, close: bytes)
    requires SlashToken(open)
    ensures Turns(Escape(chars, escapeSlashes), Escape(chars, escapeSlashes), true, open, close)
  {
    if chars == [] {
      TurnsNothing(true, open, close);
    } else {
      var first, rest := EscapeByte(chars[0], escapeSlashes), Escape(chars[1..], escapeSlashes);
      EscapedByteTurns(chars[0], escapeSlashes, open, close);
      EscapeTurns(chars[1..], escapeSlashes, open, close);
      TurnsConcat(first, first, rest, rest, true, open, close);
    }
  }

  lemma AtQuote(rest: bytes, inString: bool, open: bytes, close: bytes)
    requires SlashToken(open)
    ensures Strip([QUOTE] + rest, inString, false, open, close) == [QUOTE] + Strip(rest, !inString, false, open, close)
  {
    var s := [QUOTE] + rest;
    assert s[1..] == rest && s[..1] == [QUOTE];
  }

  /** A string literal stays, whatever is in it. */
  lemma QuotedTurns(chars: bytes, escapeSlashes: bool, open: bytes, close: bytes)
    requires SlashToken(open)
    ensures Turns(Quoted(chars, escapeSlashes), Quoted(chars, escapeSlashes), false, open, close)
  {
    hide Strip, Turns, Escape;
    var e := Escape(chars, escapeSlashes);
    EscapeTurns(chars, escapeSlashes, open, close);
    forall rest: bytes
      ensures Strip(([QUOTE] + (e + [QUOTE])) + rest, false, false, open, close)
           == ([QUOTE] + (e + [QUOTE])) + Strip(rest, false, false, open, close)
    {
      var tail := Strip(rest, false, false, open, close);
      Regroup([QUOTE], e + [QUOTE], rest, (e + [QUOTE]) + rest);
      Regroup(e, [QUOTE], rest, [QUOTE] + rest);
      AtQuote(e + ([QUOTE] + rest), false, open, close);
      TurnsAt(e, e, [QUOTE] + rest, true, open, close);
      AtQuote(rest, true, open, close);
      Regroup(e, [QUOTE], tail, [QUOTE] + tail);
      Regroup([QUOTE], e + [QUOTE], tail, (e + [QUOTE]) + tail);
    }
    TurnsBy([QUOTE] + (e + [QUOTE]), open, close);
  }

  lemma TurnsAt(s: bytes, r: bytes, rest: bytes, inString: bool, open: bytes, close: bytes)
    requires open != [] && Turns(s, r, inString, open, close)
    ensures Strip(s + rest, inString, false, open, close) == r + Strip(rest, inString, false, open, close)
  {
  }

  lemma TurnsBy(s: bytes, open: bytes, close: bytes)
    requires open != []
    requires forall rest: bytes ::
               Strip(s + rest, false, false, open, close) == s + Strip(rest, false, false, open, close)
    ensures Turns(s, s, false, open, close)
  {
  }

  // ---------- tokens ----------

  /** The text of every number in `v` is free of quotes, backslashes and slashes. */
  ghost predicate PlainNumbers(v: Value, format: real -> bytes)
    decreases v
  {
    match v
    case Number(x) => AllQuiet(format(x))
    case Array(items) => forall i :: 0 <= i < |items| ==> PlainNumbers(items[i], format)
    case Object(members) => forall i :: 0 <= i < |members| ==> PlainNumbers(members[i].value, format)
    case _ => true
  }

  ghost predicate AllTurn(tokens: seq<bytes>, open: bytes, close: bytes)
    requires open != []
  {
    forall i :: 0 <= i < |tokens| ==> Turns(tokens[i], tokens[i], false, open, close)
  }

  /** Every token of a value stays. */
  lemma {:induction false} TokensTurn(v: Value, style: Style, open: bytes, close: bytes)
    requires SlashToken(open) && PlainNumbers(v, style.format)
    ensures AllTurn(Tokens(v, style), open, close)
    decreases v, 2
  {
    hide Turns, ItemTokens, MembersTokens;
    match v
    case String(chars) => QuotedTurns(chars, style.escapeSlashes, open, close);
    case Array(items) =>
      QuietTurns([OPEN_BRACKET], false, open, close);
      QuietTurns([CLOSE_BRACKET], false, open, close);
      ItemsTurn(items, style, open, close);
    case Object(members) =>
      QuietTurns([OPEN_BRACE], false, open, close);
      QuietTurns([CLOSE_BRACE], false, open, close);
      MembersTurn(members, style, open, close);
    case _ => QuietTurns(Tokens(v, style)[0], false, open, close);
  }

  lemma {:induction false} ItemsTurn(items: seq<Value>, style: Style, open: bytes, close: bytes)
    requires SlashToken(open) && forall i :: 0 <= i < |items| ==> PlainNumbers(items[i], style.format)
    ensures AllTurn(ItemTokens(items, style), open, close)
    decreases items, 0
  {
    hide Turns, Tokens;
    if items != [] {
      TokensTurn(items[0], style, open, close);
      ItemsTurn(items[1..], style, open, close);
      QuietTurns([COMMA], false, open, close);
    }
  }

  lemma {:induction false} MembersTurn(members: Members, style: Style, open: bytes, close: bytes)
    requires SlashToken(open) && forall i :: 0 <= i < |members| ==> PlainNumbers(members[i].value, style.format)
    ensures AllTurn(MembersTokens(members, style), open, close)
    decreases members, 0
  {
    hide Turns, MemberTokens;
    if members != [] {
      MemberTurns(members[0], style, open, close);
      MembersTurn(members[1..], style, open, close);
      QuietTurns([COMMA], false, open, close);
    }
  }

  lemma {:induction false} MemberTurns(member: Entry<bytes, Value>, style: Style, open: bytes, close: bytes)
    requires SlashToken(open) && PlainNumbers(member.value, style.format)
    ensures AllTurn(MemberTokens(member, style), open, close)
    decreases member, 3
  {
    hide Turns, Tokens, Quoted;
    QuotedTurns(member.name, style.escapeSlashes, open, close);
    QuietTurns([COLON], false, open, close);
    TokensTurn(member.value, style, open, close);
  }

  // ---------- gaps with comments ----------

  /** A piece of the gap between two tokens: a white-space byte, or a comment by the text inside it. */
  datatype Piece = Blank(c: byte) | Block(text: bytes) | Line(text: bytes)

  /** The comment ends where its text does; and a line comment is one that the pass for block comments, which goes
      first, leaves as one. */
  predicate GoodPiece(piece: Piece) {
    match piece
    case Blank(c) => IsSpace(c)
    case Block(text) => IndexOf(text + BLOCK_CLOSE, BLOCK_CLOSE) == Some(|text|)
    case Line(text) => NEWLINE !in text && Settles(text)
  }

  function LineText(text: bytes): bytes {
    LINE_OPEN + (text + LINE_CLOSE)
  }

  function PieceText(piece: Piece): bytes {
    match piece
    case Blank(c) => [c]
    case Block(text) => BLOCK_OPEN + (text + BLOCK_CLOSE)
    case Line(text) => LineText(text)
  }

  /** The piece after the first pass, and after both. */
  function WithoutBlock(piece: Piece): bytes {
    match piece
    case Blank(c) => [c]
    case Block(text) => Spaces(|text| + 4)
    case Line(text) => Strip(LineText(text), false, false, BLOCK_OPEN, BLOCK_CLOSE)
  }

  function WithoutComment(piece: Piece): bytes {
    if piece.Line? then Spaces(|piece.text| + 3) else WithoutBlock(piece)
  }

  // ---------- the first pass over a line comment ----------

  /** How the pass for block comments comes out of `s`: inside a literal or not, behind a backslash or not; None when a
      comment stays open. */
  function ScanEnd(s: bytes, inString: bool, escaped: bool): Option<(bool, bool)>
    decreases |s|
  {
    if s == [] then Some((inString, escaped))
    else
      var r := ScanRound(s, inString, escaped, BLOCK_OPEN, BLOCK_CLOSE);
      if r.ends then None else ScanEnd(s[r.len..], r.inString, r.escaped)
  }

  /** In the line comment with this text all literals and block comments are closed, and none is opened by its second
      slash. */
  predicate Settles(text: bytes) {
    && ScanEnd(LineText(text), false, false) == Some((false, false))
    && (text == [] || text[0] != STAR)
  }

  predicate AtLineEnd(s: bytes) {
    s == [] || s[|s| - 1] == NEWLINE
  }

  /** The text behind `s` does not matter for a round in `s`. */
  lemma SameRound(s: bytes, rest: bytes, inString: bool, escaped: bool)
    requires s != [] && AtLineEnd(s)
    ensures var r := ScanRound(s, inString, escaped, BLOCK_OPEN, BLOCK_CLOSE);
            !r.ends ==> ScanRound(s + rest, inString, escaped, BLOCK_OPEN, BLOCK_CLOSE) == r
  {
    hide IndexOf;
    assert (s + rest)[0] == s[0];
    assert |s| > 1 ==> (s + rest)[..2] == s[..2];
    if BLOCK_OPEN <= s {
      assert (s + rest)[2..] == s[2..] + rest;
      if IndexOf(s[2..], BLOCK_CLOSE).Some? {
        ClosesThere(s[2..], rest, BLOCK_CLOSE);
      }
    }
  }

  /** The pass over `s` and the text behind it, when no comment stays open in `s`. */
  lemma {:induction false} PassSplits(s: bytes, rest: bytes, inString: bool, escaped: bool)
    requires AtLineEnd(s) && ScanEnd(s, inString, escaped).Some?
    ensures var end := ScanEnd(s, inString, escaped).value;
            Strip(s + rest, inString, escaped, BLOCK_OPEN, BLOCK_CLOSE)
            == Strip(s, inString, escaped, BLOCK_OPEN, BLOCK_CLOSE)
               + Strip(rest, end.0, end.1, BLOCK_OPEN, BLOCK_CLOSE)
    decreases |s|
  {
    hide Strip, ScanRound, Spaces;
    var end := ScanEnd(s, inString, escaped).value;
    var behind := Strip(rest, end.0, end.1, BLOCK_OPEN, BLOCK_CLOSE);
    if s == [] {
      EmptyParts(rest);
      EmptyParts(behind);
      StripEmpty(s, inString, escaped, BLOCK_OPEN, BLOCK_CLOSE);
    } else {
      var r := ScanRound(s, inString, escaped, BLOCK_OPEN, BLOCK_CLOSE);
      var head := if r.region == Comment then Spaces(r.len) else s[..r.len];
      SameRound(s, rest, inString, escaped);
      StripUnfolds(s, inString, escaped, BLOCK_OPEN, BLOCK_CLOSE);
      StripUnfolds(s + rest, inString, escaped, BLOCK_OPEN, BLOCK_CLOSE);
      assert (s + rest)[..r.len] == s[..r.len] && (s + rest)[r.len..] == s[r.len..] + rest;
      PassSplits(s[r.len..], rest, r.inString, r.escaped);
      var inner := Strip(s[r.len..], r.inString, r.escaped, BLOCK_OPEN, BLOCK_CLOSE);
      Regroup(head, inner, behind, inner + behind);
    }
  }

  /** A comment that stays open swallows what is behind `s`, up to the first closing token. */
  lemma {:induction false} OpenSwallows(s: bytes, inString: bool, escaped: bool)
    requires AtLineEnd(s) && ScanEnd(s, inString, escaped) == None
    ensures Strip(s + BLOCK_CLOSE, inString, escaped, BLOCK_OPEN, BLOCK_CLOSE)[|s| + 1] == SPACE
    decreases |s|
  {
    hide Strip, ScanRound, Spaces;
    var r := ScanRound(s, inString, escaped, BLOCK_OPEN, BLOCK_CLOSE);
    StripUnfolds(s + BLOCK_CLOSE, inString, escaped, BLOCK_OPEN, BLOCK_CLOSE);
    if r.ends {
      OpenRound(s, inString, escaped);
    } else {
      SameRound(s, BLOCK_CLOSE, inString, escaped);
      assert (s + BLOCK_CLOSE)[r.len..] == s[r.len..] + BLOCK_CLOSE;
      OpenSwallows(s[r.len..], r.inString, r.escaped);
    }
  }

  lemma OpenRound(s: bytes, inString: bool, escaped: bool)
    requires s != [] && AtLineEnd(s) && ScanRound(s, inString, escaped, BLOCK_OPEN, BLOCK_CLOSE).ends
    ensures ScanRound(s + BLOCK_CLOSE, inString, escaped, BLOCK_OPEN, BLOCK_CLOSE)
         == Round(|s| + 2, Comment, false, false, false)
  {
    hide IndexOf;
    assert s[1] == STAR;
    var inside := s[2..];
    assert (s + BLOCK_CLOSE)[2..] == inside + BLOCK_CLOSE;
    ClosesBehind(inside);
  }

  lemma ClosesBehind(s: bytes)
    requires AtLineEnd(s) && IndexOf(s, BLOCK_CLOSE) == None
    ensures IndexOf(s + BLOCK_CLOSE, BLOCK_CLOSE) == Some(|s|)
  {
    hide IndexOf;
    var t := s + BLOCK_CLOSE;
    IndexOfIsFirst(s, BLOCK_CLOSE);
    IndexOfIsFirst(t, BLOCK_CLOSE);
    Parts(s, BLOCK_CLOSE);
    assert Has(t, |s|, BLOCK_CLOSE);
    var k := IndexOf(t, BLOCK_CLOSE).value;
    HasInFront(s, BLOCK_CLOSE, k, BLOCK_CLOSE);
    HasAt(t, k, BLOCK_CLOSE, 0);
  }

  /** No closed comment takes the line feed. */
  lemma {:induction false} LineFeedStays(s: bytes, inString: bool, escaped: bool)
    requires s != [] && AtLineEnd(s) && ScanEnd(s, inString, escaped).Some?
    ensures Strip(s, inString, escaped, BLOCK_OPEN, BLOCK_CLOSE)[|s| - 1] == NEWLINE
    ensures !ScanEnd(s, inString, escaped).value.1
    decreases |s|
  {
    hide Strip, ScanRound, Spaces;
    var r := ScanRound(s, inString, escaped, BLOCK_OPEN, BLOCK_CLOSE);
    StripUnfolds(s, inString, escaped, BLOCK_OPEN, BLOCK_CLOSE);
    if r.len == |s| {
      LastRound(s, inString, escaped);
    } else {
      LineFeedStays(s[r.len..], r.inString, r.escaped);
    }
  }

  lemma LastRound(s: bytes, inString: bool, escaped: bool)
    requires s != [] && AtLineEnd(s)
    ensures var r := ScanRound(s, inString, escaped, BLOCK_OPEN, BLOCK_CLOSE);
            r.len == |s| && !r.ends ==> r.region != Comment && !r.escaped
  {
    hide IndexOf;
    if BLOCK_OPEN <= s && IndexOf(s[2..], BLOCK_CLOSE).Some? {
      var k := IndexOf(s[2..], BLOCK_CLOSE).value;
      IndexOfIsFirst(s[2..], BLOCK_CLOSE);
      HasAt(s[2..], k, BLOCK_CLOSE, 1);
    }
  }

  /** Then the line comment is still one behind the first pass, with blanks for the comments in it. */
  lemma StaysLine(text: bytes) returns (kept: bytes)
    requires NEWLINE !in text && ScanEnd(LineText(text), false, false).Some? && (text == [] || text[0] != STAR)
    ensures |kept| == |text| && NEWLINE !in kept
    ensures Strip(LineText(text), false, false, BLOCK_OPEN, BLOCK_CLOSE) == LineText(kept)
  {
    hide Strip, Regions;
    var s := LineText(text);
    var t := Strip(s, false, false, BLOCK_OPEN, BLOCK_CLOSE);
    SecondSlash(text);
    LineFeedStays(s, false, false);
    kept := t[2..|t| - 1];
    forall i | 0 <= i < |kept|
      ensures kept[i] != NEWLINE
    {
      StripBlanksComments(s, false, false, BLOCK_OPEN, BLOCK_CLOSE, i + 2);
      assert s[i + 2] == text[i];
    }
    assert t == LineText(kept);
  }

  lemma SecondSlash(text: bytes)
    requires text == [] || text[0] != STAR
    ensures Strip(LineText(text), false, false, BLOCK_OPEN, BLOCK_CLOSE)[..2] == LINE_OPEN
  {
    hide Strip;
    var inside := text + LINE_CLOSE;
    assert LineText(text) == [SLASH] + ([SLASH] + inside) && [inside[0]] + inside[1..] == inside;
    SlashAlone(SLASH, inside);
    SlashAlone(inside[0], inside[1..]);
  }

  lemma SlashAlone(c: byte, rest: bytes)
    requires c != STAR
    ensures Strip([SLASH] + ([c] + rest), false, false, BLOCK_OPEN, BLOCK_CLOSE)
         == [SLASH] + Strip([c] + rest, false, false, BLOCK_OPEN, BLOCK_CLOSE)
  {
    var s := [SLASH] + ([c] + rest);
    assert s[1..] == [c] + rest && s[..1] == [SLASH] && s[1] == c;
  }

  /** Both passes over a line comment, and over the text behind it from where the first pass comes out. */
  lemma BothPasses(text: bytes, rest: bytes)
    requires NEWLINE !in text && ScanEnd(LineText(text), false, false).Some? && (text == [] || text[0] != STAR)
    ensures var end := ScanEnd(LineText(text), false, false).value;
            var behind := Strip(rest, end.0, end.1, BLOCK_OPEN, BLOCK_CLOSE);
            StripBoth(LineText(text) + rest)
            == Spaces(|text| + 3) + Strip(behind, false, false, LINE_OPEN, LINE_CLOSE)
  {
    hide Strip, ScanEnd, Spaces;
    PassSplits(LineText(text), rest, false, false);
    var kept := StaysLine(text);
    var end := ScanEnd(LineText(text), false, false).value;
    LineInSecondPass(kept, Strip(rest, end.0, end.1, BLOCK_OPEN, BLOCK_CLOSE));
  }

  lemma LineInSecondPass(text: bytes, rest: bytes)
    requires NEWLINE !in text
    ensures Strip(LineText(text) + rest, false, false, LINE_OPEN, LINE_CLOSE)
         == Spaces(|text| + 3) + Strip(rest, false, false, LINE_OPEN, LINE_CLOSE)
  {
    hide Strip, Spaces;
    BothTokensOpen();
    LineEnds(text);
    ClosesThere(text + LINE_CLOSE, rest, LINE_CLOSE);
    ClosedComment(text, rest, LINE_OPEN, LINE_CLOSE);
  }

  /** Otherwise the line comment does harm: some text behind it comes out of the passes otherwise than on its own. */
  lemma UnsettledDiffers(text: bytes) returns (rest: bytes)
    requires NEWLINE !in text && !Settles(text)
    ensures StripBoth(LineText(text) + rest) != Spaces(|text| + 3) + StripBoth(rest)
  {
    hide Strip, ScanEnd, Spaces;
    var s := LineText(text);
    LineFeedIsLast(text);
    if text != [] && text[0] == STAR {
      rest := [];
      EmptyParts(s);
      SecondSlashOpens(text);
      assert (Spaces(|text| + 3) + StripBoth(rest))[0] == SPACE;
    } else if ScanEnd(s, false, false) == None {
      rest := BLOCK_CLOSE;
      OpenSwallows(s, false, false);
      var once := Strip(s + rest, false, false, BLOCK_OPEN, BLOCK_CLOSE);
      StripBlanksComments(once, false, false, LINE_OPEN, LINE_CLOSE, |s| + 1);
      LoneClose();
      assert (Spaces(|s|) + StripBoth(rest))[|s| + 1] == StripBoth(rest)[1];
    } else {
      rest := BLOCK_OPEN + BLOCK_CLOSE;
      LineFeedStays(s, false, false);
      BothPasses(text, rest);
      EmptyComment();
      var behind := Strip(Strip(rest, true, false, BLOCK_OPEN, BLOCK_CLOSE), false, false, LINE_OPEN, LINE_CLOSE);
      assert (Spaces(|s|) + behind)[|s|] == behind[0];
      assert (Spaces(|s|) + StripBoth(rest))[|s|] == StripBoth(rest)[0];
    }
  }

  lemma LineFeedIsLast(text: bytes)
    ensures LineText(text) != [] && AtLineEnd(LineText(text)) && |LineText(text)| == |text| + 3
  {
  }

  /** A slash in front of anything but a slash. */
  lemma SlashInSecondPass(s: bytes)
    requires |s| >= 2 && s[0] == SLASH && s[1] != SLASH
    ensures Strip(s, false, false, LINE_OPEN, LINE_CLOSE)[0] == SLASH
  {
    hide Strip, IndexOf;
    StripUnfolds(s, false, false, LINE_OPEN, LINE_CLOSE);
  }

  lemma CommentStarts(s: bytes, inString: bool)
    requires BLOCK_OPEN <= s
    ensures s != [] && Strip(s, inString, false, BLOCK_OPEN, BLOCK_CLOSE)[0] == if inString then SLASH else SPACE
  {
    hide Strip, IndexOf;
    StripUnfolds(s, inString, false, BLOCK_OPEN, BLOCK_CLOSE);
  }

  /** The second slash of a line comment opens a block comment: the first one is left over. */
  lemma SecondSlashOpens(text: bytes)
    requires text != [] && text[0] == STAR
    ensures StripBoth(LineText(text)) != [] && StripBoth(LineText(text))[0] == SLASH
  {
    hide Strip;
    var behind := [SLASH] + (text + LINE_CLOSE);
    assert LineText(text) == [SLASH] + behind && behind == [SLASH] + behind[1..];
    SlashAlone(SLASH, behind[1..]);
    assert BLOCK_OPEN <= behind;
    CommentStarts(behind, false);
    SlashInSecondPass(Strip(LineText(text), false, false, BLOCK_OPEN, BLOCK_CLOSE));
  }

  /** A closing token on its own stays. */
  lemma LoneClose()
    ensures StripBoth(BLOCK_CLOSE)[1] == SLASH
  {
    var last := [SLASH];
    assert BLOCK_CLOSE == [STAR] + last && last[1..] == [] && last[..1] == last;
    OneByte(STAR, last, false, false, BLOCK_OPEN, BLOCK_CLOSE);
    OneByte(STAR, last, false, false, LINE_OPEN, LINE_CLOSE);
    assert Strip(last, false, false, BLOCK_OPEN, BLOCK_CLOSE) == last;
    assert Strip(last, false, false, LINE_OPEN, LINE_CLOSE) == last;
  }

  /** An empty comment shows whether the first pass is inside a literal. */
  lemma EmptyComment()
    ensures var rest := BLOCK_OPEN + BLOCK_CLOSE;
            && StripBoth(rest)[0] == SPACE
            && Strip(Strip(rest, true, false, BLOCK_OPEN, BLOCK_CLOSE), false, false, LINE_OPEN, LINE_CLOSE)[0] == SLASH
  {
    hide Strip, Regions;
    var rest := BLOCK_OPEN + BLOCK_CLOSE;
    assert BLOCK_OPEN <= rest;
    CommentStarts(rest, false);
    CommentStarts(rest, true);
    var once := Strip(rest, false, false, BLOCK_OPEN, BLOCK_CLOSE);
    StripBlanksComments(once, false, false, LINE_OPEN, LINE_CLOSE, 0);
    StripBlanksComments(rest, true, false, BLOCK_OPEN, BLOCK_CLOSE, 1);
    SlashInSecondPass(Strip(rest, true, false, BLOCK_OPEN, BLOCK_CLOSE));
  }

  /** Exactly which line comments are white space: both passes turn them into blanks, and leave the text behind them as
      they would on its own. */
  lemma LineIsWhiteSpaceExactly(text: bytes)
    requires NEWLINE !in text
    ensures Settles(text) <==>
            forall rest: bytes :: StripBoth(LineText(text) + rest) == Spaces(|text| + 3) + StripBoth(rest)
  {
    hide StripBoth, Spaces, LineText;
    if Settles(text) {
      forall rest: bytes
        ensures StripBoth(LineText(text) + rest) == Spaces(|text| + 3) + StripBoth(rest)
      {
        SettledLine(text, rest);
      }
    } else {
      var rest := UnsettledDiffers(text);
    }
  }

  lemma SettledLine(text: bytes, rest: bytes)
    requires NEWLINE !in text && Settles(text)
    ensures StripBoth(LineText(text) + rest) == Spaces(|text| + 3) + StripBoth(rest)
  {
    hide Strip, ScanEnd;
    BothPasses(text, rest);
  }

  // ---------- the passes over gaps ----------

  /** A closed comment outside literals. */
  lemma ClosedComment(text: bytes, rest: bytes, open: bytes, close: bytes)
    requires OpeningToken(open) && IndexOf((text + close) + rest, close) == Some(|text|)
    ensures Strip((open + (text + close)) + rest, false, false, open, close)
         == Spaces(|open| + |text| + |close|) + Strip(rest, false, false, open, close)
  {
    CommentPieces(open, text, close, rest);
    hide Strip, IndexOf, Spaces, OpeningToken, Has;
    CommentRound((open + (text + close)) + rest, open, close, |text|);
  }

  lemma CommentPieces(open: bytes, text: bytes, close: bytes, rest: bytes)
    ensures var s := (open + (text + close)) + rest;
            && Has(s, 0, open) && s[|open|..] == (text + close) + rest
            && s[|open| + |text| + |close|..] == rest
  {
    Regroup(open, text + close, rest, (text + close) + rest);
    Parts(open, (text + close) + rest);
    Parts(open + (text + close), rest);
  }

  lemma CommentRound(s: bytes, open: bytes, close: bytes, k: nat)
    requires OpeningToken(open) && |open| <= |s| && Has(s, 0, open)
    requires IndexOf(s[|open|..], close) == Some(k)
    ensures |open| + k + |close| <= |s|
    ensures Strip(s, false, false, open, close)
         == Spaces(|open| + k + |close|) + Strip(s[|open| + k + |close|..], false, false, open, close)
  {
    hide Strip, IndexOf, Spaces, ScanRound, OpeningToken, Has;
    OpensComment(s, open, close, k);
    StripOverComment(s, |open| + k + |close|, open, close);
  }

  lemma OpensComment(s: bytes, open: bytes, close: bytes, k: nat)
    requires OpeningToken(open) && Has(s, 0, open)
    requires IndexOf(s[|open|..], close) == Some(k)
    ensures s != [] && open != [] && |open| + k + |close| <= |s|
    ensures ScanRound(s, false, false, open, close) == Round(|open| + k + |close|, Comment, false, false, false)
  {
    hide IndexOf;
    assert s[0] == open[0];
  }

  /** What follows a closing token does not make it close earlier. */
  lemma ClosesThere(s: bytes, rest: bytes, close: bytes)
    requires IndexOf(s, close).Some?
    ensures IndexOf(s + rest, close) == IndexOf(s, close)
  {
    hide IndexOf;
    var k := IndexOf(s, close).value;
    IndexOfIsFirst(s, close);
    IndexOfIsFirst(s + rest, close);
    HasInFront(s, rest, k, close);
    HasInFront(s, rest, IndexOf(s + rest, close).value, close);
  }

  lemma HasInFront(s: bytes, rest: bytes, k: nat, token: bytes)
    ensures k + |token| <= |s| ==> (Has(s + rest, k, token) <==> Has(s, k, token))
  {
    if k + |token| <= |s| {
      assert (s + rest)[k..k + |token|] == s[k..k + |token|];
    }
  }

  lemma LineEnds(text: bytes)
    requires NEWLINE !in text
    ensures IndexOf(text + LINE_CLOSE, LINE_CLOSE) == Some(|text|)
  {
    hide IndexOf;
    var s := text + LINE_CLOSE;
    IndexOfIsFirst(s, LINE_CLOSE);
    assert forall j :: 0 <= j < |text| ==> s[j] == text[j];
    Parts(text, LINE_CLOSE);
    assert Has(s, |text|, LINE_CLOSE);
    HasAt(s, IndexOf(s, LINE_CLOSE).value, LINE_CLOSE, 0);
  }

  lemma PieceInFirstPass(piece: Piece)
    requires GoodPiece(piece)
    ensures Turns(PieceText(piece), WithoutBlock(piece), false, BLOCK_OPEN, BLOCK_CLOSE)
  {
    hide Strip, IndexOf, ScanEnd, Spaces;
    match piece
    case Blank(c) => QuietTurns([c], false, BLOCK_OPEN, BLOCK_CLOSE);
    case Line(text) =>
      forall rest: bytes
        ensures Strip(LineText(text) + rest, false, false, BLOCK_OPEN, BLOCK_CLOSE)
             == WithoutBlock(piece) + Strip(rest, false, false, BLOCK_OPEN, BLOCK_CLOSE)
      {
        PassSplits(LineText(text), rest, false, false);
      }
    case Block(text) =>
      BothTokensOpen();
      forall rest: bytes
        ensures Strip(PieceText(piece) + rest, false, false, BLOCK_OPEN, BLOCK_CLOSE)
             == WithoutBlock(piece) + Strip(rest, false, false, BLOCK_OPEN, BLOCK_CLOSE)
      {
        ClosesThere(text + BLOCK_CLOSE, rest, BLOCK_CLOSE);
        ClosedComment(text, rest, BLOCK_OPEN, BLOCK_CLOSE);
      }
  }

  lemma PieceInSecondPass(piece: Piece)
    requires GoodPiece(piece)
    ensures Turns(WithoutBlock(piece), WithoutComment(piece), false, LINE_OPEN, LINE_CLOSE)
    ensures AllSpaces(WithoutComment(piece))
  {
    hide Strip, IndexOf, ScanEnd;
    match piece
    case Line(text) =>
      var kept := StaysLine(text);
      forall rest: bytes
        ensures Strip(WithoutBlock(piece) + rest, false, false, LINE_OPEN, LINE_CLOSE)
             == WithoutComment(piece) + Strip(rest, false, false, LINE_OPEN, LINE_CLOSE)
      {
        LineInSecondPass(kept, rest);
      }
    case _ => QuietTurns(WithoutBlock(piece), false, LINE_OPEN, LINE_CLOSE);
  }

  /** The text of a gap, with `f` for its pieces. */
  function Text(gap: seq<Piece>, f: Piece -> bytes): bytes {
    if gap == [] then [] else f(gap[0]) + Text(gap[1..], f)
  }

  function Texts(gaps: seq<seq<Piece>>, f: Piece -> bytes): (texts: seq<bytes>)
    ensures |texts| == |gaps|
  {
    if gaps == [] then [] else [Text(gaps[0], f)] + Texts(gaps[1..], f)
  }

  predicate GoodGap(gap: seq<Piece>) {
    forall i :: 0 <= i < |gap| ==> GoodPiece(gap[i])
  }

  predicate GoodGaps(gaps: seq<seq<Piece>>) {
    forall i :: 0 <= i < |gaps| ==> GoodGap(gaps[i])
  }

  lemma {:induction false} GapTurns(gap: seq<Piece>)
    requires GoodGap(gap)
    ensures Turns(Text(gap, PieceText), Text(gap, WithoutBlock), false, BLOCK_OPEN, BLOCK_CLOSE)
    ensures Turns(Text(gap, WithoutBlock), Text(gap, WithoutComment), false, LINE_OPEN, LINE_CLOSE)
    ensures AllSpaces(Text(gap, WithoutComment))
  {
    hide Turns, GoodPiece, PieceText, WithoutBlock, WithoutComment, AllSpaces;
    if gap == [] {
      TurnsNothing(false, BLOCK_OPEN, BLOCK_CLOSE);
      TurnsNothing(false, LINE_OPEN, LINE_CLOSE);
      NoSpaces();
    } else {
      PieceInFirstPass(gap[0]);
      PieceInSecondPass(gap[0]);
      GapTurns(gap[1..]);
      TurnsConcat(PieceText(gap[0]), WithoutBlock(gap[0]), Text(gap[1..], PieceText), Text(gap[1..], WithoutBlock),
                  false, BLOCK_OPEN, BLOCK_CLOSE);
      TurnsConcat(WithoutBlock(gap[0]), WithoutComment(gap[0]), Text(gap[1..], WithoutBlock),
                  Text(gap[1..], WithoutComment),
                  false, LINE_OPEN, LINE_CLOSE);
      BlankConcat(WithoutComment(gap[0]), Text(gap[1..], WithoutComment));
    }
  }

  lemma {:induction false} WeaveTurns(tokens: seq<bytes>, gaps: seq<seq<Piece>>)
    requires |gaps| == |tokens| && GoodGaps(gaps)
    requires AllTurn(tokens, BLOCK_OPEN, BLOCK_CLOSE) && AllTurn(tokens, LINE_OPEN, LINE_CLOSE)
    ensures var once := Weave(tokens, Texts(gaps, WithoutBlock));
            && Turns(Weave(tokens, Texts(gaps, PieceText)), once, false, BLOCK_OPEN, BLOCK_CLOSE)
            && Turns(once, Weave(tokens, Texts(gaps, WithoutComment)), false, LINE_OPEN, LINE_CLOSE)
    ensures AllBlank(Texts(gaps, WithoutComment))
  {
    hide Turns, GoodGap, Text, AllSpaces;
    if tokens == [] {
      TurnsNothing(false, BLOCK_OPEN, BLOCK_CLOSE);
      TurnsNothing(false, LINE_OPEN, LINE_CLOSE);
    } else {
      GapTurns(gaps[0]);
      WeaveTurns(tokens[1..], gaps[1..]);
      WovenTurns(tokens, gaps, PieceText, WithoutBlock, BLOCK_OPEN, BLOCK_CLOSE);
      WovenTurns(tokens, gaps, WithoutBlock, WithoutComment, LINE_OPEN, LINE_CLOSE);
    }
  }

  /** One gap and its token, in front of what is turned already. */
  lemma WovenTurns(tokens: seq<bytes>, gaps: seq<seq<Piece>>, f: Piece -> bytes, g: Piece -> bytes, open: bytes,
                   close: bytes)
    requires open != [] && |gaps| == |tokens| > 0
    requires Turns(Text(gaps[0], f), Text(gaps[0], g), false, open, close)
    requires Turns(tokens[0], tokens[0], false, open, close)
    requires Turns(Weave(tokens[1..], Texts(gaps[1..], f)), Weave(tokens[1..], Texts(gaps[1..], g)), false, open, close)
    ensures Turns(Weave(tokens, Texts(gaps, f)), Weave(tokens, Texts(gaps, g)), false, open, close)
  {
    hide Turns, Text;
    assert Texts(gaps, f)[1..] == Texts(gaps[1..], f) && Texts(gaps, g)[1..] == Texts(gaps[1..], g);
    TurnsConcat(Text(gaps[0], f), Text(gaps[0], g), tokens[0], tokens[0], false, open, close);
    TurnsConcat(Text(gaps[0], f) + tokens[0], Text(gaps[0], g) + tokens[0],
                Weave(tokens[1..], Texts(gaps[1..], f)), Weave(tokens[1..], Texts(gaps[1..], g)), false, open, close);
  }

  // ---------- whole documents ----------

  /** Comments are white space: with any white space and any closed comments, of both kinds, between and in front of the
      tokens of a value, parsing gives the value and stops behind its last token, unless the value is nested too deep.
      Behind that anything may stand that may follow a number, see `CommentMayFollow`. */
  lemma CommentsAreWhiteSpace(v: Value, style: Style, gaps: seq<seq<Piece>>, rest: bytes, strtod: Strtod)
    requires Proper(v, style.format, strtod) && PlainNumbers(v, style.format)
    requires |gaps| == |Tokens(v, style)| && GoodGaps(gaps) && EndsNumber(At(StripBoth(rest), 0))
    ensures var text := Weave(Tokens(v, style), Texts(gaps, PieceText));
            ParseWithComments(text + rest, strtod) == if Depth(v) <= MAX_NESTING then Some((v, |text|)) else None
  {
    hide Strip, Turns, Tokens, Weave, Text, Texts, Proper, PlainNumbers, GoodGap, GoodGaps, AllTurn, AllSpaces,
      AllBlank, ParseValue, EndsNumber;
    var tokens := Tokens(v, style);
    TokensTurn(v, style, BLOCK_OPEN, BLOCK_CLOSE);
    TokensTurn(v, style, LINE_OPEN, LINE_CLOSE);
    WeaveTurns(tokens, gaps);
    var text := Weave(tokens, Texts(gaps, PieceText));
    var once, twice := Weave(tokens, Texts(gaps, WithoutBlock)), Weave(tokens, Texts(gaps, WithoutComment));
    TurnsAlone(text, once, BLOCK_OPEN, BLOCK_CLOSE);
    TurnsAlone(once, twice, LINE_OPEN, LINE_CLOSE);
    TurnsAt(text, once, rest, false, BLOCK_OPEN, BLOCK_CLOSE);
    TurnsAt(once, twice, Strip(rest, false, false, BLOCK_OPEN, BLOCK_CLOSE), false, LINE_OPEN, LINE_CLOSE);
    AnyLayoutRoundTrip(v, style, Texts(gaps, WithoutComment), StripBoth(rest), strtod);
  }

  /** A comment may follow, closed or not, and so may the end of the text and white space. */
  lemma CommentMayFollow(rest: bytes)
    requires rest == [] || IsSpace(rest[0]) || Has(rest, 0, BLOCK_OPEN) || Has(rest, 0, LINE_OPEN)
    ensures EndsNumber(At(StripBoth(rest), 0))
  {
    hide Strip, Regions;
    if rest != [] {
      StripBlanksComments(rest, false, false, BLOCK_OPEN, BLOCK_CLOSE, 0);
      var once := Strip(rest, false, false, BLOCK_OPEN, BLOCK_CLOSE);
      StripBlanksComments(once, false, false, LINE_OPEN, LINE_CLOSE, 0);
      assert Has(rest, 0, BLOCK_OPEN) || Has(rest, 0, LINE_OPEN) ==> rest[0] == SLASH;
    }
  }

  /** So a gap may follow the value, and behind it a comment that is not closed. */
  lemma GapMayFollow(tail: seq<Piece>, end: bytes)
    requires GoodGap(tail) && (end == [] || Has(end, 0, BLOCK_OPEN) || Has(end, 0, LINE_OPEN))
    ensures EndsNumber(At(StripBoth(Text(tail, PieceText) + end), 0))
  {
    hide StripBoth, EndsNumber, ScanEnd, IndexOf;
    var rest := Text(tail, PieceText) + end;
    if tail == [] {
      EmptyParts(end);
    } else {
      assert GoodPiece(tail[0]);
      assert rest == PieceText(tail[0]) + (Text(tail[1..], PieceText) + end);
    }
    CommentMayFollow(rest);
  }

  /** Serialized values parse to themselves: what looks like a comment inside a string is kept, and nothing else that
      the serializer writes looks like one. */
  lemma CommentsDoNotHurt(v: Value, level: nat, style: Style, strtod: Strtod)
    requires Proper(v, style.format, strtod) && PlainNumbers(v, style.format)
    ensures var text := Serialize(v, level, style);
            && StripBoth(text) == text
            && ParseWithComments(text, strtod) == if Depth(v) <= MAX_NESTING then Some((v, |text|)) else None
  {
    hide Strip, Serialize, Proper, PlainNumbers, Turns, Tokens, Weave, StyleGaps, AllSpaces, ParseValue, AllTurn;
    var tokens, gaps, text := Tokens(v, style), StyleGaps(v, level, style, []), Serialize(v, level, style);
    NoSpaces();
    SerializeIsWoven(v, level, style, []);
    EmptyParts(text);
    TokensTurn(v, style, BLOCK_OPEN, BLOCK_CLOSE);
    TokensTurn(v, style, LINE_OPEN, LINE_CLOSE);
    BlankWeaveTurns(tokens, gaps, BLOCK_OPEN, BLOCK_CLOSE);
    BlankWeaveTurns(tokens, gaps, LINE_OPEN, LINE_CLOSE);
    TurnsAlone(text, text, BLOCK_OPEN, BLOCK_CLOSE);
    TurnsAlone(text, text, LINE_OPEN, LINE_CLOSE);
    AnyLayoutRoundTrip(v, style, gaps, [], strtod);
  }

  lemma {:induction false} BlankWeaveTurns(tokens: seq<bytes>, gaps: seq<bytes>, open: bytes, close: bytes)
    requires SlashToken(open) && |gaps| == |tokens| && AllBlank(gaps) && AllTurn(tokens, open, close)
    ensures Turns(Weave(tokens, gaps), Weave(tokens, gaps), false, open, close)
  {
    hide Turns;
    if tokens == [] {
      TurnsNothing(false, open, close);
    } else {
      QuietTurns(gaps[0], false, open, close);
      TurnsConcat(gaps[0], gaps[0], tokens[0], tokens[0], false, open, close);
      BlankWeaveTurns(tokens[1..], gaps[1..], open, close);
      var rest := Weave(tokens[1..], gaps[1..]);
      TurnsConcat(gaps[0] + tokens[0], gaps[0] + tokens[0], rest, rest, false, open, close);
    }
  }

  lemma {:induction false} DigitsAreQuiet(n: nat)
    ensures AllQuiet(Digits(n))
  {
    if n >= 10 {
      DigitsAreQuiet(n / 10);
    }
  }

  lemma {:induction false} IntegersArePlain(v: Value)
    requires IntegersOnly(v)
    ensures PlainNumbers(v, FormatInteger)
    decreases v
  {
    match v
    case Number(x) =>
      DigitsAreQuiet(if x.Floor < 0 then -x.Floor else x.Floor);
    case Array(items) =>
      forall i | 0 <= i < |items|
        ensures PlainNumbers(items[i], FormatInteger)
      {
        IntegersArePlain(items[i]);
      }
    case Object(members) =>
      forall i | 0 <= i < |members|
        ensures PlainNumbers(members[i].value, FormatInteger)
      {
        IntegersArePlain(members[i].value);
      }
    case _ =>
  }

  /** The same for values whose numbers are integers, with the integer parts of printing and `strtod`. */
  lemma IntegerCommentsAreWhiteSpace(v: Value, escapeSlashes: bool, gaps: seq<seq<Piece>>, rest: bytes)
    requires WellNamed(v) && IntegersOnly(v) && EndsNumber(At(StripBoth(rest), 0))
    requires |gaps| == |Tokens(v, Style(false, escapeSlashes, FormatInteger))| && GoodGaps(gaps)
    ensures var text := Weave(Tokens(v, Style(false, escapeSlashes, FormatInteger)), Texts(gaps, PieceText));
            ParseWithComments(text + rest, ReadInteger) == if Depth(v) <= MAX_NESTING then Some((v, |text|)) else None
  {
    IntegersArePrintable(v);
    IntegersArePlain(v);
    CommentsAreWhiteSpace(v, Style(false, escapeSlashes, FormatInteger), gaps, rest, ReadInteger);
  }

  // ---------- a line comment that does harm ----------

  /** The text inside a line comment, and a string with a block comment in it. */
  const QUOTE_TEXT: bytes := [QUOTE]
  const COMMENT_STRING: bytes := BLOCK_OPEN + ([0x78] + BLOCK_CLOSE)

  /** A quote in a line comment turns strings and the text between them round for the first pass: what looks like a
      comment in the string behind it is blanked, and the string parses to another value. */
  lemma QuoteInCommentHarms()
    ensures !Settles(QUOTE_TEXT)
    ensures StripBoth(Quoted(COMMENT_STRING, false)) == Quoted(COMMENT_STRING, false)
    ensures StripBoth(LineText(QUOTE_TEXT) + Quoted(COMMENT_STRING, false)) == Spaces(4) + Quoted(Spaces(5), false)
    ensures Spaces(5) != COMMENT_STRING
  {
    hide Strip, Turns, Spaces, IndexOf, Escape;
    var comment := LineText(QUOTE_TEXT);
    var blanked := Quoted(Spaces(5), false);
    QuotedTurns(COMMENT_STRING, false, BLOCK_OPEN, BLOCK_CLOSE);
    QuotedTurns(COMMENT_STRING, false, LINE_OPEN, LINE_CLOSE);
    TurnsAlone(Quoted(COMMENT_STRING, false), Quoted(COMMENT_STRING, false), BLOCK_OPEN, BLOCK_CLOSE);
    TurnsAlone(Quoted(COMMENT_STRING, false), Quoted(COMMENT_STRING, false), LINE_OPEN, LINE_CLOSE);
    FirstPassHarms();
    QuotedTurns(Spaces(5), false, LINE_OPEN, LINE_CLOSE);
    TurnsAlone(blanked, blanked, LINE_OPEN, LINE_CLOSE);
    BothTokensOpen();
    LineEnds(QUOTE_TEXT);
    ClosesThere(QUOTE_TEXT + LINE_CLOSE, blanked, LINE_CLOSE);
    ClosedComment(QUOTE_TEXT, blanked, LINE_OPEN, LINE_CLOSE);
    PlainEscapes();
    assert Spaces(5)[0] == SPACE != COMMENT_STRING[0];
    assert (comment + blanked)[5] == Spaces(5)[0];
    assert (comment + Quoted(COMMENT_STRING, false))[5] == COMMENT_STRING[0];
    CancelPrefix(Spaces(4), blanked, Quoted(COMMENT_STRING, false));
    LineIsWhiteSpaceExactly(QUOTE_TEXT);
  }

  lemma FirstPassHarms()
    ensures Strip(LineText(QUOTE_TEXT) + Quoted(COMMENT_STRING, false), false, false, BLOCK_OPEN, BLOCK_CLOSE)
         == LineText(QUOTE_TEXT) + Quoted(Spaces(5), false)
  {
    hide Strip, Spaces, IndexOf, Escape;
    PlainEscapes();
    var open, close := BLOCK_OPEN, BLOCK_CLOSE;
    var t5 := [QUOTE];
    var t4 := [QUOTE] + (COMMENT_STRING + t5);
    var t3 := [NEWLINE] + t4;
    var t2 := [QUOTE] + t3;
    var t1 := [SLASH] + t2;
    assert LineText(QUOTE_TEXT) + Quoted(COMMENT_STRING, false) == [SLASH] + t1;
    SlashAlone(SLASH, t2);
    SlashAlone(QUOTE, t3);
    AtQuote(t3, false, open, close);
    OneByte(NEWLINE, t4, true, false, open, close);
    AtQuote(COMMENT_STRING + t5, true, open, close);
    XCloses(t5);
    BothTokensOpen();
    ClosedComment([0x78], t5, open, close);
    EmptyParts(t5);
    AtQuote([], false, open, close);
    StripEmpty([], true, false, open, close);
    assert Spaces(2 + 1 + 2) == Spaces(5);
    var u4 := [QUOTE] + (Spaces(5) + t5);
    assert [SLASH] + ([SLASH] + ([QUOTE] + ([NEWLINE] + u4))) == LineText(QUOTE_TEXT) + u4;
    assert u4 == Quoted(Spaces(5), false);
  }

  /** Bytes that need no escape stay as they are. */
  lemma PlainEscapes()
    ensures Escape(COMMENT_STRING, false) == COMMENT_STRING && Escape(Spaces(5), false) == Spaces(5)
  {
    PlainEscape(COMMENT_STRING);
    PlainEscape(Spaces(5));
  }

  lemma {:induction false} PlainEscape(s: bytes)
    requires forall k :: 0 <= k < |s| ==> s[k] == SPACE || s[k] == SLASH || s[k] == 0x2A || s[k] == 0x78
    ensures Escape(s, false) == s
  {
    if s != [] {
      PlainEscape(s[1..]);
      assert [s[0]] + s[1..] == s;
    }
  }

  lemma XCloses(rest: bytes)
    ensures IndexOf(([0x78] + BLOCK_CLOSE) + rest, BLOCK_CLOSE) == Some(1)
  {
    hide IndexOf;
    var s := ([0x78] + BLOCK_CLOSE) + rest;
    IndexOfIsFirst(s, BLOCK_CLOSE);
    assert s[1..3] == BLOCK_CLOSE;
    assert Has(s, 1, BLOCK_CLOSE);
    HasAt(s, IndexOf(s, BLOCK_CLOSE).value, BLOCK_CLOSE, 0);
    assert s[0] == 0x78;
  }
}
