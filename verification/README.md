# Verified models of the device library's hard parts

A Dafny model of the algorithms that every message of this Azure IoT device library passes through, and of a few
small state machines around them, with proofs of what they promise.

* **JSON objects** (`Probing`, `ObjectTable`, `Assoc`): the open-addressed hash index of parson, with growth by
  rehashing and tombstone-free deletion, as a class over its arrays. It is proved to be a finite map with insertion
  order, for every hash function.
* **JSON text** (`StringLiteral`, `Utf8`, `Serializer`, `Writer`, `Parser`, `ParserCode`, `RoundTrip`, `Json`,
  `DecimalNumbers`, `EmptyNumbers`, `LiteralGrammar`, `Grammar`, `Layout`, `Comments`, `CommentedText`): escaping,
  UTF-16 escapes, UTF-8 validation, the two passes of serialization, the cursor parser and comment stripping. Exactly
  the texts of a grammar are parsed, for the values they spell; and parsing undoes serializing on whole documents, with
  any white space, any block comments, and exactly the harmless line comments between the tokens.
* **JSON values** (`DotPath`, `NestedObjects`, `Equality`, `Schema`): dotted paths, on values and in place, equality,
  deep copy and schema validation, with their laws and the exact conditions under which the laws hold.
* **Lists, sockets, HTTP** (`DoublyLinkedList`, `SendQueue`, `ChunkedReader`): the intrusive ring list over the heap,
  byte-stream conservation of the pending-send queue, and the decoder of chunked bodies over a fragmented stream.
* **Device** (`Connection`, `TickCounter`): the provisioning and connection state machine over all runs, and the drift
  of the tick counter.

Where the C code loops and updates, the model has methods with loops, arrays and class fields, each proved equal to a
function; the laws are lemmas about those functions. `dafny verify dfyconfig.toml` checks the project.

Findings about the code, each with the lemmas that state it:

* `json_value_equals` is not transitive, because of its tolerance (`EqualsNotTransitive`); `TransitiveExactly` says when
  it is.
* `json_validate` does not compose across empty arrays (`EmptyArrayBreaksComposition`); `ComposesExactly` says when it
  does.
* A second pass of `remove_comments` can change the text again (`SecondPassChanges`; exactly when: `StripTwice`): an
  unclosed comment ends the first pass, and only its opening token is blanked.
* The pass for block comments goes first and does not know line comments, so a quote in a line comment turns strings and
  the text between them round for it (`QuoteInCommentHarms`); `LineIsWhiteSpaceExactly` says which line comments are
  white space.
* `json_parse_string_with_comments` refuses the byte order mark that `json_parse_string` skips (`MarkedTextIsRefused`).
* A lone `-`, or any number text that `strtod` reads nothing of, is read as a number without moving the cursor
  (`LoneMinus`; exactly when: `StallsExactly`); it is accepted as a whole document only (`OnlyAsDocument`).
* `is_valid_utf8` accepts a length that cuts an encoded character in two (`CutSequenceIsAccepted`; exactly when:
  `CheckIsExact`).
* The parser accepts a comma in front of a closing bracket, which RFC 8259 does not have (`ParsesExactly`).
* `socketio_dowork` goes on behind a hard error: it drops the buffer and sends the next ones (`SendsBehindError`;
  exactly what: `DrainDrops`).
* `readLine` leaves the LF of a line in the buffer when the CR is the last byte received so far; the chunk is then
  always refused (`DividedExample`; exactly when: `BodyIsRead`).
* The tick counter's scaled difference overflows when the ticks between two reads, times a million, do not fit 63 bits
  (`OverflowExample`); `BoundedExactly` says which reads keep the bound.

## Model

| member | source | states |
|---|---|---|
| `ObjectTable.JsonObject.Init` | src/parson.c:433-473 | A new object is valid and empty, with the given cell capacity and room for seven tenths as many items. |
| `ObjectTable.JsonObject.GetCellIx` | src/parson.c:533-562 | Probing finds a key exactly when some item has that name, under any hash; otherwise it ends at the first empty cell of the key's probe run. It never runs through the whole table. |
| `ObjectTable.JsonObject.ProbeEndsAbsent` | src/parson.c:547-551 | An empty cell reached by probing proves that the key is absent. |
| `ObjectTable.JsonObject.GetValue` | src/parson.c:600-616 | Lookup by hashing agrees with lookup in the plain list of items. |
| `ObjectTable.JsonObject.Add` | src/parson.c:564-598 | Add refuses exactly the names that are present, and otherwise appends the item, growing first when the object is full; an object with room does not grow. |
| `ObjectTable.JsonObject.GrowAndRehash` | src/parson.c:503-531 | Growing keeps the items and their order, at least doubles the table, and leaves room for one more item; its additions never grow the new table. |
| `ObjectTable.JsonObject.AddAllOf` | src/parson.c:515-525 | Rehashing adds every item of the old object in order, in the arrays it was given. |
| `ObjectTable.JsonObject.SetValue` | src/parson.c:2063-2104 | A value without a parent replaces the value of that name in place, or is appended; a value with a parent is refused and nothing changes. |
| `ObjectTable.JsonObject.RemoveInternal` | src/parson.c:618-676 | Backward-shift deletion: removal succeeds exactly for a present name, moves the last item into its place and keeps every other item in order; the table stays valid, so each remaining item is still found by probing. |
| `ObjectTable.JsonObject.MoveLastInto` | src/parson.c:644-652 | Moving the last item into the hole sets up the backward shift. |
| `ObjectTable.ShiftBack` | src/parson.c:654-674 | The shift loop, wrapping round the end of the table, restores that no item is cut off from its home cell and that cells and cell_ixs are mutually inverse. |
| `ObjectTable.JsonObject.Clear` | src/parson.c:2270-2287 | Clearing removes every item and keeps the table valid. |
| `ObjectTable.RunOperations` | src/parson.c:564-676 | Over every run of add, set, remove and clear on a new object, with growth, items, order and the success of each call are those of a plain list, and lookups those of a finite map. |
| `Probing.MaskIsBitAnd` | src/parson.c:534-544 | For a power-of-two capacity `& (capacity - 1)` is the remainder. |
| `Probing.EmptyCell` | src/parson.c:439-440 | A table under its load bound has an empty cell (pigeonhole), which is why probing and shifting end. |
| `Probing.InsertKeepsLinked` | src/parson.c:589-594 | An item put into the first empty cell of its probe run cuts no item off. |
| `Probing.RunsAreIntervals` | src/parson.c:533-562 | Seen from any empty cell, every probe run is an interval of occupied cells, wherever the table wraps. |
| `Probing.ShiftStarts` | src/parson.c:644-656 | After the last item moved, the removed item's cell is the only hole. |
| `Probing.TestMeansNotBehind` | src/parson.c:664-665 | The wrap-around test of the shift loop holds exactly for the items whose home is not behind the hole, seen from an empty cell. |
| `Probing.ShiftMoves` | src/parson.c:662-668 | The wrap-around test of the shift loop picks an item whose run passes the hole; moving it moves the hole. |
| `Probing.ShiftSkips` | src/parson.c:662-668 | The items the test leaves alone are not cut off by the hole. |
| `Probing.ShiftEnds` | src/parson.c:659-661 | At the first empty cell the hole can be emptied: every item is reachable again. |
| `Assoc.RunRefinesMap` | src/parson.c:564-676 | Every run on the plain list is a run on a finite map, with the same success of every call, and names stay distinct. |
| `Assoc.AddLaw` | src/parson.c:564-598 | Adding a new name changes the lookup of that name only. |
| `Assoc.SetLaw` | src/parson.c:2063-2104 | Setting a name changes the lookup of that name only. |
| `Assoc.SetInPlace` | src/parson.c:2063-2104 | Index by index: setting keeps every entry in its place and writes one value; a new name comes last. |
| `Assoc.RemoveAtMoves` | src/parson.c:644-652 | Index by index: removing takes the last entry into the hole and leaves the others where they are. |
| `Assoc.RemoveFinds` | src/parson.c:618-643 | Removing by name removes where the name is, and fails when it is nowhere. |
| `Assoc.RemoveLaw` | src/parson.c:618-676 | Removing a name makes just that name absent, although the last item moves. |
| `Utf8.IsValidUtf8` | src/parson.c:370-380 | Of a C string and a length: accepts exactly when some concatenation of encodings of Unicode scalar values (sections 3 and 4 of RFC 3629) at the start of the string reaches the length or goes beyond; for the whole string exactly the well-formed ones. |
| `Utf8.CheckIsExact` | src/parson.c:370-380 | When the byte behind the length is no continuation byte, as at the end of the string, exactly well-formed bytes are accepted; otherwise ill-formed ones are accepted exactly when the length lies inside an encoded character. |
| `Utf8.CutSequenceIsAccepted` | src/parson.c:1632-1649 | A concrete string and length that cuts its one character in two: accepted, but not well-formed. |
| `Utf8.VerifySound` | src/parson.c:328-368 | An accepted sequence is the encoding of one scalar value, and lies within the text. |
| `Utf8.VerifyComplete` | src/parson.c:313-368 | The encoding of every scalar value is accepted in full. |
| `Utf8.WellFormedStep` | src/parson.c:370-380 | A refused sequence makes the whole rest ill-formed; an accepted one can be taken off. |
| `StringLiteral.SkipQuotes` | src/parson.c:765-783 | Finds the closing quote of a literal, or fails when the text ends first. |
| `StringLiteral.TokenInsideLiteral` | src/parson.c:834-887 | One step of unescaping never reads past the closing quote and never writes more than it reads. |
| `StringLiteral.UnescapeInsideLiteral` | src/parson.c:834-887 | Unescaping a whole literal ends exactly at its closing quote and writes at most as many bytes as it read. |
| `StringLiteral.EscapeRoundTrip` | src/parson.c:1269-1334 | For every byte string, embedded NULs included, and both slash settings, the closing quote of the escaped form is found and unescaping gives the string back. |
| `StringLiteral.QuotedRoundTrip` | src/parson.c:891-900 | Reading a serialized literal gives its bytes and stops behind its closing quote. |
| `StringLiteral.SurrogateBits` | src/parson.c:816 | The bit arithmetic on a surrogate pair is the code point of section 7 of RFC 8259. |
| `StringLiteral.WriteCodePoint` | src/parson.c:795-821 | Writes exactly the UTF-8 encoding of the code point. |
| `StringLiteral.ParseUtf16` | src/parson.c:785-829 | Accepts exactly the \u escapes that denote a scalar value, alone or as a surrogate pair, and writes its encoding. |
| `StringLiteral.ProcessString` | src/parson.c:834-887 | The unescaping loop, in a buffer of the literal's own length plus one, computes the unescaped bytes or fails. |
| `StringLiteral.GetQuotedString` | src/parson.c:891-900 | Reads the quoted string at the cursor, or fails. |
| `LiteralGrammar.EscapeIsRead` | src/parson.c:785-829 | Every spelling of the \u escape of every scalar value, with digits in either case, in one unit or as a surrogate pair, is read as the UTF-8 encoding of that value (section 7 of RFC 8259). |
| `LiteralGrammar.TokenExactly` | src/parson.c:785-887 | One step of unescaping reads exactly a plain character, one of the eight short escapes or such a \u escape, for the bytes it stands for. |
| `LiteralGrammar.StringExactly` | src/parson.c:891-900 | Exactly the string literals of the grammar are read, for the bytes that they spell, up to their closing quote. |
| `LiteralGrammar.EscapeIsShortest` | src/parson.c:1269-1334 | Of all spellings of a byte the serializer writes the shortest, with lower-case digits; but a slash with a backslash when asked to. |
| `StringLiteral.UnescapeKeepsUtf8` | src/parson.c:834-887 | Unescaping well-formed UTF-8 yields well-formed UTF-8. |
| `ParserCode.SkipWhitespaces` | src/parson.c:61 | Skips exactly the white space at the cursor. |
| `ParserCode.JsonParseString` | src/parson.c:1362-1370 | Parses the first value of the text, behind a byte order mark, and tells where it ends. |
| `ParserCode.JsonParseValue` | src/parson.c:902-925 | Dispatches on the first byte; refuses nesting above the limit. |
| `ParserCode.JsonParseObject` | src/parson.c:927-998 | The cursor code reads the same object, and stops at the same place, as the recursive description. |
| `ParserCode.JsonParseMembers` | src/parson.c:948-990 | The member loop collects the same members in the same order, refusing repeated names and names with NUL. |
| `ParserCode.JsonParseArray` | src/parson.c:1000-1047 | The cursor code reads the same array, and stops at the same place, as the recursive description. |
| `ParserCode.JsonParseItems` | src/parson.c:1018-1038 | The element loop collects the same elements in the same order, trailing comma allowed. |
| `RoundTrip.DocumentRoundTrip` | src/parson.c:1124-1267 | For every value with well-formed names and faithfully printed numbers, at every indentation level, compact or indented: parsing the text gives the same tree, member order included, and ends exactly at the end of the text, if and only if the value is nested no deeper than MAX_NESTING. |
| `RoundTrip.LayoutDoesNotMatter` | src/parson.c:1117-1262 | Any two layouts, levels and slash settings parse to the same value. |
| `RoundTrip.AnyLayoutRoundTrip` | src/parson.c:1362-1370 | Whatever white space stands between the tokens of a value, and whatever that may follow a number stands behind them: parsing gives the value and stops behind its last token, if and only if it is nested no deeper than MAX_NESTING. |
| `RoundTrip.SerializeIsWoven` | src/parson.c:1124-1267 | What the serializer writes, at every level and in both layouts, is the value's tokens with white space between them. |
| `RoundTrip.ReadsValue` | src/parson.c:902-925 | Inside any surrounding text, at any nesting, the tokens of a value with any white space between them parse to that value and parsing stops behind the last one, unless nested too deep. |
| `RoundTrip.ReadsItems` | src/parson.c:1000-1047 | Elements, with commas and any white space between the tokens, parse to those elements up to the closing bracket. |
| `RoundTrip.ReadsMembers` | src/parson.c:927-998 | Members, with any white space between the tokens, parse to those members, in order, up to the closing brace. |
| `RoundTrip.ParsedIsWellNamed` | src/parson.c:927-998 | Whatever text is accepted, the value has distinct NUL-free names everywhere and respects the nesting limit. |
| `RoundTrip.ReparseIsStable` | src/parson.c:1362-1370 | Serializing what was parsed from any accepted text and parsing it again changes nothing. |
| `RoundTrip.IntegerDocumentRoundTrip` | src/parson.c:1077-1090 | The document theorem for values whose numbers are integers up to 2^53 in magnitude, with the integer parts of printing and `strtod` in the place of the parameters. |
| `DecimalNumbers.IntegersAreFaithful` | src/parson.c:1077-1090 | Such integers survive the integer parts of printing and `strtod`, and the is_decimal check. |
| `Grammar.ParsesExactly` | src/parson.c:902-1090 | The parser accepts exactly the texts that a grammar written out in bytes has for a value: white space, the three words, string literals, numbers that strtod reads and that hold no x and no digit behind a leading zero, a colon behind each name, commas between elements, one more comma allowed before the closing bracket; names distinct and free of NULs, nested up to the limit. The value is the one spelled and ends where it is spelled. |
| `Grammar.DocumentExactly` | src/parson.c:1362-1370 | The same if-and-only-if for whole documents, which may start with a byte order mark, up to 2048 levels. |
| `Grammar.SpellingIsUnique` | src/parson.c:902-1047 | A text spells at most one value within the limits, and it ends in one place. |
| `EmptyNumbers.LoneMinus` | src/parson.c:1077-1090 | A lone minus sign parses to 0 and nothing of the text is consumed. |
| `EmptyNumbers.StallsExactly` | src/parson.c:902-925 | An accepted value ends where it starts exactly when it is a number that `strtod` reads nothing of. |
| `EmptyNumbers.StrictAgrees` | src/parson.c:902-1047 | Inside arrays and objects such a number never gets through: a parser that refuses such numbers everywhere gives the same results, except where the whole value is one. |
| `EmptyNumbers.OnlyAsDocument` | src/parson.c:1362-1370 | Such a number is accepted as a whole document only. |
| `Writer.SerializeInto` | src/parson.c:1124-1267 | With no buffer it counts, with one it writes: both give the length of the text; the writing stays inside the text and one NUL behind it. |
| `Writer.SerializeString` | src/parson.c:1269-1334 | The two passes agree on string literals, for every byte string and slash setting. |
| `Writer.SerializeElements` | src/parson.c:1143-1162 | The two passes agree on the element loop of arrays, separators and indentation included. |
| `Writer.SerializeEntries` | src/parson.c:1175-1211 | The two passes agree on the member loop of objects, separators and indentation included. |
| `Writer.WroteBoth` | src/parson.c:1107-1123 | Consecutive writes, each ending in a NUL that the next overwrites, are one write of the concatenation. |
| `Writer.SerializationSize` | src/parson.c:1778-1782 | The computed size is the length of the text plus one. |
| `Writer.SerializeToBuffer` | src/parson.c:1784-1795 | Succeeds exactly when the text and its NUL fit, touches nothing behind them, and leaves a refused buffer alone. |
| `Writer.SerializeToString` | src/parson.c:1819-1836 | A buffer of the size computed by the sizing pass is filled exactly: text and NUL. |
| `Layout.SerializeIsText` | src/parson.c:1124-1267 | The serialized text byte for byte, in both layouts and from every level: the brackets, a comma between any two parts, and in pretty text a line feed and four spaces for each level in front of elements, names and closing brackets, and a space behind a colon. |
| `Layout.LayoutExactly` | src/parson.c:1140-1212 | Compact text is the tokens and nothing else; in pretty text the gap in front of each token is the one listed, and empty everywhere else. |
| `DotPath.SegmentsSpellPath` | src/parson.c:1420-1427 | The segments of a path hold no dots and spell the path. |
| `DotPath.JoinLooksInside` | src/parson.c:1420-1427 | Getting p.r is getting r inside what p leads to. |
| `DotPath.SetThenGet` | src/parson.c:2151-2200 | After a successful dotset, dotget of the path gives the value. |
| `DotPath.SetFrame` | src/parson.c:2151-2200 | A dotset leaves every path alone that neither leads through the set path nor is led through by it. |
| `DotPath.SetThenGetInside` | src/parson.c:2151-2200 | Paths that extend a set path lead into the new value. |
| `DotPath.FailedSetChangesNothing` | src/parson.c:2151-2200 | A failed dotset changes nothing at all. |
| `DotPath.SetFailsExactly` | src/parson.c:2151-2200 | A dotset fails exactly when the value has a parent or a proper prefix of the path leads to something other than an object. |
| `DotPath.RemoveThenGet` | src/parson.c:678-691 | A dotremove succeeds exactly when the path leads to a value, and makes it absent. |
| `DotPath.RemoveFrame` | src/parson.c:678-691 | A dotremove leaves every unrelated path alone. |
| `DotPath.RemoveThenGetInside` | src/parson.c:678-691 | Paths that extend a removed path lead nowhere. |
| `DotPath.FailedRemoveChangesNothing` | src/parson.c:678-691 | A failed dotremove changes nothing. |
| `DotPath.SetKeepsWellNamed` | src/parson.c:2151-2200 | Dotset keeps the names of every nested object distinct. |
| `DotPath.RemoveKeepsWellNamed` | src/parson.c:678-691 | Dotremove keeps the names of every nested object distinct. |
| `NestedObjects.ObjectNode.SetValue` | src/parson.c:2063-2104 | In place, a value without a parent replaces or extends the members of one object, as on values. |
| `NestedObjects.ObjectNode.DotSetValue` | src/parson.c:2151-2200 | Updating nested objects in place, through pointers, has exactly the effect of the update of values, on the object and on every object inside it; new objects are made only along the missing path. |
| `NestedObjects.ObjectNode.DotRemoveValue` | src/parson.c:678-691 | Removing through nested objects in place has exactly the effect of the removal on values. |
| `NestedObjects.ObjectNode.RemoveValue` | src/parson.c:618-676 | In place, removal moves the last member into the hole. |
| `NestedObjects.ObjectNode.SiblingsAreApart` | src/parson.c:2151-2200 | Objects held by different members share nothing, so an update inside one leaves the others alone. |
| `NestedObjects.ObjectNode.AddValue` | src/parson.c:564-598 | In place, a new name appends a member and a present one changes nothing. |
| `NestedObjects.DeepCopy` | src/parson.c:1688-1776 | The copy of an object has equal members in the same order and consists of new objects only, so updates of the one are not seen in the other. |
| `NestedObjects.DotGetValue` | src/parson.c:1420-1427 | Following pointers finds what the path leads to, or nothing. |
| `DotPath.DotSetInPlace` | src/parson.c:2151-2200 | Index by index: a dotset keeps every member in its place and changes at most the one that the path enters, which comes last when it is new; inside it goes on with the rest of the path. |
| `DotPath.DotRemoveInPlace` | src/parson.c:678-691 | Index by index: a dotremove keeps every member in its place and changes at most the one that the path enters; at its end the last member moves into the hole. |
| `Equality.JsonValueEquals` | src/parson.c:2349-2412 | Decides the recursive relation, with numbers compared up to 0.000001. |
| `Equality.EqualsByPaths` | src/parson.c:2349-2412 | What equality means: every path of indices and names leads to nothing in both values, or in both to the same kind: arrays of one length, objects with one set of names, the same flag, the same bytes, or numbers closer than 0.000001. |
| `Equality.EqualsUpToOrder` | src/parson.c:2349-2412 | Equal values with the same numbers are exactly the values that are the same when the order of members is forgotten. |
| `Equality.EqualsIsSameness` | src/parson.c:2349-2412 | Without objects they are the same value. |
| `Equality.DepthIsLongestPath` | src/parson.c:902-905 | The nesting that the parser limits is the length of the longest path into the value. |
| `Equality.EqualsReflexive` | src/parson.c:2349-2412 | Every value equals itself. |
| `Equality.EqualsSymmetric` | src/parson.c:2349-2412 | Equality is symmetric, although objects are compared by the keys of the left operand only. |
| `Equality.EqualObjectsShareNames` | src/parson.c:2377-2392 | Equal objects have the same set of names, in whatever order. |
| `Equality.EqualsNotTransitive` | src/parson.c:2404 | The tolerance makes equality not transitive: three numbers. |
| `Equality.TransitiveExactly` | src/parson.c:2349-2412 | Exactly when transitivity holds: everything equal to b equals a, if and only if the corresponding numbers of a and b, through arrays and by name through objects, are the same. |
| `Equality.JsonValueDeepCopy` | src/parson.c:1688-1776 | A deep copy is the same value, member order included; on values only, see `NestedObjects.DeepCopy`. |
| `Schema.JsonValidate` | src/parson.c:2289-2347 | The loops decide the relation that the header describes; the early comparison of member counts decides nothing else. |
| `Schema.MatchesExactly` | include/parson.h:124-134 | What validation means: wherever a way through the schema leads in the value, to any element of an array, the value there is admitted: anything for null, otherwise the same kind, and of an object that it has all the members named. |
| `Schema.MatchesComposes` | include/parson.h:124-134 | If a validates b and b validates c, then a validates c, when no empty array of b meets a non-empty array of a other than [null]. |
| `Schema.ComposesExactly` | include/parson.h:124-134 | That condition is exact: for all other a and b some c passes b and fails a. |
| `Schema.NoEmptyArrayComposes` | include/parson.h:124-134 | In particular validation composes when b holds no empty array. |
| `Schema.EmptyArrayBreaksComposition` | include/parson.h:131-132 | A concrete failure with an empty array in the middle. |
| `Schema.InstanceMatches` | include/parson.h:124-134 | Every schema validates some value. |
| `Comments.RemoveComments` | src/parson.c:236-269 | The in-place loop turns the text into its stripped form. |
| `Comments.StripBlanksComments` | src/parson.c:236-269 | One pass keeps the length, turns every byte of a comment into a space, and no other byte. |
| `Comments.StripChangesNothing` | src/parson.c:236-269 | A pass changes nothing just when no comment is opened outside a literal. |
| `Comments.NoNewToken` | src/parson.c:236-269 | Blanking creates no new opening token. |
| `Comments.StripExactly` | src/parson.c:236-269 | A pass, exactly: the first comment opens at the first opening token behind an even number of quotes that no odd run of backslashes escapes; blanks go up to behind the next closing token, where the pass starts afresh, or over the token alone when nothing closes it. |
| `Comments.NoOpening` | src/parson.c:236-269 | A text without such an opening stays. |
| `Comments.StripTwice` | src/parson.c:236-269 | A second pass changes nothing if and only if every comment is closed, or none is opened behind the unclosed one. |
| `Comments.IndexOfIsFirst` | src/parson.c:258 | The search finds the first occurrence of the closing token. |
| `Comments.RealTokensTwice` | src/parson.c:1372-1385 | The same for the block and line comments that the parser removes. |
| `Comments.SecondPassChanges` | src/parson.c:236-269 | The text `/*/*` changes again in the second pass. |
| `CommentedText.CommentsAreWhiteSpace` | src/parson.c:1372-1385 | With any white space and closed comments between and in front of the tokens of a value, and behind them anything that may follow a number, the parser that strips comments first gives the value and stops behind its last token, if and only if it is nested no deeper than MAX_NESTING. Block comments are arbitrary; line comments are those of LineIsWhiteSpaceExactly. |
| `CommentedText.LineIsWhiteSpaceExactly` | src/parson.c:236-269 | Exactly which line comments are white space to the two passes, in front of every text: the pass for block comments, which goes first, closes every string and block comment in it, and its second slash opens none. |
| `CommentedText.CommentMayFollow` | src/parson.c:1372-1385 | Behind a value a comment may stand whether it is closed or not, even at the end of the text. |
| `CommentedText.IntegerCommentsAreWhiteSpace` | src/parson.c:1372-1385 | As CommentsAreWhiteSpace, for values whose numbers are integers, with the integer parts of printing and `strtod` in the place of the parameters. |
| `CommentedText.CommentsDoNotHurt` | src/parson.c:1372-1385 | Text that looks like a comment inside a string is kept, so serialized values still parse to themselves. |
| `CommentedText.TokensTurn` | src/parson.c:236-269 | Every token of a value passes the scan unchanged, in front of any other text. |
| `CommentedText.QuotedTurns` | src/parson.c:236-269 | Every string literal passes, whatever it holds. |
| `CommentedText.QuoteInCommentHarms` | src/parson.c:1372-1385 | A failing case: a quote in a line comment makes the first pass blank what looks like a comment inside the string behind it. |
| `CommentedText.MarkedTextIsRefused` | src/parson.c:1362-1385 | A text that starts with a byte order mark is refused when comments are allowed, although `json_parse_string` skips the mark; other texts without comments parse alike. |
| `DoublyLinkedList.InitializeListHead` | azure-iot-sdk-c/c-utility/src/doublylinkedlist.c:7-14 | A new head is a ring of one entry. |
| `DoublyLinkedList.IsListEmpty` | azure-iot-sdk-c/c-utility/src/doublylinkedlist.c:17-24 | True exactly when the head is alone in its ring. |
| `DoublyLinkedList.InsertTailList` | azure-iot-sdk-c/c-utility/src/doublylinkedlist.c:64-80 | Appends the entry behind the last one; all links stay mutually inverse. |
| `DoublyLinkedList.InsertHeadList` | azure-iot-sdk-c/c-utility/src/doublylinkedlist.c:101-107 | Puts the entry right behind the head; all links stay mutually inverse. |
| `DoublyLinkedList.RemoveEntryList` | azure-iot-sdk-c/c-utility/src/doublylinkedlist.c:27-43 | Deletes any entry of the ring, wherever it is; the result tells whether a single entry remains. |
| `DoublyLinkedList.RemoveHeadList` | azure-iot-sdk-c/c-utility/src/doublylinkedlist.c:46-61 | Drops and returns the first entry behind the head, or returns the head of an empty list. |
| `DoublyLinkedList.AppendTailList` | azure-iot-sdk-c/c-utility/src/doublylinkedlist.c:84-97 | Splices two disjoint rings into the first followed by the entry given and its followers. |
| `DoublyLinkedList.LinksAreInverse` | azure-iot-sdk-c/c-utility/src/doublylinkedlist.c:27-43 | On a ring Flink and Blink are mutually inverse and stay inside the ring. |
| `DoublyLinkedList.RotatedRing` | azure-iot-sdk-c/c-utility/src/doublylinkedlist.c:27-43 | A ring may be read from any of its entries, so the laws hold for every head. |
| `SendQueue.QueuedBehind` | azure-iot-sdk-c/c-utility/adapters/socketio_berkeley.c:214-253 | A request queued behind others is accounted for: wire, queue and callbacks stay consistent with the accepted requests. |
| `SendQueue.QueuedFirst` | azure-iot-sdk-c/c-utility/adapters/socketio_berkeley.c:943-985 | So is the rest of a request of which an idle socket took a part. |
| `SendQueue.SocketIo.Send` | azure-iot-sdk-c/c-utility/adapters/socketio_berkeley.c:913-991 | An idle socket takes a prefix and the rest is queued; a busy one queues everything; a refused request changes nothing. The callback is called at once only when every byte went out. |
| `SendQueue.SocketIo.DoWork` | azure-iot-sdk-c/c-utility/adapters/socketio_berkeley.c:993-1057 | One call sends from the front of the queue until the queue is empty or the socket takes less than it is offered. |
| `SendQueue.SocketIo.SendFirst` | azure-iot-sdk-c/c-utility/adapters/socketio_berkeley.c:1006-1056 | One round sends the first queued buffer, wholly or in part, or drops it after a hard error. |
| `SendQueue.Conservation` | azure-iot-sdk-c/c-utility/adapters/socketio_berkeley.c:913-1057 | Bytes on the wire followed by queued bytes are the accepted buffers in order. |
| `SendQueue.CompletedAreSent` | azure-iot-sdk-c/c-utility/adapters/socketio_berkeley.c:913-1057 | The callbacks called are those of the accepted requests whose last byte is out. |
| `SendQueue.DrainConserves` | azure-iot-sdk-c/c-utility/adapters/socketio_berkeley.c:993-1057 | Without a hard error a call of dowork loses, repeats and reorders nothing, and empties the queue when the socket has room. |
| `SendQueue.DrainDrops` | azure-iot-sdk-c/c-utility/adapters/socketio_berkeley.c:993-1057 | One call under any answers: a hard error drops the request whose turn it is, with its callback, and of the others nothing is lost, repeated or reordered. |
| `SendQueue.SendsBehindError` | azure-iot-sdk-c/c-utility/adapters/socketio_berkeley.c:1022-1031 | The loop goes on behind a hard error: a concrete call drops one buffer and sends the next. |
| `SendQueue.Run` | azure-iot-sdk-c/c-utility/adapters/socketio_berkeley.c:913-1057 | Conservation and completion over every run of sends and dowork calls without a hard error, whatever the partial sends. |
| `ChunkedReader.ReceivedIsPrefix` | azure-iot-sdk-c/c-utility/adapters/httpapi_compact.c:418-515 | Whatever the fragmentation, waiting for `n` bytes gives the next `n` bytes of the stream and leaves the rest, or fails when they do not arrive in time. |
| `ChunkedReader.HttpConnection.Receive` | azure-iot-sdk-c/c-utility/adapters/httpapi_compact.c:467-515 | Waits for `count` bytes, at least one round, and takes exactly those; fails when the transport fails. |
| `ChunkedReader.HttpConnection.CopyLine` | azure-iot-sdk-c/c-utility/adapters/httpapi_compact.c:558-587 | The inner loop copies up to the CR, takes the LF only when it is buffered, and fails when the line fills the buffer. |
| `ChunkedReader.HttpConnection.ReadLine` | azure-iot-sdk-c/c-utility/adapters/httpapi_compact.c:530-618 | Reads a line over at most 201 rounds into a NUL-terminated buffer. |
| `ChunkedReader.HttpConnection.ReadChunk` | azure-iot-sdk-c/c-utility/adapters/httpapi_compact.c:620-650 | Reads exactly `size` bytes when `size` fits an int; larger sizes fail or read what the cast leaves of them. |
| `ChunkedReader.ParseStringToHexadecimal` | azure-iot-sdk-c/c-utility/adapters/httpapi_compact.c:86-110 | The value of the leading hexadecimal digits modulo 2^64, or failure when there is none. |
| `ChunkedReader.HttpConnection.ReadBody` | azure-iot-sdk-c/c-utility/adapters/httpapi_compact.c:1103-1180 | The chunk loop decodes as BodyIsRead says, and reports a size line that is no number apart from data that cannot be read. |
| `ChunkedReader.BodyIsRead` | azure-iot-sdk-c/c-utility/adapters/httpapi_compact.c:1103-1180 | For every list of chunks and every fragmentation the body is decoded, and exactly the encoded bytes are taken, if and only if the fragments arrive in time and no buffer ends between the CR and the LF of a size line as it is read; otherwise the reader reports failure and never delivers a wrong body. |
| `ChunkedReader.ChunkedRoundTrip` | azure-iot-sdk-c/c-utility/adapters/httpapi_compact.c:1103-1180 | Decoding undoes the chunked encoding of section 7.1 of RFC 9112 when no fragment ends inside such a CR LF and all arrive in time. |
| `ChunkedReader.DividedLineFails` | azure-iot-sdk-c/c-utility/adapters/httpapi_compact.c:576-594 | An LF left behind shifts the data by one byte, and the check behind the chunk fails. |
| `ChunkedReader.DividedExample` | azure-iot-sdk-c/c-utility/adapters/httpapi_compact.c:576-594 | A concrete body that is lost to such a fragmentation. |
| `ChunkedReader.DeliveredArrives` | azure-iot-sdk-c/c-utility/adapters/httpapi_compact.c:467-515 | With everything delivered in one fragment, three rounds for each chunk and two at the end suffice. |
| `ChunkedReader.LineIsRead` | azure-iot-sdk-c/c-utility/adapters/httpapi_compact.c:530-618 | How a line is read under every fragmentation: its text, what stays in the stream, and when it times out. |
| `ChunkedReader.SizeExactly` | azure-iot-sdk-c/c-utility/adapters/httpapi_compact.c:84-110 | Every text: the hexadecimal digits at its start, in either case, are the size modulo 2^64, and a text without any is refused. |
| `ChunkedReader.NoSizeFails` | azure-iot-sdk-c/c-utility/adapters/httpapi_compact.c:1103-1180 | A first line that starts with no digit is reported as such once it has arrived, and as unreadable data until then. |
| `ChunkedReader.LongLineFails` | azure-iot-sdk-c/c-utility/adapters/httpapi_compact.c:558-618 | A line that does not fit the buffer is not read, however it is fragmented. |
| `ChunkedReader.SizeRoundTrip` | azure-iot-sdk-c/c-utility/adapters/httpapi_compact.c:86-110 | A chunk size written in hexadecimal, with any extension, is read back. |
| `Connection.AzureClient.constructor` | src/dx_azure_iot.c:54-80 | The initial state is safe: nothing is held. |
| `Connection.CacheIsUsed` | src/dx_azure_iot.c:234-245 | While the network state is cached, no step depends on what the network would answer, and only the timer ends that. |
| `Connection.NetworkIsAskedOnce` | src/dx_azure_iot.c:228-245 | Between two expiries of the cache the network is asked at most once: runs from a cached state that differ in its answers only are the same. |
| `Connection.ListenersHearChanges` | src/dx_azure_iot.c:213-226 | Over any list of reports the listeners are told, in order, of exactly those that differ from the report before. |
| `Connection.AzureClient.IsConnected` | src/dx_azure_iot.c:247-260 | Connected means a live hub client, authenticated, with the network up; losing the network drops the authentication. |
| `Connection.AzureClient.HubConnectionStatusCallback` | src/dx_azure_iot.c:664-693 | The code is the transition that CallbackExactly describes. |
| `Connection.CallbackExactly` | src/dx_azure_iot.c:664-693 | A callback without authentication leads to DeviceDisabled for a disabled device or a lost network and to NotAuthenticated otherwise, to a device that is not connected, and the listeners know; one with authentication keeps the device while the network is up. |
| `Connection.LastCallbackDecides` | src/dx_azure_iot.c:664-693 | After any callbacks of one DoWork the device is ready if and only if the last one authenticated, the network is up and there is a client; and the last one decides the authentication state. |
| `Connection.NextRound` | src/dx_azure_iot.c:278-309 | After authentication is lost, the next round destroys the old hub client before anything else; a waiting device leaves the waiting state in the next round and does nothing else. |
| `Connection.AskedExactly` | src/dx_azure_iot.c:247-260 | Asking drops the authentication exactly when an authenticated device has lost the network, and the answer is whether an authenticated client is up. |
| `Connection.WorkRound` | src/dx_azure_iot.c:278-309 | With authentication under way or done and the network up, a round works on the hub client once. |
| `Connection.SetUpRound` | src/dx_azure_iot.c:278-309 | A round without authentication ends with authentication initiated, or where the callbacks lead, exactly when there is a hub client. |
| `Connection.ProvisioningStep` | src/dx_azure_iot.c:550-658 | Where one round of provisioning leads from each state, and exactly under which answers; waiting ends in an error after more than sixty rounds. |
| `Connection.PublishUses` | src/dx_azure_iot.c:312-381 | Publishing uses the hub client to send and then to work, just when connected and with a message; without all properties only to work. |
| `Connection.AzureClient.AzureConnectionHandler` | src/dx_azure_iot.c:278-309 | One timer step: a lost network drops the authentication before anything else is done, the hub client is worked on only once authentication has begun, and a disabled device starts over. |
| `Connection.AzureClient.SetupAzureClient` | src/dx_azure_iot.c:415-457 | An old hub client is destroyed before a new one is set up. From every safe state without authentication the result says truly whether there is a hub client, and the state is safe again. |
| `Connection.AzureClient.SetUpAzureIoTHubClientWithConnectionString` | src/dx_azure_iot.c:459-483 | Connected if and only if the network is up, the string is not empty and the client is created; provisioning is not touched. |
| `Connection.AzureClient.Connect` | src/dx_azure_iot.c:490-519 | Succeeds if and only if there is a URI, the hub client is created and its options are set; then there is a live hub client. A client whose options fail is left for the caller to destroy. |
| `Connection.LastUriIsKept` | src/dx_azure_iot.c:524-545 | Over any list of registrations, failed ones among them, the URI is that of the last successful one that came with a URI, and the status that of the last. |
| `Connection.AzureClient.SetUpAzureIoTHubClientWithDpsPnP` | src/dx_azure_iot.c:550-658 | One step of provisioning: what was taken is released on success, failure and timeout alike, and success means a hub client. |
| `Connection.AzureClient.AzurePublish` | src/dx_azure_iot.c:312-381 | Sends only when connected and all properties are set; the hub client is worked on whenever a message was created; the result tells whether the message was handed over, unless a property could not be set. |
| `Connection.NextSafe` | src/dx_azure_iot.c:278-309 | Every step, with any answers of the libraries below, keeps the invariant: provisioning client and security layer are held exactly while provisioning, then without hub client and authentication; connected implies authentication done or begun; that implies a hub client. |
| `Connection.RunIsSafe` | src/dx_azure_iot.c:278-309 | Every run keeps the invariant: no call on a NULL handle, nothing taken twice or given back twice. |
| `Connection.ReplayPairs` | src/dx_azure_iot.c:550-658 | In such a run every create and init is paired with one destroy and deinit, but for what is still held. |
| `Connection.SetUpWithDpsSafe` | src/dx_azure_iot.c:550-658 | Provisioning releases what it took on every path, success, failure and timeout. |
| `Connection.SetupClientSafe` | src/dx_azure_iot.c:415-457 | Setting up keeps the invariant for every connection type, and ends with a hub client exactly when it reports success. |
| `Connection.HubCallbacksSafe` | src/dx_azure_iot.c:664-693 | Any sequence of status callbacks during DoWork keeps the invariant. |
| `Connection.ProvisioningConnects` | src/dx_azure_iot.c:550-658 | When everything below cooperates, three rounds of the handler lead from disconnected to connected, and listeners are told. |
| `Connection.Run` | src/dx_azure_iot.c:278-309 | The code itself, driven by any sequence of timer events and interface calls with any answers from below, ends in a safe state. |
| `TickCounter.TickCounterCreate` | azure-iot-sdk-c/c-utility/adapters/tickcounter_win32.c:22-57 | A new counter has accumulated nothing and has no drift; without a performance counter it counts from the time. It fails exactly when the source it needs fails. |
| `TickCounter.TickCounterInstance.GetCurrentMs` | azure-iot-sdk-c/c-utility/adapters/tickcounter_win32.c:67-101 | The 64-bit arithmetic of one read, or the seconds since creation when there is no performance counter; a failed query changes nothing. |
| `TickCounter.ReadKeepsDrift` | azure-iot-sdk-c/c-utility/adapters/tickcounter_win32.c:92-97 | One read without overflow accounts for all elapsed ticks but a rounding below 10^6, and never takes time back. |
| `TickCounter.DriftBound` | azure-iot-sdk-c/c-utility/adapters/tickcounter_win32.c:92-97 | After n reads the drift 10^6*T - f*C is at least 0 and below f + n*10^6. |
| `TickCounter.NeverDecreases` | azure-iot-sdk-c/c-utility/adapters/tickcounter_win32.c:89-99 | The milliseconds reported never decrease. |
| `TickCounter.BoundedExactly` | azure-iot-sdk-c/c-utility/adapters/tickcounter_win32.c:92-97 | For every frequency: a read keeps that bound if and only if the 64-bit ranges lost by the scaled difference and by the accumulated time cancel, and the rounding is not negative. |
| `TickCounter.BoundedExactlyWithoutOverflow` | azure-iot-sdk-c/c-utility/adapters/tickcounter_win32.c:92 | For a frequency above a million, a read keeps that bound if and only if the scaled difference fits 64 bits. |
| `TickCounter.OverflowExample` | azure-iot-sdk-c/c-utility/adapters/tickcounter_win32.c:92 | At ten million ticks a second, 10^13 ticks between two reads break the bound. |
| `TickCounter.LowFrequencyCancels` | azure-iot-sdk-c/c-utility/adapters/tickcounter_win32.c:92-97 | Why that is not so for low frequencies: at one tick a second two overflows cancel. |
| `TickCounter.Run` | azure-iot-sdk-c/c-utility/adapters/tickcounter_win32.c:67-101 | What any run of reads reports: never ahead of the raw counter, behind by a bounded time, never decreasing. |

## Left out

- Failing allocation, custom allocators and reading or writing of files in parson; allocation always succeeds.
- Floating point: numbers are reals; printing and `strtod` are parameters. The tolerance of `json_value_equals` is
  compared exactly.
- RoundTrip.IntegerDocumentRoundTrip: printing and `strtod` are modelled for integers only (of `1.5` this `strtod` reads
  just the 1); for fractions and exponents they are parameters, see `DocumentRoundTrip`.
- DecimalNumbers.IntegersAreFaithful: is about these integer parts of printing and `strtod` only.
- The scratch buffer that both passes of serialization print numbers into, custom number serialization, and the `int`
  width of the byte counts: texts of 2^31 bytes and more are not described.
- The width of `unsigned long` hashes and of `unsigned int` counts; the hash function is left arbitrary.
- NestedObjects.ObjectNode.DotSetValue: an object's hash table is represented by its list of items, which `ObjectTable`
  proves to be the same; of parent pointers only whether a value has one is described, and arrays are values. Setting
  the parentless root inside itself, which the code accepts and which makes a cycle, is not described.
- Growth of JSON arrays, removal from and replacement in arrays, and the typed getters.
- Comments.RemoveComments: memory behind the terminating NUL is not described.
- SendQueue.Run: is about runs without a hard error in dowork; of a call with one `DrainDrops` speaks.
- Receiving, opening and closing of sockets, and failed queueing.
- Retries and sleeps as wall-clock time; a round of `xio_dowork` delivers one fragment of a given script.
- ChunkedReader.HttpConnection.ReadBody: bytes of the content that no read fills, for sizes of 2^31 and above, are shown
  as zero; the content buffer after a failure, trailers, and skipping of unwanted bodies are left out.
- Connection.AzureClient.AzurePublish: whether all properties could be set is one answer; the count of outstanding
  messages, logging, reason strings, user callbacks that call back into the module, and callbacks during destruction of
  a handle are left out.
- Connection strings and host names are compared with the empty one only.
- TickCounter.TickCounterInstance.GetCurrentMs: without a performance counter, times before the creation or 2^64
  milliseconds behind it are not described.
- Device twins, direct methods, timers, GPIO, and the adapters for TLS, threads and other HTTP stacks.
