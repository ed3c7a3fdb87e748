/** The reader of chunked HTTP/1.1 bodies, over a transport that delivers the byte stream in fragments. */
module ChunkedReader {
  import opened Bytes
  import opened DecimalNumbers
  import opened Wrappers

  const CR: byte := 0x0D
  const LF: byte := 0x0A
  const TEMP_BUFFER_SIZE := 1024
  const MAX_RECEIVE_RETRY := 200
  /** `size_t` has 64 bits, `int` has 32. */
  const SIZE_MODULUS := 0x1_0000_0000_0000_0000
  const INT_MODULUS := 0x1_0000_0000
  const INT_LIMIT := 0x8000_0000

  // ---------- the stream ----------

  /** The bytes in the receive buffer, and what each further round of `xio_dowork` delivers, which may be nothing;
      a round after the last one reports an error of the transport. */
  datatype Wire = Wire(received: bytes, script: seq<bytes>)

  function Concat(fragments: seq<bytes>): bytes {
    if fragments == [] then [] else fragments[0] + Concat(fragments[1..])
  }

  function Stream(w: Wire): bytes {
    w.received + Concat(w.script)
  }

  datatype Got = Got(data: bytes, left: Wire)

  /** `conn_receive` of a positive count: at least one round, until enough bytes are there. */
  function Received(w: Wire, count: nat): (r: Option<Got>)
    ensures r.Some? ==> |r.value.left.script| < |w.script| && |r.value.data| == count
    decreases |w.script|
  {
    if w.script == [] then None
    else
      var got := w.received + w.script[0];
      if count <= |got| then Some(Got(got[..count], Wire(got[count..], w.script[1..])))
      else Received(Wire(got, w.script[1..]), count)
  }

  function IndexOf(c: byte, s: bytes): (k: nat)
    ensures k <= |s|
    ensures c !in s[..k]
    ensures k < |s| ==> s[k] == c
  {
    if s == [] || s[0] == c then 0
    else
      var k := 1 + IndexOf(c, s[1..]);
      assert s[..k] == [s[0]] + s[1..][..k - 1];
      k
  }

  /** The bytes behind a line that ends at `k`: the LF goes with the CR only when it is already in the buffer. */
  function BehindLine(got: bytes, k: nat): bytes
    requires k < |got|
  {
    if k + 1 < |got| && got[k + 1] == LF then got[k + 2..] else got[k + 1..]
  }

  /** One round of `readLine` into a buffer of `size` bytes, with `line` already there. */
  datatype LineRound = NoLine | Line(got: Got) | Unfinished(line: bytes, left: Wire)

  function ReadRound(w: Wire, line: bytes, size: nat): (r: LineRound)
    ensures r.Line? ==> |r.got.left.script| < |w.script|
    ensures r.Unfinished? ==> |r.left.script| < |w.script|
  {
    if w.script == [] then NoLine
    else
      var got := w.received + w.script[0];
      var k := IndexOf(CR, got);
      if k > 0 && |line| + k >= size - 1 then NoLine
      else if k < |got| then Line(Got(line + got[..k], Wire(BehindLine(got, k), w.script[1..])))
      else Unfinished(line + got, Wire([], w.script[1..]))
  }

  /** `readLine`: the rounds, with a number of retries left. */
  function LineFrom(w: Wire, line: bytes, retries: nat, size: nat): (r: Option<Got>)
    ensures r.Some? ==> |r.value.left.script| < |w.script|
    decreases |w.script|
  {
    match ReadRound(w, line, size)
    case NoLine => None
    case Line(got) => Some(got)
    case Unfinished(more, left) => if retries == 0 then None else LineFrom(left, more, retries - 1, size)
  }

  /** `(int)size`. */
  function ToInt(size: nat): (n: int)
    ensures -INT_LIMIT <= n < INT_LIMIT && n <= size
    ensures size < INT_LIMIT ==> n == size
  {
    var m := size % INT_MODULUS;
    if m < INT_LIMIT then m else m - INT_MODULUS
  }

  /** `readChunk`. */
  function ChunkFrom(w: Wire, size: nat): (r: Option<Got>)
    ensures r.Some? ==> |r.value.left.script| <= |w.script| && |r.value.data| <= size
  {
    if ToInt(size) < 0 then None
    else if ToInt(size) == 0 then Some(Got([], w))
    else Received(w, ToInt(size))
  }

  // ---------- the size line ----------

  /** The value of a hexadecimal digit, or 16 for any other byte. */
  function HexDigit(c: byte): (d: nat)
    ensures d <= 16
  {
    if DigitValue(c) < 10 then DigitValue(c)
    else if c == 0x61 || c == 0x41 then 10 else if c == 0x62 || c == 0x42 then 11
    else if c == 0x63 || c == 0x43 then 12 else if c == 0x64 || c == 0x44 then 13
    else if c == 0x65 || c == 0x45 then 14 else if c == 0x66 || c == 0x46 then 15 else 16
  }

  /** The hexadecimal digits at the start of `s`, behind digits of value `value`, modulo the range of `size_t`. */
  function HexValue(s: bytes, value: nat): nat {
    if s == [] || HexDigit(s[0]) == 16 then value
    else HexValue(s[1..], (value * 0x10 + HexDigit(s[0])) % SIZE_MODULUS)
  }

  /** `ParseStringToHexadecimal`. */
  function ParseHex(s: bytes): Option<nat> {
    if s == [] || HexDigit(s[0]) == 16 then None else Some(HexValue(s, 0))
  }

  // ---------- the body ----------

  datatype HttpResult = HTTPAPI_OK | HTTPAPI_READ_DATA_FAILED | HTTPAPI_RECEIVE_RESPONSE_FAILED

  datatype Body = Body(content: bytes, left: Wire) | Failed(result: HttpResult)

  /** The content after `BUFFER_enlarge` by `size`; the bytes that no read fills are shown as zero. */
  function Enlarged(content: bytes, data: bytes, size: nat): bytes
    requires |data| <= size
  {
    content + data + seq(size - |data|, _ => 0)
  }

  function BodyFrom(w: Wire, content: bytes): Body
    decreases |w.script|
  {
    match LineFrom(w, [], MAX_RECEIVE_RETRY, TEMP_BUFFER_SIZE)
    case None => Failed(HTTPAPI_READ_DATA_FAILED)
    case Some(line) =>
      match ParseHex(CString(line.data))
      case None => Failed(HTTPAPI_RECEIVE_RESPONSE_FAILED)
      case Some(size) => BehindSize(line.left, content, size)
  }

  /** The rest of the body, behind a size line that announces `size` bytes. */
  function BehindSize(w: Wire, content: bytes, size: nat): Body
    decreases |w.script|
  {
    match (if size == 0 then Some(Got([], w)) else ChunkFrom(w, size))
    case None => Failed(HTTPAPI_READ_DATA_FAILED)
    case Some(chunk) =>
      match ChunkFrom(chunk.left, 2)
      case None => Failed(HTTPAPI_READ_DATA_FAILED)
      case Some(end) =>
        if end.data != [CR, LF] then Failed(HTTPAPI_READ_DATA_FAILED)
        else if size == 0 then Body(content, end.left)
        else BodyFrom(end.left, Enlarged(content, chunk.data, size))
  }

  /** What a reader of a C string sees of `s`. */
  function CString(s: bytes): bytes {
    s[..IndexOf(0, s)]
  }

  // ---------- what the reader promises ----------

  /** A chunk: the text of its size line, which may carry an extension, and its data. */
  datatype Chunk = Chunk(sizeLine: bytes, data: bytes)

  predicate SizeLine(line: bytes, size: nat) {
    CR !in line && |line| <= TEMP_BUFFER_SIZE - 2 && ParseHex(CString(line)) == Some(size)
  }

  predicate WellFormed(chunks: seq<Chunk>, last: bytes) {
    && SizeLine(last, 0)
    && forall c :: c in chunks ==> 0 < |c.data| < INT_LIMIT && SizeLine(c.sizeLine, |c.data|)
  }

  /** The chunked encoding of section 7.1 of RFC 9112, without trailers. */
  function Encode(chunks: seq<Chunk>, last: bytes): bytes {
    if chunks == [] then last + ([CR, LF] + [CR, LF])
    else chunks[0].sizeLine + ([CR, LF] + (chunks[0].data + ([CR, LF] + Encode(chunks[1..], last))))
  }

  function Contents(chunks: seq<Chunk>): bytes {
    if chunks == [] then [] else chunks[0].data + Contents(chunks[1..])
  }

  /** The sizes of the fragments still to come. */
  function Sizes(script: seq<bytes>): (sizes: seq<nat>)
    ensures |sizes| == |script|
  {
    if script == [] then [] else [|script[0]|] + Sizes(script[1..])
  }

  /** When `missing` more bytes are there, at the earliest after one round: how many more than that, and the sizes of
      the fragments that are then still to come. */
  datatype Arrival = Arrival(surplus: nat, left: seq<nat>)

  function Await(missing: int, sizes: seq<nat>): (r: Option<Arrival>)
    ensures r.Some? ==> |r.value.left| < |sizes|
  {
    if sizes == [] then None
    else if missing <= sizes[0] then Some(Arrival(sizes[0] - missing, sizes[1..]))
    else Await(missing - sizes[0], sizes[1..])
  }

  /** With `buffered` bytes in the receive buffer: every part of the encoding arrives before the transport fails,
      every size line within the retries of `readLine`, and no buffer ends between the CR and the LF of a size line
      when the line is read.  This depends on the sizes of the fragments alone. */
  predicate Arrives(buffered: nat, sizes: seq<nat>, chunks: seq<Chunk>, last: bytes)
    decreases |chunks|
  {
    match Await(|FirstLine(chunks, last)| + 1 - buffered, sizes)
    case None => false
    case Some(line) =>
      && |sizes| - |line.left| <= MAX_RECEIVE_RETRY + 1
      && line.surplus > 0
      && if chunks == [] then Await(2 - (line.surplus - 1), line.left).Some?
         else
           match Await(|chunks[0].data| - (line.surplus - 1), line.left)
           case None => false
           case Some(data) =>
             match Await(2 - data.surplus, data.left)
             case None => false
             case Some(end) => Arrives(end.surplus, end.left, chunks[1..], last)
  }

  function FirstLine(chunks: seq<Chunk>, last: bytes): bytes {
    if chunks == [] then last else chunks[0].sizeLine
  }

  lemma {:induction false} ReceivedIsPrefix(w: Wire, n: nat)
    requires 0 < n <= |Stream(w)|
    ensures match Await(n - |w.received|, Sizes(w.script))
            case None => Received(w, n) == None
            case Some(a) =>
              && Received(w, n).Some?
              && var got := Received(w, n).value;
              && got.data == Stream(w)[..n] && Stream(got.left) == Stream(w)[n..]
              && |got.left.received| == a.surplus && Sizes(got.left.script) == a.left
    decreases |w.script|
  {
    if w.script != [] {
      var got := w.received + w.script[0];
      var next := Wire(got, w.script[1..]);
      assert Stream(w) == Stream(next);
      if n <= |got| {
        CutStream(got, Concat(next.script), n);
      } else {
        ReceivedIsPrefix(next, n);
      }
    }
  }

  lemma CutStream(got: bytes, rest: bytes, n: nat)
    requires n <= |got|
    ensures (got + rest)[..n] == got[..n] && (got + rest)[n..] == got[n..] + rest
  {
  }

  lemma {:induction false} LineIsRead(w: Wire, done: bytes, line: bytes, tail: bytes, retries: nat)
    requires Stream(w) == line + ([CR, LF] + tail)
    requires CR !in line && |done| + |line| <= TEMP_BUFFER_SIZE - 2
    ensures var r := LineFrom(w, done, retries, TEMP_BUFFER_SIZE);
            match Await(|line| + 1 - |w.received|, Sizes(w.script))
            case None => r == None
            case Some(a) =>
              && (r.Some? <==> |w.script| - |a.left| <= retries + 1)
              && (r.Some? ==>
                    && r.value.data == done + line
                    && Sizes(r.value.left.script) == a.left
                    && (a.surplus > 0 ==> |r.value.left.received| == a.surplus - 1 && Stream(r.value.left) == tail)
                    && (a.surplus == 0 ==> r.value.left.received == [] && Stream(r.value.left) == [LF] + tail))
    decreases |w.script|
  {
    if w.script != [] {
      var got, later := w.received + w.script[0], Concat(w.script[1..]);
      assert got + later == line + ([CR, LF] + tail);
      LineInFragment(got, later, line, tail);
      if |got| <= |line| {
        var left, more := Wire([], w.script[1..]), line[|got|..];
        assert Stream(left) == later;
        assert done + got + more == done + line;
        assert IndexOf(CR, got) == |got| ==> ReadRound(w, done, TEMP_BUFFER_SIZE) == Unfinished(done + got, left);
        if retries > 0 {
          LineIsRead(left, done + got, more, tail, retries - 1);
        }
      }
    }
  }

  lemma LineInFragment(got: bytes, later: bytes, line: bytes, tail: bytes)
    requires got + later == line + ([CR, LF] + tail) && CR !in line
    ensures |got| <= |line| ==>
              && IndexOf(CR, got) == |got|
              && line == got + line[|got|..]
              && later == line[|got|..] + ([CR, LF] + tail)
    ensures |got| > |line| ==>
              && IndexOf(CR, got) == |line| && got[..|line|] == line
              && (|got| > |line| + 1 ==>
                  && BehindLine(got, |line|) + later == tail
                  && |BehindLine(got, |line|)| == |got| - |line| - 2)
              && (|got| == |line| + 1 ==> BehindLine(got, |line|) == [] && later == [LF] + tail)
  {
    hide IndexOf;
    if |got| <= |line| {
      SameSplit(got, later, line, [CR, LF] + tail);
      assert CR !in got;
      IndexFrom(CR, got, |got|);
    } else {
      SameSplit(line, [CR, LF] + tail, got, later);
      var end := got[|line|..];
      assert end[0] == ([CR, LF] + tail)[0] == got[|line|];
      IndexFrom(CR, got, |line|);
      if |end| > 1 {
        SameSplit([CR, LF], tail, end, later);
        assert got[|line| + 1] == end[1] == LF && end[2..] == got[|line| + 2..];
      } else {
        SameSplit(end, later, [CR], [LF] + tail);
      }
    }
  }

  /** Two ways to cut a text, the first cut not behind the second. */
  lemma SameSplit(a: bytes, b: bytes, c: bytes, d: bytes)
    requires a + b == c + d && |a| <= |c|
    ensures c[..|a|] == a && b == c[|a|..] + d && c == a + c[|a|..]
  {
    assert a == (a + b)[..|a|] == c[..|a|];
    assert b == (a + b)[|a|..] == c[|a|..] + d;
  }

  /** The stream behind the CR LF of the first size line. */
  function BehindFirstLine(chunks: seq<Chunk>, last: bytes, rest: bytes): bytes {
    if chunks == [] then [CR, LF] + rest
    else chunks[0].data + ([CR, LF] + (Encode(chunks[1..], last) + rest))
  }

  lemma EncodeFirst(chunks: seq<Chunk>, last: bytes, rest: bytes)
    ensures Encode(chunks, last) + rest == FirstLine(chunks, last) + ([CR, LF] + BehindFirstLine(chunks, last, rest))
  {
    if chunks == [] {
      assert (last + ([CR, LF] + [CR, LF])) + rest == last + ([CR, LF] + ([CR, LF] + rest));
    } else {
      var later := Encode(chunks[1..], last);
      Regroup(chunks[0].sizeLine, [CR, LF] + (chunks[0].data + ([CR, LF] + later)), rest,
              ([CR, LF] + (chunks[0].data + ([CR, LF] + later))) + rest);
      Regroup([CR, LF], chunks[0].data + ([CR, LF] + later), rest, (chunks[0].data + ([CR, LF] + later)) + rest);
      Regroup(chunks[0].data, [CR, LF] + later, rest, ([CR, LF] + later) + rest);
      Regroup([CR, LF], later, rest, later + rest);
    }
  }

  /** An LF left in front of the data shifts every later byte: the check behind the chunk fails. */
  lemma DividedLineFails(w: Wire, content: bytes, data: bytes, rest: bytes)
    requires Stream(w) == [LF] + (data + ([CR, LF] + rest)) && |data| < INT_LIMIT
    ensures BehindSize(w, content, |data|) == Failed(HTTPAPI_READ_DATA_FAILED)
  {
    hide BodyFrom;
    var n, stream := |data|, Stream(w);
    assert stream[n + 1] == CR;
    if n > 0 {
      ReceivedIsPrefix(w, n);
    }
    if n == 0 || Received(w, n).Some? {
      var left := if n == 0 then w else Received(w, n).value.left;
      assert Stream(left) == stream[n..];
      ReceivedIsPrefix(left, 2);
      assert Stream(left)[1] == CR;
    }
  }

  lemma ChunkIsRead(w: Wire, content: bytes, data: bytes, later: bytes) returns (next: Wire)
    requires Stream(w) == data + ([CR, LF] + later) && 0 < |data| < INT_LIMIT
    ensures var a := Await(|data| - |w.received|, Sizes(w.script));
            var end := if a.Some? then Await(2 - a.value.surplus, a.value.left) else None;
            if end.Some? then
              && BehindSize(w, content, |data|) == BodyFrom(next, content + data)
              && Stream(next) == later
              && |next.received| == end.value.surplus && Sizes(next.script) == end.value.left
            else BehindSize(w, content, |data|) == Failed(HTTPAPI_READ_DATA_FAILED)
  {
    hide BodyFrom, Received, Await, Sizes, Stream;
    next := w;
    ReceivedIsPrefix(w, |data|);
    if Received(w, |data|).Some? {
      var behind := Received(w, |data|).value.left;
      CutStream(data, [CR, LF] + later, |data|);
      ReceivedIsPrefix(behind, 2);
      if Received(behind, 2).Some? {
        next := Received(behind, 2).value.left;
        CutStream([CR, LF], later, 2);
        assert Received(w, |data|).value.data == data;
        assert Enlarged(content, data, |data|) == content + data;
      }
    }
  }

  lemma EndIsRead(w: Wire, content: bytes, rest: bytes)
    requires Stream(w) == [CR, LF] + rest
    ensures var body := BehindSize(w, content, 0);
            if Await(2 - |w.received|, Sizes(w.script)).Some?
            then body.Body? && body.content == content && Stream(body.left) == rest
            else body == Failed(HTTPAPI_READ_DATA_FAILED)
  {
    hide BodyFrom, Received, Await, Sizes, Stream;
    ReceivedIsPrefix(w, 2);
    CutStream([CR, LF], rest, 2);
  }

  /** Whatever the fragmentation, the reader decodes what was encoded, and takes exactly the encoded bytes off the
      stream, if and only if the fragments arrive as `Arrives` says; otherwise it reports that it could not read the
      data, and never delivers a wrong body. */
  lemma {:induction false} BodyIsRead(w: Wire, content: bytes, chunks: seq<Chunk>, last: bytes, rest: bytes)
    requires WellFormed(chunks, last) && Stream(w) == Encode(chunks, last) + rest
    ensures var body := BodyFrom(w, content);
            if Arrives(|w.received|, Sizes(w.script), chunks, last)
            then body.Body? && body.content == content + Contents(chunks) && Stream(body.left) == rest
            else body == Failed(HTTPAPI_READ_DATA_FAILED)
    decreases |chunks|
  {
    hide LineFrom, BehindSize, Await, Sizes, Stream, ParseHex, CString, Encode;
    var line, tail := FirstLine(chunks, last), BehindFirstLine(chunks, last, rest);
    EncodeFirst(chunks, last, rest);
    LineIsRead(w, [], line, tail, MAX_RECEIVE_RETRY);
    EmptyParts(line);
    var got := LineFrom(w, [], MAX_RECEIVE_RETRY, TEMP_BUFFER_SIZE);
    if got.Some? {
      var left := got.value.left;
      var data, later := if chunks == [] then [] else chunks[0].data, if chunks == [] then rest
          else Encode(chunks[1..], last) + rest;
      EmptyParts(tail);
      assert tail == data + ([CR, LF] + later);
      assert BodyFrom(w, content) == BehindSize(left, content, |data|);
      if Await(|line| + 1 - |w.received|, Sizes(w.script)).value.surplus == 0 {
        DividedLineFails(left, content, data, later);
      } else if chunks == [] {
        EndIsRead(left, content, rest);
        EmptyParts(content);
      } else {
        var next := ChunkIsRead(left, content, data, later);
        if BehindSize(left, content, |data|) == BodyFrom(next, content + data) && Stream(next) == later {
          BodyIsRead(next, content + data, chunks[1..], last, rest);
          Regroup(content, data, Contents(chunks[1..]), Contents(chunks));
        }
      }
    }
  }

  // ---------- when the fragments arrive well ----------

  function Sum(sizes: seq<nat>): nat {
    if sizes == [] then 0 else sizes[0] + Sum(sizes[1..])
  }

  /** A delivered fragment ends after `offset` bytes of the stream. */
  ghost predicate Boundary(buffered: nat, sizes: seq<nat>, offset: int) {
    exists k :: 0 < k <= |sizes| && buffered + Sum(sizes[..k]) == offset
  }

  /** No fragment ends between the CR and the LF of a size line of the encoding that starts `start` bytes into the
      stream. */
  ghost predicate Undivided(buffered: nat, sizes: seq<nat>, start: nat, chunks: seq<Chunk>, last: bytes)
    decreases |chunks|
  {
    && !Boundary(buffered, sizes, start + |FirstLine(chunks, last)| + 1)
    && (chunks != [] ==>
          Undivided(buffered, sizes, start + |chunks[0].sizeLine| + 2 + |chunks[0].data| + 2, chunks[1..], last))
  }

  /** `Arrives`, without its condition on the CR LF of a size line. */
  predicate InTime(buffered: int, sizes: seq<nat>, chunks: seq<Chunk>, last: bytes)
    decreases |chunks|
  {
    match Await(|FirstLine(chunks, last)| + 1 - buffered, sizes)
    case None => false
    case Some(line) =>
      && |sizes| - |line.left| <= MAX_RECEIVE_RETRY + 1
      && if chunks == [] then Await(2 - (line.surplus - 1), line.left).Some?
         else
           match Await(|chunks[0].data| - (line.surplus - 1), line.left)
           case None => false
           case Some(data) =>
             match Await(2 - data.surplus, data.left)
             case None => false
             case Some(end) => InTime(end.surplus, end.left, chunks[1..], last)
  }

  lemma SumPrefix(sizes: seq<nat>, k: nat)
    requires k < |sizes|
    ensures Sum(sizes[..k + 1]) == Sum(sizes[..k]) + sizes[k]
  {
    if k > 0 {
      SumPrefix(sizes[1..], k - 1);
      assert sizes[1..][..k] == sizes[..k + 1][1..] && sizes[1..][..k - 1] == sizes[..k][1..];
    }
  }

  /** Waiting moves along the fragments of the whole stream: `k` of them are delivered, and `missing` bytes from
      there is `offset`. */
  lemma {:induction false} AwaitMoves(buffered: nat, all: seq<nat>, k: nat, missing: int, offset: int) returns (n: nat)
    requires k <= |all| && offset == buffered + Sum(all[..k]) + missing
    requires Await(missing, all[k..]).Some?
    ensures var a := Await(missing, all[k..]).value;
            && k < n <= |all| && a.left == all[n..]
            && buffered + Sum(all[..n]) == offset + a.surplus
    decreases |all| - k
  {
    SumPrefix(all, k);
    assert all[k..][1..] == all[k + 1..];
    if missing <= all[k] {
      n := k + 1;
    } else {
      n := AwaitMoves(buffered, all, k + 1, missing - all[k], offset);
    }
  }

  lemma {:induction false} UndividedArrives(buffered: nat, all: seq<nat>, k: nat, here: nat, start: nat,
      chunks: seq<Chunk>, last: bytes)
    requires k <= |all| && buffered + Sum(all[..k]) == start + here
    requires InTime(here, all[k..], chunks, last) && Undivided(buffered, all, start, chunks, last)
    ensures Arrives(here, all[k..], chunks, last)
    decreases |chunks|
  {
    hide Await, Sum;
    var line := FirstLine(chunks, last);
    var a := Await(|line| + 1 - here, all[k..]).value;
    var n := AwaitMoves(buffered, all, k, |line| + 1 - here, start + |line| + 1);
    if chunks != [] {
      var size := |chunks[0].data|;
      var b := Await(size - (a.surplus - 1), a.left).value;
      var m := AwaitMoves(buffered, all, n, size - (a.surplus - 1), start + |line| + 2 + size);
      var c := Await(2 - b.surplus, b.left).value;
      var l := AwaitMoves(buffered, all, m, 2 - b.surplus, start + |line| + 2 + size + 2);
      UndividedArrives(buffered, all, l, c.surplus, start + |line| + 2 + size + 2, chunks[1..], last);
    }
  }

  /** Decoding undoes encoding for every fragmentation that arrives in time and ends no fragment between the CR and
      the LF of a size line. */
  lemma ChunkedRoundTrip(w: Wire, chunks: seq<Chunk>, last: bytes, rest: bytes)
    requires WellFormed(chunks, last) && Stream(w) == Encode(chunks, last) + rest
    requires InTime(|w.received|, Sizes(w.script), chunks, last)
    requires Undivided(|w.received|, Sizes(w.script), 0, chunks, last)
    ensures var body := BodyFrom(w, []);
            body.Body? && body.content == Contents(chunks) && Stream(body.left) == rest
  {
    hide BodyFrom, Arrives, InTime, Undivided;
    var sizes := Sizes(w.script);
    assert sizes[0..] == sizes && sizes[..0] == [];
    UndividedArrives(|w.received|, sizes, 0, |w.received|, 0, chunks, last);
    BodyIsRead(w, [], chunks, last, rest);
    EmptyParts(Contents(chunks));
  }

  function Idle(rounds: nat): seq<bytes> {
    seq(rounds, _ => [])
  }

  lemma {:induction false} IdleDeliversNothing(rounds: nat)
    ensures Concat(Idle(rounds)) == []
  {
    if rounds > 0 {
      assert Idle(rounds)[1..] == Idle(rounds - 1);
      IdleDeliversNothing(rounds - 1);
    }
  }

  lemma ConcatTwo(a: bytes, b: bytes, rounds: nat)
    ensures Concat([a, b] + Idle(rounds)) == a + b
    ensures |Sizes([a, b] + Idle(rounds))| == rounds + 2
    ensures Sizes([a, b] + Idle(rounds))[0] == |a| && Sizes([a, b] + Idle(rounds))[1] == |b|
  {
    var script := [a, b] + Idle(rounds);
    assert script[1..] == [b] + Idle(rounds) && script[1..][1..] == Idle(rounds);
    IdleDeliversNothing(rounds);
    EmptyParts(b);
  }

  /** The reader does lose a body whose first size line is cut behind its CR: here the body "x", whose first fragment
      is "1" CR. */
  lemma DividedExample()
    ensures var chunks, last := [Chunk([0x31], [0x78])], [0x30];
            var encoded := Encode(chunks, last);
            && WellFormed(chunks, last)
            && BodyFrom(Wire([], [encoded[..2], encoded[2..]] + Idle(9)), []) == Failed(HTTPAPI_READ_DATA_FAILED)
            && BodyFrom(Wire([], [encoded, []] + Idle(9)), []).Body?
  {
    hide BodyFrom, Sizes, Idle, Concat;
    var chunks, last := [Chunk([0x31], [0x78])], [0x30];
    var encoded := Encode(chunks, last);
    assert CString([0x31]) == [0x31] && CString([0x30]) == [0x30];
    assert HexValue([0x31], 0) == 1 && HexValue([0x30], 0) == 0;
    ConcatTwo(encoded[..2], encoded[2..], 9);
    ConcatTwo(encoded, [], 9);
    EmptyParts(encoded);
    assert encoded[..2] + encoded[2..] == encoded;
    EmptyParts(Concat([encoded[..2], encoded[2..]] + Idle(9)));
    EmptyParts(Concat([encoded, []] + Idle(9)));
    BodyIsRead(Wire([], [encoded[..2], encoded[2..]] + Idle(9)), [], chunks, last, []);
    BodyIsRead(Wire([], [encoded, []] + Idle(9)), [], chunks, last, []);
    DeliveredArrives(0, Sizes([encoded, []] + Idle(9)), chunks, last);
  }

  /** When everything is there after one round, two further rounds for each chunk's data and one more for each line
      suffice. */
  lemma {:induction false} DeliveredArrives(buffered: nat, sizes: seq<nat>, chunks: seq<Chunk>, last: bytes)
    requires sizes != [] && buffered + sizes[0] >= |Encode(chunks, last)|
    requires |sizes| >= 3 * |chunks| + 2
    ensures Arrives(buffered, sizes, chunks, last)
    decreases |chunks|
  {
    if chunks != [] {
      var line, size := |chunks[0].sizeLine|, |chunks[0].data|;
      assert |Encode(chunks, last)| == line + 2 + size + 2 + |Encode(chunks[1..], last)|;
      var afterLine := buffered + sizes[0] - (line + 2);
      var afterData := afterLine + sizes[1] - size;
      var afterEnd := afterData + sizes[2] - 2;
      assert sizes[1..][1..] == sizes[2..] && sizes[2..][1..] == sizes[3..];
      assert Await(line + 1 - buffered, sizes) == Some(Arrival(afterLine + 1, sizes[1..]));
      assert Await(size - afterLine, sizes[1..]) == Some(Arrival(afterData, sizes[2..]));
      assert Await(2 - afterData, sizes[2..]) == Some(Arrival(afterEnd, sizes[3..]));
      DeliveredArrives(afterEnd, sizes[3..], chunks[1..], last);
    }
  }

  /** The digits of a chunk size, as a sender writes them. */
  function HexByte(d: nat): byte
    requires d < 16
  {
    if d < 10 then DigitByte(d) else if d == 10 then 0x61 else if d == 11 then 0x62 else if d == 12 then 0x63
    else if d == 13 then 0x64 else if d == 14 then 0x65 else 0x66
  }

  function HexDigits(n: nat): (s: bytes)
    ensures s != []
  {
    if n < 16 then [HexByte(n)] else HexDigits(n / 16) + [HexByte(n % 16)]
  }

  lemma HexInverse(d: nat)
    requires d < 16
    ensures HexDigit(HexByte(d)) == d && HexByte(d) != 0 && HexByte(d) != CR
  {
  }

  lemma {:induction false} HexValueConcat(s: bytes, t: bytes, value: nat)
    requires forall c :: c in s ==> HexDigit(c) < 16
    ensures HexValue(s + t, value) == HexValue(t, HexValue(s, value))
  {
    if s == [] {
      assert s + t == t;
    } else {
      assert (s + t)[1..] == s[1..] + t;
      HexValueConcat(s[1..], t, (value * 0x10 + HexDigit(s[0])) % SIZE_MODULUS);
    }
  }

  lemma {:induction false} HexDigitsValue(n: nat)
    requires n < SIZE_MODULUS
    ensures forall c :: c in HexDigits(n) ==> HexDigit(c) < 16 && c != 0 && c != CR
    ensures HexValue(HexDigits(n), 0) == n
  {
    hide HexDigit, HexByte, HexValue;
    HexInverse(n % 16);
    if n < 16 {
      LastDigit(HexByte(n), 0);
    } else {
      HexDigitsValue(n / 16);
      HexValueConcat(HexDigits(n / 16), [HexByte(n % 16)], 0);
      LastDigit(HexByte(n % 16), n / 16);
    }
  }

  lemma LastDigit(c: byte, value: nat)
    requires HexDigit(c) < 16
    ensures HexValue([c], value) == (value * 0x10 + HexDigit(c)) % SIZE_MODULUS
  {
    hide HexDigit;
    assert [c][1..] == [];
  }

  /** A size written in hexadecimal digits, with any extension behind it, is read back. */
  lemma SizeRoundTrip(n: nat, extension: bytes)
    requires n < SIZE_MODULUS && (extension == [] || HexDigit(extension[0]) == 16)
    requires CR !in extension && 0 !in extension && |HexDigits(n)| + |extension| <= TEMP_BUFFER_SIZE - 2
    ensures SizeLine(HexDigits(n) + extension, n)
  {
    hide HexDigit, HexByte, HexDigits;
    var digits := HexDigits(n);
    var line := digits + extension;
    HexDigitsValue(n);
    HexValueConcat(digits, extension, 0);
    assert line[..|line|] == line && line[0] == digits[0];
    assert 0 !in digits && 0 !in line;
    IndexFrom(0, line, |line|);
  }

  /** `c` is a hexadecimal digit of value `d`, in either case. */
  predicate SpellsDigit(c: byte, d: nat) {
    || (d < 10 && c as int == 0x30 + d)
    || (10 <= d < 16 && (c as int == 0x41 + (d - 10) || c as int == 0x61 + (d - 10)))
  }

  predicate SpellsDigits(s: bytes, digits: seq<nat>) {
    |s| == |digits| && forall i :: 0 <= i < |s| ==> SpellsDigit(s[i], digits[i])
  }

  predicate NoDigitFirst(s: bytes) {
    s == [] || !(0x30 <= s[0] <= 0x39 || 0x41 <= s[0] <= 0x46 || 0x61 <= s[0] <= 0x66)
  }

  /** The number that hexadecimal digits stand for. */
  function Hexadecimal(digits: seq<nat>): nat {
    if digits == [] then 0 else 16 * Hexadecimal(digits[..|digits| - 1]) + digits[|digits| - 1]
  }

  lemma DigitIsSpelled(c: byte, d: nat)
    requires SpellsDigit(c, d)
    ensures HexDigit(c) == d < 16
  {
  }

  lemma NoDigitStops(s: bytes, value: nat)
    requires NoDigitFirst(s)
    ensures (s == [] || HexDigit(s[0]) == 16) && HexValue(s, value) == value
  {
  }

  lemma {:induction false} DigitsAreValued(s: bytes, digits: seq<nat>)
    requires SpellsDigits(s, digits)
    ensures forall c :: c in s ==> HexDigit(c) < 16
    ensures HexValue(s, 0) == Hexadecimal(digits) % SIZE_MODULUS
    decreases |s|
  {
    hide HexDigit, HexValue, SpellsDigit;
    if s != [] {
      var last := |s| - 1;
      var front, c, d := s[..last], s[last], digits[last];
      DigitsAreValued(front, digits[..last]);
      DigitIsSpelled(c, d);
      assert front + [c] == s;
      HexValueConcat(front, [c], 0);
      LastDigit(c, HexValue(front, 0));
      NextDigit(Hexadecimal(digits[..last]), d);
    } else {
      NoDigitStops(s, 0);
    }
  }

  lemma NextDigit(value: nat, d: nat)
    ensures ((value % SIZE_MODULUS) * 0x10 + d) % SIZE_MODULUS == (16 * value + d) % SIZE_MODULUS
  {
    var q, r := value / SIZE_MODULUS, value % SIZE_MODULUS;
    assert 16 * value + d == SIZE_MODULUS * (16 * q) + (16 * r + d);
    WholeRanges(16 * r + d, 16 * q);
  }

  lemma WholeRanges(x: nat, k: nat)
    ensures (SIZE_MODULUS * k + x) % SIZE_MODULUS == x % SIZE_MODULUS
  {
    var q, r := x / SIZE_MODULUS, x % SIZE_MODULUS;
    assert SIZE_MODULUS * k + x == SIZE_MODULUS * (k + q) + r;
  }

  /** Every text: the hexadecimal digits at its start, in either case, are the size, modulo the range of `size_t`; a
      text without any is refused. */
  lemma SizeExactly(s: bytes, digits: seq<nat>, rest: bytes)
    requires SpellsDigits(s, digits) && NoDigitFirst(rest)
    ensures ParseHex(s + rest) == if digits == [] then None else Some(Hexadecimal(digits) % SIZE_MODULUS)
  {
    hide HexDigit, HexValue, SpellsDigit;
    DigitsAreValued(s, digits);
    HexValueConcat(s, rest, 0);
    NoDigitStops(rest, HexValue(s, 0));
    if s == [] {
      assert s + rest == rest;
    } else {
      assert (s + rest)[0] == s[0] && s[0] in s;
    }
  }

  /** A line that does not fit the buffer is not read, however it is fragmented. */
  lemma {:induction false} LongLineFails(w: Wire, done: bytes, line: bytes, rest: bytes, retries: nat)
    requires Stream(w) == line + rest && CR !in line && line != [] && |done| + |line| >= TEMP_BUFFER_SIZE - 1
    ensures LineFrom(w, done, retries, TEMP_BUFFER_SIZE) == None
    decreases |w.script|
  {
    if w.script != [] {
      var got, later := w.received + w.script[0], Concat(w.script[1..]);
      assert got + later == line + rest;
      if |got| < |line| {
        SameSplit(got, later, line, rest);
        IndexFrom(CR, got, |got|);
        if retries > 0 && !ReadRound(w, done, TEMP_BUFFER_SIZE).NoLine? {
          assert Stream(Wire([], w.script[1..])) == later;
          LongLineFails(Wire([], w.script[1..]), done + got, line[|got|..], rest, retries - 1);
        }
      } else {
        SameSplit(line, rest, got, later);
        NotBefore(CR, got, |line|);
      }
    }
  }

  lemma {:induction false} NotBefore(c: byte, s: bytes, k: nat)
    requires k <= |s| && c !in s[..k]
    ensures IndexOf(c, s) >= k
  {
    if k > 0 {
      assert s[0] == s[..k][0];
      assert s[1..][..k - 1] == s[..k][1..];
      NotBefore(c, s[1..], k - 1);
    }
  }

  /** A first line that starts with no digit is no size: once it has arrived the reader reports that, and until then
      that the data could not be read. */
  lemma NoSizeFails(w: Wire, content: bytes, line: bytes, tail: bytes)
    requires Stream(w) == line + ([CR, LF] + tail) && CR !in line && |line| <= TEMP_BUFFER_SIZE - 2
    requires NoDigitFirst(line)
    ensures var arrival := Await(|line| + 1 - |w.received|, Sizes(w.script));
            BodyFrom(w, content) ==
            Failed(if arrival.Some? && |w.script| - |arrival.value.left| <= MAX_RECEIVE_RETRY + 1
                   then HTTPAPI_RECEIVE_RESPONSE_FAILED else HTTPAPI_READ_DATA_FAILED)
  {
    hide LineFrom, BehindSize, Await, Stream, HexDigit, HexValue;
    LineIsRead(w, [], line, tail, MAX_RECEIVE_RETRY);
    EmptyParts(line);
    NoDigitStops(CString(line), 0);
  }

  // ---------- the code ----------

  /** The connection: its receive buffer, and the transport below it. */
  class HttpConnection {
    var received: bytes
    var isIoError: bool
    var script: seq<bytes>

    ghost function View(): Wire
      reads this
    {
      Wire(received, if isIoError then [] else script)
    }

    constructor (script: seq<bytes>)
      ensures View() == Wire([], script)
    {
      received, isIoError, this.script := [], false, script;
    }

    /** `on_bytes_received`. */
    method OnBytesReceived(buffer: bytes)
      modifies this`received
      ensures received == old(received) + buffer
    {
      received := received + buffer;
    }

    /** `xio_dowork`: the transport delivers its next fragment, or reports an error. */
    method DoWork()
      modifies this
      ensures old(View().script) == [] ==> isIoError
      ensures old(View().script) != [] ==>
                && !isIoError
                && received == old(received) + old(script)[0]
                && script == old(script)[1..]
    {
      if script == [] {
        isIoError := true;
      } else {
        OnBytesReceived(script[0]);
        script := script[1..];
      }
    }

    /** `conn_receive`. */
    method Receive(count: int) returns (result: int, buffer: bytes)
      modifies this
      ensures count < 0 ==> result == -1 && View() == old(View())
      ensures count == 0 ==> result == 0 && buffer == [] && View() == old(View())
      ensures count > 0 ==>
                match Received(old(View()), count)
                case None => result == -1
                case Some(got) => result == count && buffer == got.data && View() == got.left
    {
      buffer := [];
      if count < 0 {
        return -1, [];
      }
      result := 0;
      while result < count
        invariant result == 0 && buffer == []
        invariant count > 0 ==> Received(View(), count) == Received(old(View()), count)
        invariant count == 0 ==> View() == old(View())
        decreases |View().script|
      {
        DoWork();
        if isIoError {
          return -1, [];
        }
        if |received| >= count {
          buffer := received[..count];
          received := received[count..];
          return count, buffer;
        }
      }
    }

    /** The inner loop of `readLine`: bytes move from the receive buffer to `buf`, up to a CR. */
    method CopyLine(buf: array<byte>, start: nat) returns (dest: nat, ended: bool, size: int)
      requires start < buf.Length
      modifies this`received, buf
      ensures var k := IndexOf(CR, old(received));
              if k > 0 && start + k >= buf.Length - 1 then ended && size == -1
              else
                && dest == start + k < buf.Length
                && buf[..dest] == old(buf[..start]) + old(received)[..k]
                && (if k == |old(received)| then !ended && size == -1 && received == []
                    else ended && size == dest && buf[dest] == 0 && received == BehindLine(old(received), k))
    {
      dest, ended, size := start, false, -1;
      var at := 0;
      while at < |received|
        invariant at <= |received| && received == old(received)
        invariant CR !in received[..at]
        invariant dest == start + at && (at > 0 ==> dest < buf.Length - 1)
        invariant buf[..dest] == old(buf[..start]) + received[..at]
        invariant !ended && size == -1
      {
        if received[at] != CR {
          buf[dest] := received[at];
          dest, at := dest + 1, at + 1;
          if dest >= buf.Length - 1 {
            IndexFrom(CR, received, at);
            received := [];
            return dest, true, -1;
          }
        } else {
          IndexFrom(CR, received, at);
          at := at + 1;
          if at < |received| && received[at] == LF {
            at := at + 1;
          }
          buf[dest] := 0;
          received := received[at..];
          return dest, true, dest;
        }
      }
      IndexFrom(CR, received, at);
      received := [];
    }

    /** One round of the outer loop of `readLine`. */
    method FetchLine(buf: array<byte>, start: nat) returns (dest: nat, ended: bool, size: int)
      requires start < buf.Length
      modifies this, buf
      ensures match ReadRound(old(View()), old(buf[..start]), buf.Length)
              case NoLine => ended && size == -1
              case Line(got) => ended && 0 <= size < buf.Length && buf[..size] == got.data && buf[size] == 0 &&
                  View() == got.left
              case Unfinished(more, left) =>
                  && !ended && size == -1 && dest < buf.Length && buf[..dest] == more
                  && View() == left
    {
      DoWork();
      if isIoError {
        return start, true, -1;
      }
      ghost var got := received;
      assert got[..|got|] == got;
      dest, ended, size := CopyLine(buf, start);
    }

    /** `readLine`. */
    method ReadLine(buf: array<byte>) returns (size: int)
      modifies this, buf
      ensures buf.Length == 0 ==> size == -1 && View() == old(View())
      ensures buf.Length > 0 ==>
                match LineFrom(old(View()), [], MAX_RECEIVE_RETRY, buf.Length)
                case None => size == -1
                case Some(line) =>
                    && 0 <= size < buf.Length && buf[..size] == line.data && buf[size] == 0
                    && View() == line.left
    {
      hide ReadRound, View;
      size := -1;
      if buf.Length == 0 {
        return;
      }
      var dest: nat, countRetry, endOfSearch := 0, MAX_RECEIVE_RETRY, false;
      ghost var all := LineFrom(View(), [], MAX_RECEIVE_RETRY, buf.Length);
      while !endOfSearch
        invariant 0 <= countRetry
        invariant !endOfSearch ==>
            && dest < buf.Length && size == -1
            && all == LineFrom(View(), buf[..dest], countRetry, buf.Length)
        invariant endOfSearch ==>
                    match all
                    case None => size == -1
                    case Some(line) =>
                        && 0 <= size < buf.Length && buf[..size] == line.data && buf[size] == 0
                        && View() == line.left
        decreases !endOfSearch, countRetry
      {
        dest, endOfSearch, size := FetchLine(buf, dest);
        if !endOfSearch {
          if countRetry > 0 {
            countRetry := countRetry - 1;
          } else {
            endOfSearch := true;
          }
        }
      }
    }

    /** `readChunk`. */
    method ReadChunk(size: nat) returns (offset: int, buffer: bytes)
      modifies this
      ensures match ChunkFrom(old(View()), size)
              case None => offset < 0
              case Some(got) => offset == |got.data| && buffer == got.data && View() == got.left
    {
      var left := size;
      offset, buffer := 0, [];
      while left > 0
        invariant left == size ==> offset == 0 && buffer == [] && View() == old(View())
        invariant left != size ==>
                    && left % INT_MODULUS == 0
                    && ChunkFrom(old(View()), size) == Some(Got(buffer, View()))
                    && offset == |buffer|
        invariant left <= size
        decreases left
      {
        var cur, data := Receive(ToInt(left));
        assert left != size ==> ToInt(left) == 0;
        assert data == [] + data;
        if cur == 0 {
          break;
        }
        if cur < 0 {
          return cur, [];
        }
        left, offset, buffer := left - cur, offset + cur, buffer + data;
      }
    }

    /** The chunked branch of `ReadHTTPResponseBodyFromXIO`. */
    method ReadBody() returns (result: HttpResult, content: bytes)
      modifies this
      ensures match BodyFrom(old(View()), [])
              case Failed(code) => result == code
              case Body(all, left) => result == HTTPAPI_OK && content == all && View() == left
    {
      hide ReadRound, View, LineFrom, ChunkFrom, ParseHex, CString;
      var buf := new byte[TEMP_BUFFER_SIZE];
      content := [];
      ghost var body := BodyFrom(View(), []);
      while true
        invariant fresh(buf) && buf.Length == TEMP_BUFFER_SIZE
        invariant body == BodyFrom(View(), content)
        decreases |View().script|
      {
        var lineSize := ReadLine(buf);
        if lineSize < 0 {
          return HTTPAPI_READ_DATA_FAILED, content;
        }
        TerminatedLine(buf[..lineSize], buf[..]);
        var chunkSize := ParseStringToHexadecimal(buf);
        if chunkSize == None {
          return HTTPAPI_RECEIVE_RESPONSE_FAILED, content;
        }
        if chunkSize.value == 0 {
          var n, crlf := ReadChunk(2);
          if n < 0 || crlf != [CR, LF] {
            return HTTPAPI_READ_DATA_FAILED, content;
          }
          return HTTPAPI_OK, content;
        }
        var n, data := ReadChunk(chunkSize.value);
        if n < 0 {
          return HTTPAPI_READ_DATA_FAILED, content;
        }
        var end, crlf := ReadChunk(2);
        if end < 0 || crlf != [CR, LF] {
          return HTTPAPI_READ_DATA_FAILED, content;
        }
        content := Enlarged(content, data, chunkSize.value);
      }
    }
  }

  /** `ParseStringToHexadecimal`, on a NUL-terminated buffer. */
  method ParseStringToHexadecimal(src: array<byte>) returns (result: Option<nat>)
    requires 0 in src[..]
    ensures result == ParseHex(CString(src[..]))
  {
    ghost var text := CString(src[..]);
    assert |text| < src.Length && src[|text|] == 0 by {
      IndexFrom(0, src[..], |text|);
    }
    if HexDigit(src[0]) == 16 {
      return None;
    }
    var at: nat, dst: nat := 0, 0;
    while HexDigit(src[at]) != 16
      invariant 0 <= at <= |text| < src.Length && src[|text|] == 0
      invariant HexValue(text, 0) == HexValue(text[at..], dst)
      decreases |text| - at
    {
      assert at < |text| && text[at..][1..] == text[at + 1..];
      dst := (dst * 0x10 + HexDigit(src[at])) % SIZE_MODULUS;
      at := at + 1;
    }
    return Some(dst);
  }

  lemma TerminatedLine(line: bytes, buf: bytes)
    requires |line| < |buf| && buf[..|line|] == line && buf[|line|] == 0
    ensures 0 in buf && CString(buf) == CString(line)
  {
    var k := IndexOf(0, line);
    assert buf[..k] == line[..k];
    IndexFrom(0, buf, k);
  }

  lemma IndexFrom(c: byte, s: bytes, k: nat)
    requires k <= |s| && c !in s[..k]
    ensures k <= IndexOf(c, s)
    ensures k == |s| || s[k] == c ==> IndexOf(c, s) == k
  {
    var i := IndexOf(c, s);
    assert forall j :: 0 <= j < k ==> s[j] == s[..k][j];
    assert forall j :: 0 <= j < i ==> s[j] == s[..i][j];
  }
}
