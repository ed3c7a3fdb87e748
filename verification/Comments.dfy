/** `remove_comments`: one pass that blanks the comments between two tokens, in place. */
module Comments {
  import opened Bytes
  import opened Serializer
  import opened StringLiteral
  import opened Wrappers

  const STAR: byte := 0x2A

  /** The two calls made by `json_parse_string_with_comments`. */
  const BLOCK_OPEN: bytes := [0x2F, 0x2A]
  const BLOCK_CLOSE: bytes := [0x2A, 0x2F]
  const LINE_OPEN: bytes := [0x2F, 0x2F]
  const LINE_CLOSE: bytes := [0x0A]

  /** What the proofs need of an opening token: it holds no space, and starts with neither quote nor backslash. */
  predicate OpeningToken(open: bytes) {
    open != [] && SPACE !in open && open[0] != QUOTE && open[0] != BACKSLASH
  }

  lemma BothTokensOpen()
    ensures OpeningToken(BLOCK_OPEN) && OpeningToken(LINE_OPEN)
  {
  }

  function Spaces(n: nat): (s: bytes)
    ensures |s| == n && forall k :: 0 <= k < n ==> s[k] == SPACE
  {
    seq(n, _ => SPACE)
  }

  /** `strstr`: the first occurrence of a token. */
  function IndexOf(s: bytes, token: bytes): (k: Option<nat>)
    ensures k.Some? ==> k.value + |token| <= |s|
    decreases |s|
  {
    if Has(s, 0, token) then Some(0)
    else if s == [] then None
    else match IndexOf(s[1..], token) case None => None case Some(k) => Some(k + 1)
  }

  lemma {:induction false} IndexOfIsFirst(s: bytes, token: bytes)
    ensures IndexOf(s, token).Some? ==> Has(s, IndexOf(s, token).value, token)
    ensures forall j: nat :: Has(s, j, token) ==> IndexOf(s, token).Some? && IndexOf(s, token).value <= j
    decreases |s|
  {
    if s != [] {
      IndexOfIsFirst(s[1..], token);
      forall j: nat
        ensures j + 1 + |token| <= |s| ==> s[1..][j..j + |token|] == s[j + 1..j + 1 + |token|]
        ensures Has(s, j + 1, token) <==> Has(s[1..], j, token)
      {
      }
      forall j: nat | Has(s, j, token)
        ensures IndexOf(s, token).Some? && IndexOf(s, token).value <= j
      {
        assert j > 0 ==> Has(s, (j - 1) + 1, token) && Has(s[1..], j - 1, token);
      }
    }
  }

  datatype Region = Plain | Literal | Comment

  /** What one round of the scan takes off the text: `len` bytes of one kind, and the scanner state behind them.
      Only an unclosed comment ends the pass; of that, just the opening token is taken. */
  datatype Round = Round(len: nat, region: Region, inString: bool, escaped: bool, ends: bool)

  function ScanRound(s: bytes, inString: bool, escaped: bool, open: bytes, close: bytes): (r: Round)
    requires s != [] && open != []
    ensures 1 <= r.len <= |s|
    ensures r.ends ==> r.region == Comment
    ensures r.region != Comment ==> r.len == 1
    ensures r.region == Comment ==> !inString && open <= s && !r.inString && !r.escaped
  {
    var here := if inString then Literal else Plain;
    if s[0] == BACKSLASH && !escaped then Round(1, here, inString, true, false)
    else if s[0] == QUOTE && !escaped then Round(1, Literal, !inString, false, false)
    else if !inString && open <= s then
      match IndexOf(s[|open|..], close)
      case None => Round(|open|, Comment, false, false, true)
      case Some(k) => Round(|open| + k + |close|, Comment, false, false, false)
    else Round(1, here, inString, false, false)
  }

  /** The text after one pass that is at the start of `s` in the given scanner state. */
  function Strip(s: bytes, inString: bool, escaped: bool, open: bytes, close: bytes): (t: bytes)
    requires open != []
    ensures |t| == |s|
    decreases |s|
  {
    if s == [] then []
    else
      var r := ScanRound(s, inString, escaped, open, close);
      (if r.region == Comment then Spaces(r.len) else s[..r.len])
      + (if r.ends then s[r.len..] else Strip(s[r.len..], r.inString, r.escaped, open, close))
  }

  function Run(region: Region, n: nat): (r: seq<Region>)
    ensures |r| == n && forall k :: 0 <= k < n ==> r[k] == region
  {
    seq(n, _ => region)
  }

  /** What the pass takes each byte for; literals include their quotes. */
  function Regions(s: bytes, inString: bool, escaped: bool, open: bytes, close: bytes): (t: seq<Region>)
    requires open != []
    ensures |t| == |s|
    decreases |s|
  {
    if s == [] then []
    else
      var r := ScanRound(s, inString, escaped, open, close);
      Run(r.region, r.len)
      + (if r.ends then Run(Plain, |s| - r.len) else Regions(s[r.len..], r.inString, r.escaped, open, close))
  }

  /** The text behind an opening token that is never closed, if there is one. */
  function Unclosed(s: bytes, inString: bool, escaped: bool, open: bytes, close: bytes): Option<bytes>
    requires open != []
    decreases |s|
  {
    if s == [] then None
    else
      var r := ScanRound(s, inString, escaped, open, close);
      if r.ends then Some(s[r.len..]) else Unclosed(s[r.len..], r.inString, r.escaped, open, close)
  }

  /** The pass meets an opening token outside string literals. */
  ghost predicate Opens(s: bytes, inString: bool, escaped: bool, open: bytes, close: bytes)
    requires open != []
  {
    Comment in Regions(s, inString, escaped, open, close)
  }

  lemma RegionsUnfold(s: bytes, inString: bool, escaped: bool, open: bytes, close: bytes)
    requires s != [] && open != []
    ensures var r := ScanRound(s, inString, escaped, open, close);
            Regions(s, inString, escaped, open, close) ==
            Run(r.region, r.len)
            + (if r.ends then Run(Plain, |s| - r.len) else Regions(s[r.len..], r.inString, r.escaped, open, close))
  {
    hide ScanRound;
  }

  /** One pass changes exactly the comment bytes, and those to spaces: length, code and literals stay. */
  lemma {:induction false} StripBlanksComments(s: bytes, inString: bool, escaped: bool, open: bytes, close: bytes,
                                               i: nat)
    requires open != [] && i < |s|
    ensures Strip(s, inString, escaped, open, close)[i] ==
            if Regions(s, inString, escaped, open, close)[i] == Comment then SPACE else s[i]
    decreases |s|
  {
    hide ScanRound, Spaces, Run, Strip, Regions;
    var r := ScanRound(s, inString, escaped, open, close);
    StripUnfolds(s, inString, escaped, open, close);
    RegionsUnfold(s, inString, escaped, open, close);
    if i >= r.len {
      assert s[i] == s[r.len..][i - r.len];
      if !r.ends {
        StripBlanksComments(s[r.len..], r.inString, r.escaped, open, close, i - r.len);
      }
    }
  }

  /** A pass changes nothing just when no comment is opened. */
  lemma StripChangesNothing(s: bytes, inString: bool, escaped: bool, open: bytes, close: bytes)
    requires OpeningToken(open)
    ensures Strip(s, inString, escaped, open, close) == s <==> !Opens(s, inString, escaped, open, close)
  {
    hide Strip, Regions;
    var t, regions := Strip(s, inString, escaped, open, close), Regions(s, inString, escaped, open, close);
    if Comment in regions {
      var i := FirstComment(s, inString, escaped, open, close);
      StripBlanksComments(s, inString, escaped, open, close, i);
      assert t[i] != s[i];
    } else {
      forall i | 0 <= i < |s|
        ensures t[i] == s[i]
      {
        StripBlanksComments(s, inString, escaped, open, close, i);
        assert regions[i] in regions;
      }
    }
  }

  /** The first comment byte is the first byte of an opening token. */
  lemma {:induction false} FirstComment(s: bytes, inString: bool, escaped: bool, open: bytes, close: bytes)
    returns (i: nat)
    requires OpeningToken(open) && Opens(s, inString, escaped, open, close)
    ensures i < |s| && Regions(s, inString, escaped, open, close)[i] == Comment && s[i] == open[0] != SPACE
    decreases |s|
  {
    hide ScanRound;
    var r := ScanRound(s, inString, escaped, open, close);
    if r.region == Comment {
      i := 0;
    } else {
      i := FirstComment(s[r.len..], r.inString, r.escaped, open, close);
      i := i + r.len;
    }
  }

  /** Blanks in front of a text are passed over. */
  lemma {:induction false} StripPassesSpaces(n: nat, s: bytes, escaped: bool, open: bytes, close: bytes)
    requires OpeningToken(open) && n > 0
    ensures Strip(Spaces(n) + s, false, escaped, open, close) == Spaces(n) + Strip(s, false, false, open, close)
    decreases n
  {
    hide Strip, Spaces;
    var t := Spaces(n) + s;
    SpaceRound(t, escaped, open, close);
    assert t[1..] == Spaces(n - 1) + s;
    assert Spaces(n) == [SPACE] + Spaces(n - 1);
    if n > 1 {
      StripPassesSpaces(n - 1, s, false, open, close);
      assert [SPACE] + (Spaces(n - 1) + Strip(s, false, false, open, close)) == Spaces(n) + Strip(s, false, false,
          open, close);
    } else {
      assert t[1..] == s;
    }
  }

  lemma SpaceRound(t: bytes, escaped: bool, open: bytes, close: bytes)
    requires OpeningToken(open) && t != [] && t[0] == SPACE
    ensures Strip(t, false, escaped, open, close) == [SPACE] + Strip(t[1..], false, false, open, close)
  {
    assert t[..1] == [SPACE];
    assert ScanRound(t, false, escaped, open, close) == Round(1, Plain, false, false, false);
    hide ScanRound;
  }

  /** Blanking comments creates no opening token. */
  lemma NoNewToken(s: bytes, inString: bool, escaped: bool, open: bytes, close: bytes)
    requires OpeningToken(open)
    ensures open <= Strip(s, inString, escaped, open, close) ==> open <= s
  {
    hide Strip, Regions;
    var t := Strip(s, inString, escaped, open, close);
    if open <= t {
      forall i | 0 <= i < |open|
        ensures open[i] == s[i]
      {
        StripBlanksComments(s, inString, escaped, open, close, i);
        assert open[i] in open && t[i] == open[i];
      }
    }
  }

  lemma CancelPrefix(a: bytes, b: bytes, c: bytes)
    ensures a + b == a + c <==> b == c
  {
    if a + b == a + c {
      assert b == (a + b)[|a|..] && c == (a + c)[|a|..];
    }
  }

  /** The second pass takes the first round outside comments as the first pass did. */
  lemma SamePlainRound(s: bytes, inString: bool, escaped: bool, open: bytes, close: bytes)
    requires s != [] && OpeningToken(open)
    ensures var r := ScanRound(s, inString, escaped, open, close);
            r.region != Comment ==>
              ScanRound(Strip(s, inString, escaped, open, close), inString, escaped, open, close) == r
  {
    NoNewToken(s, inString, escaped, open, close);
    hide IndexOf;
  }

  /** A second pass changes nothing just when there is no unclosed comment, or no comment is opened behind it. */
  lemma {:induction false} StripTwice(s: bytes, inString: bool, escaped: bool, open: bytes, close: bytes)
    requires OpeningToken(open)
    ensures var t := Strip(s, inString, escaped, open, close);
            Strip(t, inString, escaped, open, close) == t <==>
            match Unclosed(s, inString, escaped, open, close)
            case None => true
            case Some(rest) => !Opens(rest, false, false, open, close)
    decreases |s|
  {
    hide ScanRound, Opens;
    if s != [] {
      var r := ScanRound(s, inString, escaped, open, close);
      var rest := s[r.len..];
      if r.ends {
        StripPassesSpaces(r.len, rest, escaped, open, close);
        CancelPrefix(Spaces(r.len), Strip(rest, false, false, open, close), rest);
        StripChangesNothing(rest, false, false, open, close);
      } else {
        StripTwice(rest, r.inString, r.escaped, open, close);
        var once := Strip(rest, r.inString, r.escaped, open, close);
        var twice := Strip(once, r.inString, r.escaped, open, close);
        if r.region == Comment {
          StripPassesSpaces(r.len, once, escaped, open, close);
          CancelPrefix(Spaces(r.len), twice, once);
        } else {
          SamePlainRound(s, inString, escaped, open, close);
          CancelPrefix(s[..1], twice, once);
        }
      }
    }
  }

  /** For the comments of `json_parse_string_with_comments`: a second pass changes nothing just when every comment is
      closed, or none is opened behind the one that is not. */
  lemma RealTokensTwice(s: bytes, line: bool)
    ensures var open, close := if line then LINE_OPEN else BLOCK_OPEN, if line then LINE_CLOSE else BLOCK_CLOSE;
            var t := Strip(s, false, false, open, close);
            Strip(t, false, false, open, close) == t <==>
            match Unclosed(s, false, false, open, close)
            case None => true
            case Some(rest) => !Opens(rest, false, false, open, close)
  {
    BothTokensOpen();
    StripTwice(s, false, false, if line then LINE_OPEN else BLOCK_OPEN, if line then LINE_CLOSE else BLOCK_CLOSE);
  }

  /** The text of two opening tokens changes in the second pass: the first one blanks only the first token. */
  lemma SecondPassChanges()
    ensures var s := BLOCK_OPEN + BLOCK_OPEN;
            var once := Strip(s, false, false, BLOCK_OPEN, BLOCK_CLOSE);
            && once == [SPACE, SPACE] + BLOCK_OPEN
            && Strip(once, false, false, BLOCK_OPEN, BLOCK_CLOSE) == [SPACE, SPACE, SPACE, SPACE]
  {
    hide Strip, IndexOf;
    var s := BLOCK_OPEN + BLOCK_OPEN;
    assert s[2..] == BLOCK_OPEN && Spaces(2) == [SPACE, SPACE];
    NeverClosed(BLOCK_OPEN);
    StripUnfolds(s, false, false, BLOCK_OPEN, BLOCK_CLOSE);
    NeverClosed([]);
    assert BLOCK_OPEN[2..] == [] && [SPACE, SPACE] + [] == [SPACE, SPACE];
    StripUnfolds(BLOCK_OPEN, false, false, BLOCK_OPEN, BLOCK_CLOSE);
    BothTokensOpen();
    StripPassesSpaces(2, BLOCK_OPEN, false, BLOCK_OPEN, BLOCK_CLOSE);
    assert Spaces(2) + [SPACE, SPACE] == [SPACE, SPACE, SPACE, SPACE];
  }

  lemma NeverClosed(s: bytes)
    requires s == [] || s == BLOCK_OPEN
    ensures IndexOf(s, BLOCK_CLOSE) == None
  {
    IndexOfIsFirst(s, BLOCK_CLOSE);
    if IndexOf(s, BLOCK_CLOSE).Some? {
      HasAt(s, IndexOf(s, BLOCK_CLOSE).value, BLOCK_CLOSE, 0);
    }
  }

  lemma StripEmpty(s: bytes, inString: bool, escaped: bool, open: bytes, close: bytes)
    requires s == [] && open != []
    ensures Strip(s, inString, escaped, open, close) == []
  {
  }

  // ---------- a pass, read off the text ----------

  /** An odd number of backslashes stands directly in front of position `i`. */
  predicate IsEscaped(s: bytes, i: nat)
    requires i <= |s|
  {
    i > 0 && s[i - 1] == BACKSLASH && !IsEscaped(s, i - 1)
  }

  /** The quotes in front of position `i` that no backslash escapes. */
  function Quotes(s: bytes, i: nat): nat
    requires i <= |s|
  {
    if i == 0 then 0 else Quotes(s, i - 1) + if s[i - 1] == QUOTE && !IsEscaped(s, i - 1) then 1 else 0
  }

  /** The opening token stands at `i`, behind an even number of quotes. */
  predicate OpensAt(s: bytes, i: nat, open: bytes)
    requires i <= |s|
  {
    Has(s, i, open) && Quotes(s, i) % 2 == 0
  }

  /** Up to the first opening the pass changes nothing. */
  lemma {:induction false} ReachesFirst(s: bytes, i: nat, open: bytes, close: bytes)
    requires OpeningToken(open) && i <= |s| && forall j :: 0 <= j < i ==> !OpensAt(s, j, open)
    ensures Strip(s, false, false, open, close)
         == s[..i] + Strip(s[i..], Quotes(s, i) % 2 == 1, IsEscaped(s, i), open, close)
  {
    hide Strip, Quotes, IsEscaped, Has;
    if i == 0 {
      AtStart(s);
      EmptyParts(Strip(s, false, false, open, close));
    } else {
      var k := i - 1;
      ReachesFirst(s, k, open, close);
      var inString, escaped := Quotes(s, k) % 2 == 1, IsEscaped(s, k);
      assert !OpensAt(s, k, open);
      NextState(s, k);
      OneByteRound(s[k..], inString, escaped, open, close);
      HasBehind(s, k, open);
      assert s[k..][..1] == [s[k]] && s[k..][1..] == s[i..];
      var tail := Strip(s[i..], Quotes(s, i) % 2 == 1, IsEscaped(s, i), open, close);
      Regroup(s[..k], [s[k]], tail, [s[k]] + tail);
      assert s[..k] + [s[k]] == s[..i];
    }
  }

  lemma AtStart(s: bytes)
    ensures s[0..] == s && Quotes(s, 0) == 0 && !IsEscaped(s, 0)
  {
  }

  lemma NextState(s: bytes, k: nat)
    requires k < |s|
    ensures IsEscaped(s, k + 1) == (s[k] == BACKSLASH && !IsEscaped(s, k))
    ensures (Quotes(s, k + 1) % 2 == 1) == ((Quotes(s, k) % 2 == 1) != (s[k] == QUOTE && !IsEscaped(s, k)))
  {
  }

  lemma HasBehind(s: bytes, k: nat, token: bytes)
    requires k <= |s|
    ensures Has(s, k, token) <==> token <= s[k..]
  {
    if k + |token| <= |s| {
      assert s[k..][..|token|] == s[k..k + |token|];
    }
  }

  /** Where no comment opens, one byte stays, and the state goes on as backslashes and quotes say. */
  lemma OneByteRound(s: bytes, inString: bool, escaped: bool, open: bytes, close: bytes)
    requires OpeningToken(open) && s != []
    ensures inString || !(open <= s) ==>
              Strip(s, inString, escaped, open, close) ==
              s[..1] + Strip(s[1..], inString != (s[0] == QUOTE && !escaped), s[0] == BACKSLASH && !escaped,
                             open, close)
  {
    hide IndexOf;
    StripUnfolds(s, inString, escaped, open, close);
    hide Strip;
  }

  /** Without an opening the text stays. */
  lemma NoOpening(s: bytes, open: bytes, close: bytes)
    requires OpeningToken(open) && forall j :: 0 <= j <= |s| ==> !OpensAt(s, j, open)
    ensures Strip(s, false, false, open, close) == s
  {
    hide Strip, Quotes, IsEscaped;
    ReachesFirst(s, |s|, open, close);
    assert s[|s|..] == [] && s[..|s|] == s;
    StripEmpty(s[|s|..], Quotes(s, |s|) % 2 == 1, IsEscaped(s, |s|), open, close);
  }

  /** What becomes of the text from an opening token on, which stands in front of `inside`. */
  function FromOpening(inside: bytes, open: bytes, close: bytes): bytes
    requires open != []
  {
    match IndexOf(inside, close)
    case None => Spaces(|open|) + inside
    case Some(k) => Spaces(|open| + k + |close|) + Strip(inside[k + |close|..], false, false, open, close)
  }

  /** A pass, exactly: it goes to the first opening token behind an even number of unescaped quotes; blanks up to behind
      the next closing token, and starts afresh there; or blanks just the token when nothing closes it. */
  lemma StripExactly(s: bytes, i: nat, open: bytes, close: bytes)
    requires OpeningToken(open) && i <= |s|
    requires OpensAt(s, i, open) && forall j :: 0 <= j < i ==> !OpensAt(s, j, open)
    ensures Strip(s, false, false, open, close) == s[..i] + FromOpening(s[i + |open|..], open, close)
  {
    hide Strip, Quotes, IsEscaped, Has, OpeningToken, FromOpening;
    ReachesFirst(s, i, open, close);
    HasBehind(s, i, open);
    var here := s[i..];
    assert here[|open|..] == s[i + |open|..];
    OpeningRound(here, IsEscaped(s, i), open, close);
    assert Quotes(s, i) % 2 != 1;
  }

  lemma OpeningRound(s: bytes, escaped: bool, open: bytes, close: bytes)
    requires OpeningToken(open) && open <= s
    ensures Strip(s, false, escaped, open, close) == FromOpening(s[|open|..], open, close)
  {
    hide Strip, IndexOf, Spaces;
    StripUnfolds(s, false, escaped, open, close);
    assert s[0] == open[0];
    var inside := s[|open|..];
    if IndexOf(inside, close).Some? {
      var k := IndexOf(inside, close).value;
      assert s[|open| + k + |close|..] == inside[k + |close|..];
    }
  }

  /** `remove_comments`: the text, a C string, is overwritten with its stripped form. */
  method RemoveComments(text: array<byte>, open: bytes, close: bytes)
    requires NulFree(text[..])
    modifies text
    ensures text[..] == if open == [] || close == [] then old(text[..])
               else Strip(old(text[..]), false, false, open, close)
  {
    if open == [] || close == [] {
      return;
    }
    hide NulFree, Strip;
    ghost var result := Strip(text[..], false, false, open, close);
    var inString, escaped, ends := false, false, false;
    var p := 0;
    assert text[..] == text[0..] && text[..0] + result == result;
    while p < text.Length && !ends
      invariant 0 <= p <= text.Length
      invariant result == if ends then text[..] else text[..p] + Strip(text[p..], inString, escaped, open, close)
      decreases text.Length - p, !ends
    {
      p, inString, escaped, ends := ScanOnce(text, p, inString, escaped, open, close);
    }
    if !ends {
      StripEmpty(text[p..], inString, escaped, open, close);
    }
  }

  lemma SplitHead(t: bytes, p: nat)
    requires p < |t|
    ensures t[p..][0] == t[p] && t[p..][1..] == t[p + 1..] && t[..p + 1] == t[..p] + [t[p]]
  {
  }

  /** One round of the loop; `ends` tells that the loop returns because a comment is not closed. */
  method ScanOnce(text: array<byte>, p: nat, wasInString: bool, wasEscaped: bool, open: bytes, close: bytes)
      returns (next: nat, inString: bool, escaped: bool, ends: bool)
    requires p < text.Length && open != []
    modifies text
    ensures p <= next <= text.Length && (p < next || ends)
    ensures old(text[..p] + Strip(text[p..], wasInString, wasEscaped, open, close)) ==
            if ends then text[..] else text[..next] + Strip(text[next..], inString, escaped, open, close)
  {
    hide IndexOf, Strip, Spaces;
    ghost var before := text[..];
    StripRound(before[..p], before[p..], wasInString, wasEscaped, open, close);
    SplitHead(before, p);
    next, inString, escaped, ends := p + 1, wasInString, false, false;
    if text[p] == BACKSLASH && !wasEscaped {
      escaped := true;
    } else if text[p] == QUOTE && !wasEscaped {
      inString := !inString;
    } else if !inString && open <= text[p..] {
      var found := BlankComment(text, p, open, close);
      if found.None? {
        next, ends := p, true;
      } else {
        next := found.value;
      }
    }
  }

  /** One round of the scan, in front of which `done` stands, by the branches of the loop. */
  lemma StripRound(done: bytes, s: bytes, inString: bool, escaped: bool, open: bytes, close: bytes)
    requires s != [] && open != []
    ensures var all := done + Strip(s, inString, escaped, open, close);
            if s[0] == BACKSLASH && !escaped then all == (done + [s[0]]) + Strip(s[1..], inString, true, open, close)
            else if s[0] == QUOTE && !escaped then all == (done + [s[0]]) + Strip(s[1..], !inString, false, open, close)
            else if !inString && open <= s then
              match IndexOf(s[|open|..], close)
              case None => all == done + (Spaces(|open|) + s[|open|..])
              case Some(k) =>
                var n := |open| + k + |close|;
                all == (done + Spaces(n)) + Strip(s[n..], false, false, open, close)
            else all == (done + [s[0]]) + Strip(s[1..], inString, false, open, close)
  {
    hide IndexOf, Strip, Spaces;
    var r := ScanRound(s, inString, escaped, open, close);
    var piece := if r.region == Comment then Spaces(r.len) else s[..r.len];
    var rest := if r.ends then s[r.len..] else Strip(s[r.len..], r.inString, r.escaped, open, close);
    StripUnfolds(s, inString, escaped, open, close);
    Regroup(done, piece, rest, Strip(s, inString, escaped, open, close));
    assert s[..1] == [s[0]];
  }

  lemma StripUnfolds(s: bytes, inString: bool, escaped: bool, open: bytes, close: bytes)
    requires s != [] && open != []
    ensures var r := ScanRound(s, inString, escaped, open, close);
            Strip(s, inString, escaped, open, close) ==
            (if r.region == Comment then Spaces(r.len) else s[..r.len])
            + (if r.ends then s[r.len..] else Strip(s[r.len..], r.inString, r.escaped, open, close))
  {
    hide ScanRound;
  }

  lemma StripOverComment(s: bytes, n: nat, open: bytes, close: bytes)
    requires s != [] && open != [] && n <= |s|
    requires ScanRound(s, false, false, open, close) == Round(n, Comment, false, false, false)
    ensures Strip(s, false, false, open, close) == Spaces(n) + Strip(s[n..], false, false, open, close)
  {
    hide ScanRound, Spaces, IndexOf;
  }

  /** The comment branch of the loop: the position behind the comment, or None when it is not closed. */
  method BlankComment(text: array<byte>, p: nat, open: bytes, close: bytes) returns (next: Option<nat>)
    requires p < text.Length && open <= text[p..] && open != []
    modifies text
    ensures var found := IndexOf(old(text[p..])[|open|..], close);
            match found
            case None => next == None && text[..] == old(text[..p]) + (Spaces(|open|) + old(text[p..])[|open|..])
            case Some(k) =>
              && next == Some(p + (|open| + k + |close|)) && next.value <= text.Length
              && text[..next.value] == old(text[..p]) + Spaces(|open| + k + |close|)
              && text[next.value..] == old(text[p..])[|open| + k + |close|..]
  {
    ghost var rest := text[p..];
    BlankOut(text, p, |open|);
    var q := p + |open|;
    assert text[q..] == rest[|open|..];
    var found := IndexOf(text[q..], close);
    if found.None? {
      assert text[..] == old(text[..p]) + (Spaces(|open|) + rest[|open|..]);
      return None;
    }
    BlankOut(text, q, found.value + |close|);
    return Some(p + (|open| + found.value + |close|));
  }

  method BlankOut(text: array<byte>, from: nat, count: nat)
    requires from + count <= text.Length
    modifies text
    ensures forall k :: 0 <= k < text.Length ==> text[k] == if from <= k < from + count then SPACE else old(text[k])
  {
    var i := 0;
    while i < count
      invariant 0 <= i <= count
      invariant forall k :: 0 <= k < text.Length ==> text[k] == if from <= k < from + i then SPACE else old(text[k])
    {
      text[from + i] := SPACE;
      i := i + 1;
    }
  }
}
