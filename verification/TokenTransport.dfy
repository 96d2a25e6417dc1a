/**
 * The way of an access token from the server's page to the server's /sign handler: base64 and 70-column lines, a
 * paste ended by a "." line, decoding, and the bearer header (section 2.1 of RFC 6750).
 */
module TokenTransport {
  import opened Common
  import opened Strings
  import opened Base64

  type text = seq<byte>

  const CHUNK: nat := 70
  const SPACE: byte := 32
  /** The line that ends a paste. */
  const DOT: text := [46]

  // ---- server: encodeToken ----

  function Chunks(e: text): (lines: seq<text>)
    decreases |e|
  {
    if e == [] then []
    else if |e| <= CHUNK then [e]
    else [e[..CHUNK]] + Chunks(e[CHUNK..])
  }

  function Flatten(lines: seq<text>): text {
    if lines == [] then [] else lines[0] + Flatten(lines[1..])
  }

  /** The lines, each followed by a line end. */
  function Lines(lines: seq<text>, eol: text): text {
    if lines == [] then [] else lines[0] + eol + Lines(lines[1..], eol)
  }

  lemma {:induction false} LinesSnoc(lines: seq<text>, line: text, eol: text)
    ensures Lines(lines + [line], eol) == Lines(lines, eol) + line + eol
  {
    if lines == [] {
      assert [line][1..] == [];
    } else {
      LinesSnoc(lines[1..], line, eol);
      assert (lines + [line])[1..] == lines[1..] + [line];
    }
  }

  /** Every line but the last has 70 columns, the last has 1 to 70, and together they are the text. */
  lemma {:induction false} ChunkShape(e: text)
    ensures forall i :: 0 <= i < |Chunks(e)| - 1 ==> |Chunks(e)[i]| == 70
    ensures forall i :: 0 <= i < |Chunks(e)| ==> 1 <= |Chunks(e)[i]| <= 70
    ensures Flatten(Chunks(e)) == e
    decreases |e|
  {
    if |e| > CHUNK {
      ChunkShape(e[CHUNK..]);
      assert Chunks(e)[1..] == Chunks(e[CHUNK..]);
      assert e == e[..CHUNK] + e[CHUNK..];
    } else if e != [] {
      assert [e][1..] == [];
    }
  }

  lemma {:induction false} ChunksFrom(e: text, c: byte)
    requires c !in e
    ensures forall i :: 0 <= i < |Chunks(e)| ==> c !in Chunks(e)[i]
    decreases |e|
  {
    if |e| > CHUNK {
      ChunksFrom(e[CHUNK..], c);
    }
  }

  lemma FirstChunk(e: text, k: nat)
    requires e != [] && k == if |e| < CHUNK then |e| else CHUNK
    ensures Lines(Chunks(e), [NEWLINE]) == e[..k] + [NEWLINE] + Lines(Chunks(e[k..]), [NEWLINE])
  {
    var tail := Chunks(e[k..]);
    assert e[..|e|] == e && e[|e|..] == [];
    assert Chunks(e) == [e[..k]] + tail;
    assert ([e[..k]] + tail)[1..] == tail;
  }

  method EncodeToken(token: seq<byte>) returns (page: text)
    ensures page == Lines(Chunks(Encode(token)), [NEWLINE])
    ensures Paste(token, [NEWLINE]) == page + DOT + [NEWLINE]
  {
    LinesSnoc(Chunks(Encode(token)), DOT, [NEWLINE]);
    var runes := Encode(token);
    page := [];
    var i := 0;
    ghost var done := 0;
    while i < |runes|
      invariant 0 <= done <= |runes| && done == if i < |runes| then i else |runes|
      invariant page + Lines(Chunks(runes[done..]), [NEWLINE]) == Lines(Chunks(runes), [NEWLINE])
    {
      var end := i + CHUNK;
      if end > |runes| {
        end := |runes|;
      }
      FirstChunk(runes[i..], end - i);
      assert runes[i..][..end - i] == runes[i..end] && runes[i..][end - i..] == runes[end..];
      page := page + runes[i..end] + [NEWLINE];
      done := end;
      i := i + CHUNK;
    }
  }

  // ---- client: the paste loop ----

  function DropReturn(line: text): text {
    if line != [] && line[|line| - 1] == RETURN then line[..|line| - 1] else line
  }

  /** The lines a bufio.Scanner yields. */
  function ScanLines(input: text): seq<text>
    decreases |input|
  {
    if input == [] then []
    else if NEWLINE !in input then [DropReturn(input)]
    else
      var i := IndexOf(input, NEWLINE);
      [DropReturn(input[..i])] + ScanLines(input[i + 1..])
  }

  /** scanner.Text() after k + 1 calls of Scan: empty once the input is used up. */
  function Text(lines: seq<text>, k: nat): text {
    if k < |lines| then lines[k] else []
  }

  /** The paste loop reaches its end exactly when a "." line is in the input; otherwise it never stops. */
  lemma PasteEndsIff(lines: seq<text>)
    ensures (exists k: nat :: Text(lines, k) == DOT) <==> DOT in lines
  {
    if DOT in lines {
      assert Text(lines, IndexOf(lines, DOT)) == DOT;
    }
  }

  /** The text in front of the first "." line, without line ends. */
  function Pasted(lines: seq<text>): text
    requires DOT in lines
  {
    Flatten(lines[..IndexOf(lines, DOT)])
  }

  lemma {:induction false} FlattenSnoc(lines: seq<text>, line: text)
    ensures Flatten(lines + [line]) == Flatten(lines) + line
  {
    if lines == [] {
      assert [line][1..] == [];
    } else {
      FlattenSnoc(lines[1..], line);
      assert (lines + [line])[1..] == lines[1..] + [line];
    }
  }

  method PasteLoop(lines: seq<text>) returns (encoded: text)
    requires exists k: nat :: Text(lines, k) == DOT
    ensures DOT in lines && encoded == Pasted(lines)
  {
    PasteEndsIff(lines);
    encoded := [];
    var k := 0;
    while Text(lines, k) != DOT
      invariant k <= IndexOf(lines, DOT)
      invariant encoded == Flatten(lines[..k])
      decreases IndexOf(lines, DOT) - k
    {
      assert lines[..k + 1] == lines[..k] + [lines[k]];
      FlattenSnoc(lines[..k], lines[k]);
      encoded := encoded + Text(lines, k);
      k := k + 1;
    }
    assert DOT !in lines[..IndexOf(lines, DOT)];
    assert k == IndexOf(lines, DOT);
  }

  // ---- client and server: the bearer header ----

  const BEARER: text := [66, 101, 97, 114, 101, 114, 32]        // "Bearer "
  const BEARER_UPPER: text := [66, 69, 65, 82, 69, 82, 32]      // "BEARER "

  function Upper(c: byte): byte {
    if 97 <= c <= 122 then c - 32 else c
  }

  /** The prefix test on the upper-cased header; no other letter upper-cases into this prefix. */
  predicate IsBearer(header: text) {
    |header| >= |BEARER_UPPER| && forall i :: 0 <= i < |BEARER_UPPER| ==> Upper(header[i]) == BEARER_UPPER[i]
  }

  lemma BearerSplits(header: text)
    requires IsBearer(header)
    ensures Split(header, SPACE) == [header[..6]] + Split(header[7..], SPACE)
  {
    var scheme := header[..6];
    assert forall i :: 0 <= i < 6 ==> Upper(scheme[i]) == BEARER_UPPER[i];
    assert Upper(header[6]) == BEARER_UPPER[6];
    assert SPACE !in scheme;
    assert header == scheme + [SPACE] + header[7..];
    SplitFirst(scheme, SPACE, header[7..]);
  }

  function TokenFromHeader(header: text): text {
    if IsBearer(header) then
      BearerSplits(header);
      Split(header, SPACE)[1]
    else []
  }

  /**
   * The scheme is recognised in any letter case, and followed by one space; the token is what stands between that
   * space and the next one. Any other header carries no token.
   */
  lemma HeaderToken(header: text)
    ensures IsBearer(header)
            <==> |header| >= 7 && header[6] == SPACE
                 && forall i :: 0 <= i < 6 ==> header[i] == BEARER_UPPER[i] || header[i] == BEARER_UPPER[i] + 32
    ensures SPACE !in TokenFromHeader(header)
    ensures IsBearer(header) ==>
              var token := TokenFromHeader(header);
              token == header[7..] || token + [SPACE] <= header[7..]
    ensures !IsBearer(header) ==> TokenFromHeader(header) == []
  {
    if IsBearer(header) {
      BearerSplits(header);
      var rest := header[7..];
      if SPACE in rest {
        var i := IndexOf(rest, SPACE);
        assert rest == rest[..i] + [SPACE] + rest[i + 1..];
        SplitFirst(rest[..i], SPACE, rest[i + 1..]);
      }
    }
  }

  /** The server reads the token up to its first space, so it reads the whole token exactly when there is none. */
  lemma HeaderRoundTrip(token: text)
    ensures TokenFromHeader(BEARER + token) == Split(token, SPACE)[0]
    ensures TokenFromHeader(BEARER + token) == token <==> SPACE !in token
  {
    var header := BEARER + token;
    assert header[7..] == token;
    assert forall i :: 0 <= i < 7 ==> header[i] == BEARER[i];
    BearerSplits(header);
  }

  // ---- the whole way ----

  predicate IsEol(eol: text) {
    eol == [NEWLINE] || eol == [RETURN, NEWLINE]
  }

  lemma ScanFirst(line: text, eol: text, rest: text)
    requires IsEol(eol) && NEWLINE !in line && RETURN !in line
    ensures ScanLines(line + eol + rest) == [line] + ScanLines(rest)
  {
    var input := line + eol + rest;
    var front := if eol == [NEWLINE] then line else line + [RETURN];
    assert NEWLINE !in front && DropReturn(front) == line;
    assert input == front + [NEWLINE] + rest;
    IndexOfSeparator(front, NEWLINE, rest);
    assert input[|front|] == NEWLINE && input[..|front|] == front && input[|front| + 1..] == rest;
  }

  /** Scanning undoes writing lines; a last line needs no line end. */
  lemma {:induction false} ScanOfLines(lines: seq<text>, eol: text, last: text)
    requires IsEol(eol)
    requires forall i :: 0 <= i < |lines| ==> NEWLINE !in lines[i] && RETURN !in lines[i]
    requires NEWLINE !in last && RETURN !in last
    ensures ScanLines(Lines(lines, eol) + last) == lines + (if last == [] then [] else [last])
  {
    if lines == [] {
      assert Lines(lines, eol) + last == last;
    } else {
      var rest := Lines(lines[1..], eol);
      var tail := if last == [] then [] else [last];
      calc {
        ScanLines(Lines(lines, eol) + last);
        { assert lines[0] + eol + rest + last == lines[0] + eol + (rest + last); }
        ScanLines(lines[0] + eol + (rest + last));
        { ScanFirst(lines[0], eol, rest + last); }
        [lines[0]] + ScanLines(rest + last);
        { ScanOfLines(lines[1..], eol, last); }
        [lines[0]] + (lines[1..] + tail);
        lines + tail;
      }
    }
  }

  /** Writing lines undoes scanning, for every input without carriage returns, up to the newline at its end. */
  lemma {:induction false} LinesOfScan(input: text)
    requires RETURN !in input
    ensures Lines(ScanLines(input), [NEWLINE])
            == if input == [] || input[|input| - 1] == NEWLINE then input else input + [NEWLINE]
    decreases |input|
  {
    if input == [] {
    } else if NEWLINE !in input {
      assert DropReturn(input) == input && Lines([input], [NEWLINE]) == input + [NEWLINE] + Lines([], [NEWLINE]);
    } else {
      var i := IndexOf(input, NEWLINE);
      var front, rest := input[..i], input[i + 1..];
      assert input == front + [NEWLINE] + rest;
      ScanFirst(front, [NEWLINE], rest);
      LinesCons(front, ScanLines(rest), [NEWLINE]);
      LinesOfScan(rest);
      assert rest != [] ==> rest[|rest| - 1] == input[|input| - 1];
    }
  }

  lemma LinesCons(line: text, lines: seq<text>, eol: text)
    ensures Lines([line] + lines, eol) == line + eol + Lines(lines, eol)
  {
    assert ([line] + lines)[1..] == lines;
  }

  /** What the user pastes: the page's lines and the terminator, with either kind of line end. */
  function Paste(token: seq<byte>, eol: text): text {
    Lines(Chunks(Encode(token)) + [DOT], eol)
  }

  /**
   * No line of the page is the terminator, so the paste yields the whole encoded token, also when the input ends with
   * the terminator itself.
   */
  lemma PasteYieldsEncoded(token: seq<byte>, eol: text)
    requires IsEol(eol)
    ensures var lines := ScanLines(Paste(token, eol));
            DOT in lines && Pasted(lines) == Encode(token)
    ensures ScanLines(Lines(Chunks(Encode(token)), eol) + DOT) == ScanLines(Paste(token, eol))
    ensures DOT !in Chunks(Encode(token))
  {
    var e := Encode(token);
    var chunks := Chunks(e);
    NotEncoded(token, NEWLINE);
    NotEncoded(token, RETURN);
    NotEncoded(token, 46);
    ChunkShape(e);
    ChunksFrom(e, NEWLINE);
    ChunksFrom(e, RETURN);
    ChunksFrom(e, 46);
    assert 46 in DOT;
    ScanOfLines(chunks + [DOT], eol, []);
    ScanOfLines(chunks, eol, DOT);
    assert Paste(token, eol) + [] == Paste(token, eol);
    var lines := chunks + [DOT] + [];
    IndexOfSeparator(chunks, DOT, []);
    assert lines == chunks + [DOT] && lines[..|chunks|] == chunks;
  }

  lemma {:induction false} DropBreaksOfLines(lines: seq<text>, eol: text)
    requires IsEol(eol)
    requires forall i :: 0 <= i < |lines| ==> NEWLINE !in lines[i] && RETURN !in lines[i]
    ensures DropBreaks(Lines(lines, eol)) == Flatten(lines)
  {
    if lines != [] {
      var rest := Lines(lines[1..], eol);
      calc {
        DropBreaks(Lines(lines, eol));
        DropBreaks(lines[0] + eol + rest);
        { DropBreaksAppend(lines[0] + eol, rest); DropBreaksAppend(lines[0], eol); }
        DropBreaks(lines[0]) + DropBreaks(eol) + DropBreaks(rest);
        { NoBreaks(lines[0]); DropBreaksOfEol(eol); DropBreaksOfLines(lines[1..], eol); }
        lines[0] + [] + Flatten(lines[1..]);
      }
    }
  }

  lemma DropBreaksOfEol(eol: text)
    requires IsEol(eol)
    ensures DropBreaks(eol) == []
  {
    assert [RETURN, NEWLINE][1..] == [NEWLINE] && [NEWLINE][1..] == [];
    assert DropBreaks([NEWLINE]) == [];
  }

  /** The page decodes to the token with its line breaks, too. */
  lemma PageDecodes(token: seq<byte>, eol: text)
    requires IsEol(eol)
    ensures Decode(Lines(Chunks(Encode(token)), eol)) == Some(token)
  {
    var e := Encode(token);
    NotEncoded(token, NEWLINE);
    NotEncoded(token, RETURN);
    ChunkShape(e);
    ChunksFrom(e, NEWLINE);
    ChunksFrom(e, RETURN);
    DropBreaksOfLines(Chunks(e), eol);
    DecodeQuadsOfEncode(token);
  }

  /** The token that leaves the server comes back to it, exactly when it contains no space. */
  lemma TokenRoundTrip(token: seq<byte>, eol: text)
    requires IsEol(eol)
    ensures var lines := ScanLines(Paste(token, eol));
            && DOT in lines
            && var decoded := Decode(Pasted(lines));
               && decoded.Some?
               && (TokenFromHeader(BEARER + decoded.value) == token <==> SPACE !in token)
  {
    PasteYieldsEncoded(token, eol);
    DecodeOfEncode(token);
    HeaderRoundTrip(token);
  }
}
