/**
 What the grammar gives: requests are a prefix-free code, the body limit is exactly a filter,
 header bounds are exact, chunked decoding undoes every chunked encoding, and the reader
 never asks for more memory than a `Vec` can hold unless it is configured to.
 */
module HttpFraming {
  import opened Options
  import opened Text
  import opened Utf8
  import opened Numerals
  import opened HttpReader
  import opened HeaderFields
  import opened HttpSyntax
  import opened HttpGrammar

  ghost predicate Accepts(s: bytes, max: nat) {
    ReadRequest(s, max).Done? && ReadRequest(s, max).value.Some?
  }

  // ---- prefix-freedom ----

  /** What was accepted depends on the consumed bytes alone: any continuation reads the same. */
  lemma AcceptedWhateverFollows(s: bytes, max: nat, tail: bytes)
    requires Accepts(s, max)
    ensures var r := ReadRequest(s, max);
            && |r.rest| <= |s| && s == s[..|s| - |r.rest|] + r.rest
            && ReadRequest(s[..|s| - |r.rest|] + tail, max) == Done(r.value, tail)
  {
    var m := ReaderSound(s, max);
    hide ReadRequest, WellFormed, Denote, Render;
    var r := ReadRequest(s, max);
    assert s[..|s| - |r.rest|] == Render(m);
    ReaderComplete(m, tail, max);
  }

  /** No proper prefix of the consumed bytes is a request. */
  lemma NoPrefixAccepted(s: bytes, max: nat, n: nat)
    requires Accepts(s, max) && n < |s| - |ReadRequest(s, max).rest|
    ensures !Accepts(s[..n], max)
  {
    hide ReadRequest;
    var r := ReadRequest(s, max);
    AcceptedWhateverFollows(s, max, []);
    var used := s[..|s| - |r.rest|];
    assert used + [] == used;
    if Accepts(s[..n], max) {
      var p := ReadRequest(s[..n], max);
      AcceptedWhateverFollows(s[..n], max, []);
      var k := n - |p.rest|;
      assert s[..n][..k] == used[..k];
      assert used == used[..k] + used[k..];
      assert used[k..] != [];
      AcceptedWhateverFollows(s[..n], max, used[k..]);
    }
  }

  // ---- the body limit ----

  lemma {:induction false} ChunksLimit(s: bytes, body: bytes, small: nat, large: nat)
    requires small <= large && |body| <= small
    ensures ReadChunks(s, body, small) == ReadChunks(s, body, large) || ReadChunks(s, body, small) == Failed(TooLarge)
    ensures ReadChunks(s, body, large).Done? ==>
              && |ReadChunks(s, body, large).value| >= |body|
              && (ReadChunks(s, body, small) == Failed(TooLarge) <==> |ReadChunks(s, body, large).value| > small)
    decreases |s|
  {
    var step := ReadChunk(s, |body|, large);
    ChunkLimit(s, |body|, small, large);
    hide ReadChunk;
    if step.Failed? || step.value.LastChunk? {
    } else {
      var longer := body + step.value.data;
      if |longer| <= small {
        ChunksLimit(step.rest, longer, small, large);
      } else if ReadChunks(step.rest, longer, large).Done? {
        ChunksGrow(step.rest, longer, large);
      }
    }
  }

  lemma {:induction false} ChunksGrow(s: bytes, body: bytes, max: nat)
    requires ReadChunks(s, body, max).Done?
    ensures |ReadChunks(s, body, max).value| >= |body|
    decreases |s|
  {
    var step := ReadChunk(s, |body|, max);
    hide ReadChunk;
    if step.value.LastChunk? {
    } else {
      ChunksGrow(step.rest, body + step.value.data, max);
    }
  }

  lemma ChunkLimit(s: bytes, have: nat, small: nat, large: nat)
    requires small <= large && have <= small
    ensures var r := ReadChunk(s, have, large);
            && (ReadChunk(s, have, small) == r || ReadChunk(s, have, small) == Failed(TooLarge))
            && (r.Done? ==>
                  (ReadChunk(s, have, small) == Failed(TooLarge) <==> r.value.Chunk? && have + |r.value.data| > small))
  {
    hide ReadHttpLine, ChunkSize, ReadTrailers;
  }

  /**
   The limit is only a filter. Lowering it turns away, as too large, exactly those accepted
   requests whose body no longer fits, and otherwise changes no outcome at all, except that
   a request refused for something later in its body may be found too large first.
   */
  lemma LimitIsFilter(s: bytes, small: nat, large: nat)
    requires small <= large
    ensures ReadRequest(s, small) == ReadRequest(s, large) || ReadRequest(s, small) == Failed(TooLarge)
    ensures Accepts(s, large) ==>
              (ReadRequest(s, small) == Failed(TooLarge) <==> |ReadRequest(s, large).value.value.body| > small)
    ensures Accepts(s, small) <==> Accepts(s, large) && |ReadRequest(s, large).value.value.body| <= small
  {
    hide ReadRequest;
    if Accepts(s, small) {
      FitsItsLimit(s, small);
    }
    LimitCanFall(s, small, large);
  }

  lemma FitsItsLimit(s: bytes, max: nat)
    requires Accepts(s, max)
    ensures |ReadRequest(s, max).value.value.body| <= max
  {
    var m := ReaderSound(s, max);
    hide ReadRequest, ValidHead, FramedAs, HeadersOf, Render;
  }

  lemma LimitCanFall(s: bytes, small: nat, large: nat)
    requires small <= large
    ensures ReadRequest(s, small) == ReadRequest(s, large) || ReadRequest(s, small) == Failed(TooLarge)
    ensures Accepts(s, large) ==>
              (ReadRequest(s, small) == Failed(TooLarge) <==> |ReadRequest(s, large).value.value.body| > small)
  {
    hide ReadHead, ReadChunks, IsChunked, ParseUsize, Trim;
    var head := ReadHead(s);
    if head.Done? && head.value.Some? && IsChunked(head.value.value) {
      ChunksLimit(head.rest, [], small, large);
    }
  }

  // ---- memory ----

  lemma {:induction false} ChunksDoNotPanic(s: bytes, body: bytes, max: nat)
    requires max <= ISIZE_MAX
    ensures ReadChunks(s, body, max) != Failed(Panic)
    decreases |s|
  {
    hide ReadHttpLine, ChunkSize, ReadTrailers, ReadChunkData;
    var step := ReadChunk(s, |body|, max);
    TrailersDoNotPanic();
    assert step != Failed(Panic) by { ChunkDoesNotPanic(s, |body|, max); }
    if step.Failed? || step.value.LastChunk? {
    } else {
      ChunksDoNotPanic(step.rest, body + step.value.data, max);
    }
  }

  lemma TrailersDoNotPanic()
    ensures forall s :: ReadTrailers(s) != Failed(Panic)
  {
    forall s
      ensures ReadTrailers(s) != Failed(Panic)
    {
      TrailersFailPlainly(s);
    }
  }

  lemma {:induction false} TrailersFailPlainly(s: bytes)
    ensures ReadTrailers(s) != Failed(Panic)
    decreases |s|
  {
    var next := ReadHttpLine(s);
    if next.Failed? || next.value.None? || next.value.value == "" {
    } else {
      TrailersFailPlainly(next.rest);
    }
  }

  lemma ChunkDoesNotPanic(s: bytes, have: nat, max: nat)
    requires max <= ISIZE_MAX
    ensures ReadChunk(s, have, max) != Failed(Panic)
  {
    hide ChunkSize, ReadTrailers;
    TrailersDoNotPanic();
  }

  lemma {:induction false} HeadersDoNotPanic(s: bytes, left: nat, used: nat, headers: Headers)
    ensures ReadHeaders(s, left, used, headers) != Failed(Panic)
    decreases left
  {
    hide ReadHeaderLine, AddField;
    if left == 0 {
    } else {
      var step := ReadHeaderLine(s, used);
      HeaderLineDoesNotPanic(s, used);
      if step.Done? && step.value.FieldLine? {
        HeadersDoNotPanic(step.rest, left - 1, step.value.used, AddField(headers, step.value.field));
      }
    }
  }

  lemma HeaderLineDoesNotPanic(s: bytes, used: nat)
    ensures ReadHeaderLine(s, used) != Failed(Panic)
  {
    hide ParseField, Encode;
  }

  lemma RequestDoesNotPanic(s: bytes, max: nat)
    requires max <= ISIZE_MAX
    ensures ReadRequest(s, max) != Failed(Panic)
  {
    hide ReadHttpLine, ReadHeaders, ReadChunks, ParseUsize, Trim, IsChunked, ValidRequestLine, Encode;
    var first := ReadHttpLine(s);
    if first.Done? && first.value.Some? {
      HeadersDoNotPanic(first.rest, MAX_HEADER_LINES, |Encode(first.value.value)|, map[]);
      var head := ReadHead(s);
      if head.Done? && head.value.Some? {
        ChunksDoNotPanic(head.rest, [], max);
      }
    }
  }

  // ---- writing a request ----

  function CrLfField(field: Field): Line {
    Line(FieldText(field), CrLf)
  }

  function FieldLines(fields: seq<Field>): seq<Line> {
    if fields == [] then [] else [CrLfField(fields[0])] + FieldLines(fields[1..])
  }

  predicate Sendable(field: Field) {
    ValidHeaderName(field.name) && CleanValue(field.value)
  }

  lemma ShortField(name: string, value: string)
    requires |name| + |value| <= 48
    ensures |Encode(FieldText(Field(name, value)))| <= 200
  {
    hide Encode;
    EncodeLength(FieldText(Field(name, value)));
  }

  function Lowered(fields: seq<Field>): seq<Field> {
    if fields == [] then [] else [Field(Lower(fields[0].name), fields[0].value)] + Lowered(fields[1..])
  }

  lemma {:induction false} FieldLinesAreValid(fields: seq<Field>)
    requires forall f :: f in fields ==> Sendable(f)
    ensures forall l :: l in FieldLines(fields) ==> ValidFieldLine(l)
    ensures |FieldLines(fields)| == |fields| && FieldsOf(FieldLines(fields)) == Lowered(fields)
  {
    hide ParseField, FieldText, CleanValue, ValidHeaderName, ValidFieldLine, FieldOf;
    if fields == [] {
    } else {
      var f := fields[0];
      assert Sendable(f) by { assert f in fields; }
      FieldTextIsOneLine(f);
      FieldTextParses(f.name, f.value);
      ReadAsField(CrLfField(f));
      FieldLinesAreValid(fields[1..]);
      assert FieldLines(fields)[1..] == FieldLines(fields[1..]);
    }
  }

  const REQUEST_LINE := "POST" + " " + "/call" + " " + "HTTP/1.1"

  lemma RequestLineIsValid()
    ensures SpellsStart(REQUEST_LINE) && ValidLine(Line(REQUEST_LINE, CrLf))
    ensures |Encode(REQUEST_LINE)| <= 76
  {
    hide Words, Encode, SpellsStart;
    ThreeWords("POST", "/call", "HTTP/1.1");
    StartIff(REQUEST_LINE);
    EncodeLength(REQUEST_LINE);
  }

  /** A head naming one header, as the tests and clients write it. */
  function SingleHead(field: Field): Message {
    Message(Line(REQUEST_LINE, CrLf), [CrLfField(field)], CrLf, NoBody)
  }

  lemma SingleHeadIsValid(field: Field)
    requires Sendable(field) && Lower(field.name) == field.name && |Encode(FieldText(field))| <= 65000
    ensures ValidHead(SingleHead(field)) && HeadersOf(SingleHead(field)) == map[field.name := field.value]
  {
    RequestLineIsValid();
    hide FieldText, SpellsStart, Encode, ValidLine, CleanValue, ValidHeaderName, ValidFieldLine, FieldsOf, Merged;
    var m := SingleHead(field);
    FieldLinesAreValid([field]);
    assert FieldLines([field]) == m.fields;
    assert Lowered([field]) == [field];
    assert TextBytes(m.fields) == |Encode(FieldText(field))|;
    SingleMerge(field);
  }

  lemma SingleMerge(field: Field)
    ensures Merged([field]) == map[field.name := field.value]
  {
    DistinctMerge([field]);
    assert field in [field];
  }

  /**
   No input makes the reader panic exactly when the limit fits a `Vec`; beyond that, one
   header announcing a body of 2^63 bytes does.
   */
  lemma NoPanicIff(max: nat)
    ensures (forall s :: ReadRequest(s, max) != Failed(Panic)) <==> max <= 0x7FFF_FFFF_FFFF_FFFF
  {
    if max <= ISIZE_MAX {
      forall s
        ensures ReadRequest(s, max) != Failed(Panic)
      {
        RequestDoesNotPanic(s, max);
      }
    } else {
      var s := AnnounceTooMuch(max);
    }
  }

  lemma AnnounceTooMuch(max: nat) returns (s: bytes)
    requires max > ISIZE_MAX
    ensures ReadRequest(s, max) == Failed(Panic)
  {
    hide ReadHead, RenderHead, ParseUsize, Numeral, Trim, Encode, CleanName, Lower, ValidHeaderName, ValidHead,
         HeadersOf;
    var n := ISIZE_MAX + 1;
    var field := Field("content-length", Decimal(n));
    LengthField(n);
    SingleHeadIsValid(field);
    HeadComplete(SingleHead(field), []);
    s := RenderHead(SingleHead(field)) + [];
    ParseOfNumeral(n, 10);
  }

  /** A `content-length` field announcing `n` bytes. */
  lemma LengthField(n: nat)
    requires n <= USIZE_MAX
    ensures var f := Field("content-length", Decimal(n));
            Sendable(f) && Lower(f.name) == f.name && |Encode(FieldText(f))| <= 200 && Trim(f.value) == f.value
  {
    hide Numeral, Encode, Trim, Lower;
    NumeralIsClean(n, 10);
    DecimalShort(n);
    TrimOfTrimmed(Decimal(n));
    LowerOfClean("content-length");
    EncodeLength(FieldText(Field("content-length", Decimal(n))));
  }

  // ---- header bounds ----

  /** The lines the header loop gets to look at before it runs out of turns. */
  function FirstLines(lines: seq<Line>, left: nat): seq<Line> {
    if |lines| <= left then lines else lines[..left]
  }

  /**
   A header section of individually valid lines is taken exactly when it has at most 127
   lines and its text fits the budget. Otherwise it is too large if the lines looked at are,
   and has too many lines if they are not.
   */
  lemma {:induction false} HeaderBoundsExact(
    lines: seq<Line>, end: Eol, tail: bytes, left: nat, used: nat, headers: Headers)
    requires forall l :: l in lines ==> ValidFieldLine(l)
    requires used <= MAX_HEADER_BYTES
    ensures ReadHeaders(RenderLines(lines) + (Blank(end) + tail), left, used, headers)
         == if used + TextBytes(FirstLines(lines, left)) > MAX_HEADER_BYTES then Failed(BadRequest("headers_too_large"))
            else if |lines| >= left then Failed(BadRequest("too_many_headers"))
            else Done(Collect(FieldsOf(lines), headers), tail)
    decreases |lines|
  {
    hide ReadHeaders, ParseField, Encode, Blank, AddField, RenderLine, ValidFieldLine;
    if left == 0 {
      NoLinesLeft(RenderLines(lines) + (Blank(end) + tail), used, headers);
    } else if lines == [] {
      HeadersComplete(lines, end, tail, left, used, headers);
    } else {
      var after := RenderLines(lines[1..]) + (Blank(end) + tail);
      var longer := used + |Encode(lines[0].text)|;
      Associate(RenderLine(lines[0]), RenderLines(lines[1..]), Blank(end) + tail);
      FirstLinesSplit(lines, left);
      if longer > MAX_HEADER_BYTES {
        LineOverBudget(lines[0], after, left, used, headers);
      } else {
        HeadersStep(lines[0], after, left, used, headers);
        HeaderBoundsExact(lines[1..], end, tail, left - 1, longer, AddField(headers, FieldOf(lines[0])));
        CollectStep(lines, headers);
      }
    }
  }

  lemma FirstLinesSplit(lines: seq<Line>, left: nat)
    requires lines != [] && left > 0
    ensures TextBytes(FirstLines(lines, left)) == |Encode(lines[0].text)| + TextBytes(FirstLines(lines[1..], left - 1))
  {
    hide Encode;
    assert FirstLines(lines, left)[1..] == FirstLines(lines[1..], left - 1);
  }

  lemma NoLinesLeft(s: bytes, used: nat, headers: Headers)
    ensures ReadHeaders(s, 0, used, headers) == Failed(BadRequest("too_many_headers"))
  {}

  lemma LineOverBudget(line: Line, after: bytes, left: nat, used: nat, headers: Headers)
    requires left > 0 && ValidFieldLine(line) && used + |Encode(line.text)| > MAX_HEADER_BYTES
    ensures ReadHeaders(RenderLine(line) + after, left, used, headers) == Failed(BadRequest("headers_too_large"))
  {
    hide ParseField, Encode, RenderLine, ReadHttpLine;
    LineComplete(line, after);
  }

  // ---- chunked encoding ----

  /** One chunk as a sender writes it: hexadecimal size, an extension, the data. */
  datatype Piece = Piece(data: bytes, extension: string)

  predicate ValidPiece(p: Piece) {
    && p.data != [] && |p.data| <= USIZE_MAX
    && '\n' !in p.extension && (p.extension == "" || p.extension[0] == ';')
  }

  function PieceChunk(p: Piece): DataChunk {
    DataChunk(Line(Numeral(|p.data|, 16) + p.extension, CrLf), p.data)
  }

  function PieceChunks(pieces: seq<Piece>): seq<DataChunk> {
    if pieces == [] then [] else [PieceChunk(pieces[0])] + PieceChunks(pieces[1..])
  }

  function PieceData(pieces: seq<Piece>): bytes {
    if pieces == [] then [] else pieces[0].data + PieceData(pieces[1..])
  }

  function EncodeChunked(pieces: seq<Piece>, trailers: seq<Line>): Body {
    Chunked(PieceChunks(pieces), Line("0", CrLf), trailers, CrLf)
  }

  lemma SizeLineReads(n: nat, extension: string)
    requires n <= USIZE_MAX && (extension == "" || extension[0] == ';')
    ensures SpellsSize(Numeral(n, 16) + extension, n)
  {
    NumeralIsClean(n, 16);
    NumeralSpells(n, 16);
    hide Numeral, SpellsNumber;
    assert SizeBy(Numeral(n, 16) + extension, Numeral(n, 16), extension);
  }

  lemma PieceIsValid(p: Piece)
    requires ValidPiece(p)
    ensures ValidChunk(PieceChunk(p))
  {
    hide SpellsSize, Numeral;
    SizeLineReads(|p.data|, p.extension);
    NumeralIsClean(|p.data|, 16);
  }

  lemma {:induction false} PiecesAreValid(pieces: seq<Piece>)
    requires forall p :: p in pieces ==> ValidPiece(p)
    ensures forall c :: c in PieceChunks(pieces) ==> ValidChunk(c)
    ensures Payload(PieceChunks(pieces)) == PieceData(pieces)
  {
    hide ValidPiece, ValidChunk, PieceChunk;
    if pieces == [] {
    } else {
      assert pieces[0] in pieces;
      PieceIsValid(pieces[0]);
      assert PieceChunk(pieces[0]).data == pieces[0].data by { PieceChunkData(pieces[0]); }
      PiecesAreValid(pieces[1..]);
      assert PieceChunks(pieces)[1..] == PieceChunks(pieces[1..]);
    }
  }

  lemma PieceChunkData(p: Piece)
    ensures PieceChunk(p).data == p.data
  {}

  lemma EncodedIsValid(pieces: seq<Piece>, trailers: seq<Line>)
    requires forall p :: p in pieces ==> ValidPiece(p)
    requires forall l :: l in trailers ==> ValidTrailer(l)
    ensures ValidChunked(EncodeChunked(pieces, trailers))
    ensures BodyOf(EncodeChunked(pieces, trailers)) == PieceData(pieces)
  {
    hide ValidPiece, ValidChunk, PieceChunks, SpellsSize, ValidTrailer;
    PiecesAreValid(pieces);
    ZeroSize();
  }

  lemma ZeroSize()
    ensures SpellsSize("0", 0) && ValidLine(Line("0", CrLf))
  {
    hide SpellsSize;
    SizeLineReads(0, "");
    assert Numeral(0, 16) + "" == "0";
  }

  /**
   Decoding undoes encoding for every split of the body, every extension and every trailer,
   and stops right after the final blank line, whatever follows.
   */
  lemma ChunkedRoundTrip(pieces: seq<Piece>, trailers: seq<Line>, tail: bytes, max: nat)
    requires forall p :: p in pieces ==> ValidPiece(p)
    requires forall l :: l in trailers ==> ValidTrailer(l)
    requires |PieceData(pieces)| <= max && |PieceData(pieces)| <= ISIZE_MAX
    ensures ReadChunks(RenderBody(EncodeChunked(pieces, trailers)) + tail, [], max)
         == Done(PieceData(pieces), tail)
  {
    EncodedIsValid(pieces, trailers);
    hide ReadChunks, RenderBody, ValidChunked, EncodeChunked;
    ChunkedComplete(EncodeChunked(pieces, trailers), tail, max);
  }

  // ---- what every accepted request satisfies ----

  /** Names are lower-case tokens and merged values stay trimmed and free of controls. */
  lemma AcceptedHeadersClean(s: bytes, max: nat)
    requires Accepts(s, max)
    ensures CleanHeaders(ReadRequest(s, max).value.value.headers)
  {
    var m := ReaderSound(s, max);
    hide ReadRequest, Merged, CleanField, Render, ValidFieldLine;
    FieldsAreClean(m.fields);
    MergedIsClean(FieldsOf(m.fields));
  }

  lemma {:induction false} FieldsAreClean(lines: seq<Line>)
    requires forall l :: l in lines ==> ValidFieldLine(l)
    ensures forall f :: f in FieldsOf(lines) ==> CleanField(f)
  {
    hide CleanField, ParseField, ValidFieldLine, FieldOf;
    if lines == [] {
    } else {
      assert ValidFieldLine(lines[0]);
      FieldLineIs(lines[0], FieldOf(lines[0]));
      ParsedIsClean(lines[0].text);
      FieldsAreClean(lines[1..]);
    }
  }

  /**
   Each accepted header is the comma-join, in arrival order, of the values of all the lines
   that carry its name in any letter case, and at most 127 lines and 65536 bytes were used.
   */
  lemma AcceptedHeadersMerged(s: bytes, max: nat) returns (start: Line, lines: seq<Line>, end: Eol)
    requires Accepts(s, max)
    ensures ValidLine(start) && SpellsStart(start.text)
    ensures forall l :: l in lines ==> ValidFieldLine(l)
    ensures RenderLine(start) + (RenderLines(lines) + Blank(end)) <= s
    ensures |lines| <= 127 && |Encode(start.text)| + TextBytes(lines) <= 65536
    ensures var headers := ReadRequest(s, max).value.value.headers;
            && headers.Keys == Names(FieldsOf(lines))
            && forall n :: n in headers ==> headers[n] == CommaJoin(Values(FieldsOf(lines), n))
  {
    var m := ReaderSound(s, max);
    hide ReadRequest, ValidFieldLine, ValidLine, FieldsOf, Blank, RenderLine, RenderLines, Values, CommaJoin, BodyOf,
         RenderBody, SpellsStart;
    start, lines, end := m.start, m.fields, m.end;
    Associate(RenderHead(m), RenderBody(m.body), ReadRequest(s, max).rest);
  }
}
