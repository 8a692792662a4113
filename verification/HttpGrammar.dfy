/**
 The messages the reader accepts, written as a grammar: a message is a start line, field
 lines, a blank line and a framed body, each line ended by LF or CR LF and spelled as
 `HttpSyntax` says, which owes nothing to the reader's scanning.  The reader is proved to
 accept exactly the renderings of well-formed messages (`ReaderComplete`, `ReaderSound`),
 whatever bytes follow them.
 */
module HttpGrammar {
  import opened Options
  import opened Text
  import opened Utf8
  import opened Numerals
  import opened HttpReader
  import opened HeaderFields
  import opened HttpSyntax

  datatype Eol = Lf | CrLf

  datatype Line = Line(text: string, eol: Eol)

  datatype DataChunk = DataChunk(head: Line, data: bytes)

  datatype Body =
    | NoBody
    | Fixed(data: bytes)
    | Chunked(chunks: seq<DataChunk>, last: Line, trailers: seq<Line>, end: Eol)

  datatype Message = Message(start: Line, fields: seq<Line>, end: Eol, body: Body)

  function EolText(eol: Eol): string {
    match eol
    case Lf => "\n"
    case CrLf => "\r\n"
  }

  function RenderLine(line: Line): bytes {
    Encode(line.text + EolText(line.eol))
  }

  function Blank(eol: Eol): bytes {
    RenderLine(Line("", eol))
  }

  function RenderLines(lines: seq<Line>): bytes {
    if lines == [] then [] else RenderLine(lines[0]) + RenderLines(lines[1..])
  }

  function RenderChunks(chunks: seq<DataChunk>): bytes {
    if chunks == [] then []
    else RenderLine(chunks[0].head) + (chunks[0].data + [RETURN, NEWLINE]) + RenderChunks(chunks[1..])
  }

  function RenderBody(body: Body): bytes {
    match body
    case NoBody => []
    case Fixed(data) => data
    case Chunked(chunks, last, trailers, end) =>
      RenderChunks(chunks) + (RenderLine(last) + (RenderLines(trailers) + Blank(end)))
  }

  function RenderHead(m: Message): bytes {
    RenderLine(m.start) + (RenderLines(m.fields) + Blank(m.end))
  }

  function Render(m: Message): bytes {
    RenderHead(m) + RenderBody(m.body)
  }

  /** No newline inside; and a CR before a bare LF belongs to the line end, not to the text. */
  predicate ValidLine(line: Line) {
    '\n' !in line.text && (line.eol.Lf? ==> !EndsWith(line.text, '\r'))
  }

  ghost predicate ValidFieldLine(line: Line) {
    ValidLine(line) && exists field :: SpellsField(line.text, field)
  }

  predicate ValidTrailer(line: Line) {
    ValidLine(line) && line.text != ""
  }

  ghost predicate ValidChunk(chunk: DataChunk) {
    ValidLine(chunk.head) && chunk.data != [] && SpellsSize(chunk.head.text, |chunk.data|)
  }

  /** The field a line spells; there is only one (`FieldLineIs`). */
  ghost function FieldOf(line: Line): (field: Field)
    requires ValidFieldLine(line)
    ensures SpellsField(line.text, field)
  {
    var field :| SpellsField(line.text, field);
    field
  }

  ghost function FieldsOf(lines: seq<Line>): seq<Field>
    requires forall l :: l in lines ==> ValidFieldLine(l)
  {
    if lines == [] then [] else [FieldOf(lines[0])] + FieldsOf(lines[1..])
  }

  function TextBytes(lines: seq<Line>): nat {
    if lines == [] then 0 else |Encode(lines[0].text)| + TextBytes(lines[1..])
  }

  function Payload(chunks: seq<DataChunk>): bytes {
    if chunks == [] then [] else chunks[0].data + Payload(chunks[1..])
  }

  function BodyOf(body: Body): bytes {
    match body
    case NoBody => []
    case Fixed(data) => data
    case Chunked(chunks, _, _, _) => Payload(chunks)
  }

  /** The head: three words ending in a 1.x version, valid fields, both bounds respected. */
  ghost predicate ValidHead(m: Message) {
    && ValidLine(m.start) && SpellsStart(m.start.text)
    && (forall l :: l in m.fields ==> ValidFieldLine(l))
    && |m.fields| < MAX_HEADER_LINES
    && |Encode(m.start.text)| + TextBytes(m.fields) <= MAX_HEADER_BYTES
  }

  ghost function HeadersOf(m: Message): Headers
    requires ValidHead(m)
  {
    Merged(FieldsOf(m.fields))
  }

  ghost predicate ValidChunked(body: Body) {
    && body.Chunked?
    && (forall c :: c in body.chunks ==> ValidChunk(c))
    && ValidLine(body.last) && SpellsSize(body.last.text, 0)
    && (forall l :: l in body.trailers ==> ValidTrailer(l))
  }

  /** The header map announces a chunked body (section 6.1 of RFC 9112). */
  ghost predicate AnnouncesChunks(headers: Headers) {
    "transfer-encoding" in headers && SaysChunked(headers["transfer-encoding"])
  }

  lemma AnnouncesIff(headers: Headers)
    ensures IsChunked(headers) <==> AnnouncesChunks(headers)
  {
    hide Lower, SaysChunked, Contains;
    if "transfer-encoding" in headers {
      SaysChunkedIff(headers["transfer-encoding"]);
    }
  }

  lemma PlainlyChunked(headers: Headers)
    requires "transfer-encoding" in headers && headers["transfer-encoding"] == "chunked"
    ensures AnnouncesChunks(headers)
  {
    var word := "chunked";
    LowerOfClean(word);
    hide Lower;
    assert "" + word + "" == word;
    assert ChunkedBy(word, "", word, "");
  }

  /** The body is framed as the header map announces it (section 6.3 of RFC 9112). */
  ghost predicate FramedAs(body: Body, headers: Headers) {
    if AnnouncesChunks(headers) then ValidChunked(body)
    else if "content-length" in headers then
      body.Fixed? && SpellsNumber(headers["content-length"], |body.data|, 10)
    else body.NoBody?
  }

  ghost predicate WellFormed(m: Message, max: nat) {
    && ValidHead(m) && FramedAs(m.body, HeadersOf(m))
    && |BodyOf(m.body)| <= max && |BodyOf(m.body)| <= ISIZE_MAX
  }

  ghost function Denote(m: Message): ParsedRequest
    requires ValidHead(m)
  {
    ParsedRequest(HeadersOf(m), BodyOf(m.body))
  }

  // ---- one line ----

  lemma RenderedLine(line: Line)
    requires ValidLine(line)
    ensures var b := RenderLine(line);
            |b| > 0 && b[|b| - 1] == NEWLINE && NEWLINE !in b[..|b| - 1]
    ensures Decode(RenderLine(line)) == Some(line.text + EolText(line.eol))
    ensures StripEol(line.text + EolText(line.eol)) == line.text
  {
    var y := if line.eol.Lf? then line.text else line.text + "\r";
    var x := line.text + EolText(line.eol);
    assert x == y + "\n";
    assert x[..|x| - 1] == y;
    assert '\n' !in y;
    EncodeConcat(y, "\n");
    EncodeAscii('\n');
    AsciiByte(y, '\n');
    assert Encode(x)[..|Encode(x)| - 1] == Encode(y);
    DecodeOfEncode(x);
    assert line.eol.CrLf? ==> y[..|y| - 1] == line.text;
  }

  lemma LineComplete(line: Line, tail: bytes)
    requires ValidLine(line)
    ensures ReadHttpLine(RenderLine(line) + tail) == Done(Some(line.text), tail)
  {
    RenderedLine(line);
    var b := RenderLine(line);
    var s := b + tail;
    assert forall i :: 0 <= i < |b| - 1 ==> s[i] == b[..|b| - 1][i];
    LineLengthIs(s, |b|);
    assert s[..|b|] == b && s[|b|..] == tail;
  }

  lemma SplitEol(x: string) returns (line: Line)
    requires EndsWith(x, '\n') && '\n' !in x[..|x| - 1]
    ensures ValidLine(line) && line.text + EolText(line.eol) == x
  {
    var y := x[..|x| - 1];
    if EndsWith(y, '\r') {
      line := Line(y[..|y| - 1], CrLf);
    } else {
      line := Line(y, Lf);
    }
  }

  /** Bytes that end in their only newline are the rendering of the line they read as. */
  lemma RawLineSound(raw: bytes) returns (line: Line)
    requires raw != [] && raw[|raw| - 1] == NEWLINE && NEWLINE !in raw[..|raw| - 1] && Decode(raw).Some?
    ensures ValidLine(line) && RenderLine(line) == raw
  {
    var x := Decode(raw).value;
    EncodeOfDecode(raw);
    EncodeEnds(x, '\n');
    var y := x[..|x| - 1];
    assert Encode(y) == raw[..|raw| - 1];
    AsciiByte(y, '\n');
    line := SplitEol(x);
  }

  /** A line that came out empty, or was followed by more, did end in a newline. */
  lemma Terminated(s: bytes)
    requires var r := ReadHttpLine(s); r.Done? && r.value.Some? && (r.rest != [] || r.value.value == "")
    ensures s[LineLength(s) - 1] == NEWLINE
  {
    var raw := s[..LineLength(s)];
    var x := Decode(raw).value;
    EncodeOfDecode(raw);
    if EndsWith(x, '\n') {
      EncodeEnds(x, '\n');
    }
  }

  /** A line that was read and is not the unterminated end of the stream was rendered. */
  lemma LineSound(s: bytes) returns (line: Line)
    requires var r := ReadHttpLine(s); r.Done? && r.value.Some? && (r.rest != [] || r.value.value == "")
    ensures ValidLine(line) && ReadHttpLine(s).value == Some(line.text)
    ensures s == RenderLine(line) + ReadHttpLine(s).rest
  {
    Terminated(s);
    line := EndedLineSound(s);
  }

  lemma EndedLineSound(s: bytes) returns (line: Line)
    requires ReadHttpLine(s).Done? && ReadHttpLine(s).value.Some? && s[LineLength(s) - 1] == NEWLINE
    ensures ValidLine(line) && ReadHttpLine(s).value == Some(line.text)
    ensures s == RenderLine(line) + ReadHttpLine(s).rest
  {
    var n := LineLength(s);
    line := RawLineSound(s[..n]);
    assert s == s[..n] + s[n..];
    LineComplete(line, s[n..]);
  }

  // ---- the header section ----

  lemma {:induction false} HeadersComplete(
    lines: seq<Line>, end: Eol, tail: bytes, left: nat, used: nat, headers: Headers)
    requires forall l :: l in lines ==> ValidFieldLine(l)
    requires |lines| < left && used + TextBytes(lines) <= MAX_HEADER_BYTES
    ensures ReadHeaders(RenderLines(lines) + (Blank(end) + tail), left, used, headers)
         == Done(Collect(FieldsOf(lines), headers), tail)
    decreases |lines|
  {
    hide ReadHeaders, AddField, ParseField, Encode, Blank;
    var close := Blank(end) + tail;
    if lines == [] {
      assert RenderLines(lines) + close == close;
      BlankRead(end, tail, left, used, headers);
    } else {
      var after := RenderLines(lines[1..]) + close;
      Associate(RenderLine(lines[0]), RenderLines(lines[1..]), close);
      HeadersStep(lines[0], after, left, used, headers);
      HeadersComplete(lines[1..], end, tail, left - 1, used + |Encode(lines[0].text)|,
                      AddField(headers, FieldOf(lines[0])));
      CollectStep(lines, headers);
    }
  }

  lemma Associate(a: bytes, b: bytes, c: bytes)
    ensures a + b + c == a + (b + c)
  {}

  lemma BlankRead(end: Eol, tail: bytes, left: nat, used: nat, headers: Headers)
    requires left > 0 && used <= MAX_HEADER_BYTES
    ensures ReadHeaders(Blank(end) + tail, left, used, headers) == Done(headers, tail)
  {
    LineComplete(Line("", end), tail);
  }

  lemma HeadersStep(line: Line, after: bytes, left: nat, used: nat, headers: Headers)
    requires ValidFieldLine(line) && left > 0 && used + |Encode(line.text)| <= MAX_HEADER_BYTES
    ensures ReadHeaders(RenderLine(line) + after, left, used, headers)
         == ReadHeaders(after, left - 1, used + |Encode(line.text)|, AddField(headers, FieldOf(line)))
  {
    hide ReadHeaderLine, AddField, ParseField, Decode, Encode;
    FieldLineRead(line, after, used);
  }

  lemma CollectStep(lines: seq<Line>, headers: Headers)
    requires lines != [] && forall l :: l in lines ==> ValidFieldLine(l)
    ensures Collect(FieldsOf(lines), headers) == Collect(FieldsOf(lines[1..]), AddField(headers, FieldOf(lines[0])))
  {
    assert FieldsOf(lines)[1..] == FieldsOf(lines[1..]);
  }

  /** A valid line reads as the one field it spells. */
  lemma FieldLineIs(line: Line, field: Field)
    requires ValidFieldLine(line)
    ensures ParseField(line.text) == Parsed(FieldOf(line))
    ensures SpellsField(line.text, field) ==> field == FieldOf(line)
  {
    hide ParseField, SpellsField;
    ParsesIff(line.text, FieldOf(line));
    ParsesIff(line.text, field);
  }

  lemma ReadAsField(line: Line)
    requires ValidLine(line) && ParseField(line.text).Parsed?
    ensures ValidFieldLine(line) && FieldOf(line) == ParseField(line.text).field
  {
    hide ParseField, SpellsField;
    var field := ParseField(line.text).field;
    ParsesIff(line.text, field);
    FieldLineIs(line, field);
  }

  lemma FieldLineRead(line: Line, after: bytes, used: nat)
    requires ValidFieldLine(line) && used + |Encode(line.text)| <= MAX_HEADER_BYTES
    ensures ReadHeaderLine(RenderLine(line) + after, used)
         == Done(FieldLine(FieldOf(line), used + |Encode(line.text)|), after)
  {
    hide ReadHttpLine, ParseField, Encode, RenderLine, ValidLine, ReadHeaderLine, SpellsField;
    FieldLineIs(line, FieldOf(line));
    FieldIsNotBlank(line.text);
    LineComplete(line, after);
    FieldTextRead(RenderLine(line) + after, line.text, after, used);
  }

  lemma FieldTextRead(s: bytes, text: string, after: bytes, used: nat)
    requires ReadHttpLine(s) == Done(Some(text), after) && text != ""
    requires ParseField(text).Parsed? && used + |Encode(text)| <= MAX_HEADER_BYTES
    ensures ReadHeaderLine(s, used) == Done(FieldLine(ParseField(text).field, used + |Encode(text)|), after)
  {
    hide ReadHttpLine, ParseField, Encode;
  }

  lemma FieldIsNotBlank(text: string)
    requires ParseField(text).Parsed?
    ensures text != ""
  {}

  lemma {:induction false} HeadersSound(s: bytes, left: nat, used: nat, headers: Headers)
    returns (lines: seq<Line>, end: Eol)
    requires ReadHeaders(s, left, used, headers).Done?
    ensures forall l :: l in lines ==> ValidFieldLine(l)
    ensures |lines| < left && (used <= MAX_HEADER_BYTES ==> used + TextBytes(lines) <= MAX_HEADER_BYTES)
    ensures var r := ReadHeaders(s, left, used, headers);
            s == RenderLines(lines) + (Blank(end) + r.rest) && r.value == Collect(FieldsOf(lines), headers)
    decreases left
  {
    hide ReadHeaderLine, AddField, ParseField, Encode, Blank;
    var step := ReadHeaderLine(s, used);
    if step.value.EndOfHeaders? {
      var line := BlankSound(s, used);
      lines, end := [], line.eol;
      assert RenderLines([]) + (Blank(end) + step.rest) == Blank(end) + step.rest;
    } else {
      var field, total := step.value.field, step.value.used;
      ReadsOn(step.rest, left - 1, total, AddField(headers, field));
      var line := FieldLineSound(s, used);
      var more;
      more, end := HeadersSound(step.rest, left - 1, total, AddField(headers, field));
      lines := PrependLine(line, more);
      var after := Blank(end) + ReadHeaders(s, left, used, headers).rest;
      Associate(RenderLine(line), RenderLines(more), after);
      CollectStep(lines, headers);
    }
  }

  lemma PrependLine(line: Line, more: seq<Line>) returns (lines: seq<Line>)
    requires ValidFieldLine(line) && forall l :: l in more ==> ValidFieldLine(l)
    ensures lines == [line] + more && lines[1..] == more
    ensures forall l :: l in lines ==> ValidFieldLine(l)
    ensures RenderLines(lines) == RenderLine(line) + RenderLines(more)
    ensures TextBytes(lines) == |Encode(line.text)| + TextBytes(more)
  {
    lines := [line] + more;
    assert lines[1..] == more;
  }

  lemma BlankSound(s: bytes, used: nat) returns (line: Line)
    requires var r := ReadHeaderLine(s, used); r.Done? && r.value.EndOfHeaders?
    ensures line.text == "" && s == Blank(line.eol) + ReadHeaderLine(s, used).rest
  {
    line := LineSound(s);
  }

  lemma FieldLineSound(s: bytes, used: nat) returns (line: Line)
    requires var r := ReadHeaderLine(s, used); r.Done? && r.value.FieldLine? && r.rest != []
    ensures ValidFieldLine(line)
    ensures var r := ReadHeaderLine(s, used);
            && s == RenderLine(line) + r.rest && r.value.field == FieldOf(line)
            && r.value.used == used + |Encode(line.text)| <= MAX_HEADER_BYTES
  {
    hide ReadHttpLine, ParseField, Encode, ValidFieldLine, FieldOf, RenderLine, ValidLine;
    line := LineSound(s);
    ReadAsField(line);
  }

  lemma ReadsOn(s: bytes, left: nat, used: nat, headers: Headers)
    requires ReadHeaders(s, left, used, headers).Done?
    ensures s != []
  {}

  // ---- the chunked body (section 7.1 of RFC 9112) ----

  lemma {:induction false} TrailersComplete(lines: seq<Line>, end: Eol, tail: bytes)
    requires forall l :: l in lines ==> ValidTrailer(l)
    ensures ReadTrailers(RenderLines(lines) + (Blank(end) + tail)) == Done((), tail)
  {
    hide ReadHttpLine, Encode, EolText;
    var close := Blank(end) + tail;
    if lines == [] {
      assert RenderLines(lines) + close == close;
      LineComplete(Line("", end), tail);
    } else {
      var after := RenderLines(lines[1..]) + close;
      Associate(RenderLine(lines[0]), RenderLines(lines[1..]), close);
      assert lines[0] in lines && ValidTrailer(lines[0]);
      LineComplete(lines[0], after);
      TrailersComplete(lines[1..], end, tail);
    }
  }

  lemma {:induction false} TrailersSound(s: bytes) returns (lines: seq<Line>, end: Eol)
    requires ReadTrailers(s).Done?
    ensures forall l :: l in lines ==> ValidTrailer(l)
    ensures s == RenderLines(lines) + (Blank(end) + ReadTrailers(s).rest)
    decreases |s|
  {
    hide ReadHttpLine, Encode, EolText;
    var next := ReadHttpLine(s);
    if next.value.value == "" {
      var line := LineSound(s);
      lines, end := [], line.eol;
      assert RenderLines([]) + (Blank(end) + next.rest) == Blank(end) + next.rest;
    } else {
      TrailersReadOn(next.rest);
      var line := LineSound(s);
      var more;
      more, end := TrailersSound(next.rest);
      lines := [line] + more;
      assert lines[1..] == more;
      Associate(RenderLine(line), RenderLines(more), Blank(end) + ReadTrailers(s).rest);
    }
  }

  lemma TrailersReadOn(s: bytes)
    requires ReadTrailers(s).Done?
    ensures s != []
  {}

  lemma ChunkDataComplete(data: bytes, tail: bytes)
    ensures ReadChunkData(data + [RETURN, NEWLINE] + tail, |data|) == Done(data, tail)
  {
    var end: bytes := [RETURN, NEWLINE];
    Associate(data, end, tail);
    assert (data + (end + tail))[..|data|] == data && (data + (end + tail))[|data|..] == end + tail;
    assert (end + tail)[..2] == end && (end + tail)[2..] == tail;
  }

  lemma ChunkDataSound(s: bytes, size: nat)
    requires ReadChunkData(s, size).Done?
    ensures var r := ReadChunkData(s, size);
            |r.value| == size && s == r.value + [RETURN, NEWLINE] + r.rest
  {
    var data := ReadExact(s, size);
    assert s == data.value + data.rest;
    assert data.rest == data.rest[..2] + data.rest[2..];
    Associate(data.value, [RETURN, NEWLINE], data.rest[2..]);
  }

  lemma ChunkComplete(chunk: DataChunk, tail: bytes, have: nat, max: nat)
    requires ValidChunk(chunk) && have + |chunk.data| <= max && have + |chunk.data| <= ISIZE_MAX
    ensures ReadChunk(RenderLine(chunk.head) + (chunk.data + [RETURN, NEWLINE]) + tail, have, max)
         == Done(Chunk(chunk.data), tail)
  {
    hide ReadHttpLine, ChunkSize, ReadChunkData, Encode, EolText, ReadTrailers;
    SizeIff(chunk.head.text, |chunk.data|);
    hide SpellsSize;
    var data := chunk.data + [RETURN, NEWLINE];
    Associate(RenderLine(chunk.head), data, tail);
    LineComplete(chunk.head, data + tail);
    ChunkDataComplete(chunk.data, tail);
  }

  lemma LastChunkComplete(last: Line, trailers: seq<Line>, end: Eol, tail: bytes, have: nat, max: nat)
    requires ValidLine(last) && SpellsSize(last.text, 0)
    requires forall l :: l in trailers ==> ValidTrailer(l)
    ensures ReadChunk(RenderLine(last) + (RenderLines(trailers) + Blank(end)) + tail, have, max)
         == Done(LastChunk, tail)
  {
    hide ReadHttpLine, ChunkSize, ReadChunkData, Encode, EolText, ReadTrailers;
    SizeIff(last.text, 0);
    hide SpellsSize;
    Associate(RenderLine(last), RenderLines(trailers) + Blank(end), tail);
    Associate(RenderLines(trailers), Blank(end), tail);
    LineComplete(last, RenderLines(trailers) + (Blank(end) + tail));
    TrailersComplete(trailers, end, tail);
  }

  lemma {:induction false} ChunksComplete(
    chunks: seq<DataChunk>, last: Line, trailers: seq<Line>, end: Eol, tail: bytes, body: bytes, max: nat)
    requires ValidChunked(Chunked(chunks, last, trailers, end))
    requires |body| + |Payload(chunks)| <= max && |body| + |Payload(chunks)| <= ISIZE_MAX
    ensures ReadChunks(RenderBody(Chunked(chunks, last, trailers, end)) + tail, body, max)
         == Done(body + Payload(chunks), tail)
    decreases |chunks|
  {
    hide ReadChunk, SpellsSize, ValidChunk, ValidTrailer, RenderLine, RenderLines, ValidLine, Blank;
    var close := RenderLine(last) + (RenderLines(trailers) + Blank(end));
    if chunks == [] {
      assert RenderChunks(chunks) + close == close;
      assert body + Payload(chunks) == body;
      LastChunkComplete(last, trailers, end, tail, |body|, max);
    } else {
      var first := RenderLine(chunks[0].head) + (chunks[0].data + [RETURN, NEWLINE]);
      Associate(first, RenderChunks(chunks[1..]), close);
      Associate(first, RenderChunks(chunks[1..]) + close, tail);
      var after := RenderChunks(chunks[1..]) + close + tail;
      assert chunks[0] in chunks;
      ChunkComplete(chunks[0], after, |body|, max);
      Associate(body, chunks[0].data, Payload(chunks[1..]));
      ChunksComplete(chunks[1..], last, trailers, end, tail, body + chunks[0].data, max);
    }
  }

  lemma ChunkSound(s: bytes, have: nat, max: nat) returns (chunk: DataChunk)
    requires var r := ReadChunk(s, have, max); r.Done? && r.value.Chunk?
    ensures ValidChunk(chunk) && ReadChunk(s, have, max).value == Chunk(chunk.data)
    ensures have + |chunk.data| <= max && have + |chunk.data| <= ISIZE_MAX
    ensures s == RenderLine(chunk.head) + (chunk.data + [RETURN, NEWLINE]) + ReadChunk(s, have, max).rest
  {
    hide ReadHttpLine, ChunkSize, ReadChunkData, Encode, EolText, ReadTrailers;
    var next := ReadHttpLine(s);
    var size := ChunkSize(next.value.value).value;
    ChunkDataSound(next.rest, size);
    var data := ReadChunkData(next.rest, size);
    var head := LineSound(s);
    SizeIff(head.text, size);
    hide SpellsSize;
    chunk := DataChunk(head, data.value);
    Associate(RenderLine(head), data.value + [RETURN, NEWLINE], data.rest);
  }

  lemma LastChunkSound(s: bytes, have: nat, max: nat) returns (last: Line, trailers: seq<Line>, end: Eol)
    requires var r := ReadChunk(s, have, max); r.Done? && r.value.LastChunk?
    ensures ValidLine(last) && SpellsSize(last.text, 0)
    ensures forall l :: l in trailers ==> ValidTrailer(l)
    ensures s == RenderLine(last) + (RenderLines(trailers) + Blank(end)) + ReadChunk(s, have, max).rest
  {
    hide ReadHttpLine, ChunkSize, ReadChunkData, Encode, EolText, ReadTrailers;
    var next := ReadHttpLine(s);
    TrailersReadOn(next.rest);
    last := LineSound(s);
    SizeIff(last.text, 0);
    hide SpellsSize;
    trailers, end := TrailersSound(next.rest);
    var rest := ReadChunk(s, have, max).rest;
    Associate(RenderLines(trailers), Blank(end), rest);
    Associate(RenderLine(last), RenderLines(trailers) + Blank(end), rest);
  }

  lemma {:induction false} ChunksSound(s: bytes, body: bytes, max: nat) returns (m: Body)
    requires ReadChunks(s, body, max).Done? && |body| <= max && |body| <= ISIZE_MAX
    ensures ValidChunked(m)
    ensures |body| + |BodyOf(m)| <= max && |body| + |BodyOf(m)| <= ISIZE_MAX
    ensures var r := ReadChunks(s, body, max); s == RenderBody(m) + r.rest && r.value == body + BodyOf(m)
    decreases |s|
  {
    hide ReadChunk, SpellsSize, ValidChunk, ValidTrailer, RenderLine, RenderLines, ValidLine, Blank;
    var step := ReadChunk(s, |body|, max);
    if step.value.LastChunk? {
      var last, trailers, end := LastChunkSound(s, |body|, max);
      m := Chunked([], last, trailers, end);
      assert RenderBody(m) == RenderLine(last) + (RenderLines(trailers) + Blank(end));
      assert body + Payload([]) == body;
    } else {
      var chunk := ChunkSound(s, |body|, max);
      var more := ChunksSound(step.rest, body + chunk.data, max);
      m := PrependChunk(chunk, more);
      Associate(body, chunk.data, BodyOf(more));
      Associate(RenderLine(chunk.head) + (chunk.data + [RETURN, NEWLINE]), RenderBody(more),
                ReadChunks(s, body, max).rest);
    }
  }

  lemma PrependChunk(chunk: DataChunk, more: Body) returns (m: Body)
    requires ValidChunk(chunk) && ValidChunked(more)
    ensures ValidChunked(m) && BodyOf(m) == chunk.data + BodyOf(more)
    ensures RenderBody(m) == RenderLine(chunk.head) + (chunk.data + [RETURN, NEWLINE]) + RenderBody(more)
  {
    hide SpellsSize, ValidChunk, ValidTrailer, RenderLine, RenderLines, ValidLine, Blank;
    m := more.(chunks := [chunk] + more.chunks);
    assert m.chunks[1..] == more.chunks;
    Associate(RenderLine(chunk.head) + (chunk.data + [RETURN, NEWLINE]), RenderChunks(more.chunks),
              RenderLine(more.last) + (RenderLines(more.trailers) + Blank(more.end)));
  }

  // ---- the whole message ----

  lemma HeadComplete(m: Message, tail: bytes)
    requires ValidHead(m)
    ensures ReadHead(RenderHead(m) + tail) == Done(Some(HeadersOf(m)), tail)
  {
    hide ReadHttpLine, ReadHeaders, ValidRequestLine, ValidFieldLine, Collect, Merged, Encode, RenderLine, Blank,
         ValidLine;
    var section := RenderLines(m.fields) + Blank(m.end);
    Associate(RenderLine(m.start), section, tail);
    Associate(RenderLines(m.fields), Blank(m.end), tail);
    LineComplete(m.start, section + tail);
    StartIff(m.start.text);
    hide SpellsStart;
    HeadersComplete(m.fields, m.end, tail, MAX_HEADER_LINES, |Encode(m.start.text)|, map[]);
    CollectIsMerged(FieldsOf(m.fields));
  }

  lemma HeadSound(s: bytes) returns (m: Message)
    requires ReadHead(s).Done? && ReadHead(s).value.Some?
    ensures ValidHead(m) && HeadersOf(m) == ReadHead(s).value.value
    ensures s == RenderHead(m) + ReadHead(s).rest
  {
    hide ReadHttpLine, ReadHeaders, ValidRequestLine, ValidFieldLine, Collect, Merged, Encode, RenderLine, Blank,
         ValidLine;
    var first := ReadHttpLine(s);
    var used := |Encode(first.value.value)|;
    ReadsOn(first.rest, MAX_HEADER_LINES, used, map[]);
    var start := LineSound(s);
    StartIff(start.text);
    hide SpellsStart;
    var fields, end := HeadersSound(first.rest, MAX_HEADER_LINES, used, map[]);
    CollectIsMerged(FieldsOf(fields));
    m := Message(start, fields, end, NoBody);
    var rest := ReadHead(s).rest;
    Associate(RenderLines(fields), Blank(end), rest);
    Associate(RenderLine(start), RenderLines(fields) + Blank(end), rest);
  }

  lemma BodyComplete(body: Body, headers: Headers, tail: bytes, max: nat)
    requires FramedAs(body, headers) && |BodyOf(body)| <= max && |BodyOf(body)| <= ISIZE_MAX
    ensures ReadBody(RenderBody(body) + tail, headers, max) == Done(BodyOf(body), tail)
  {
    hide IsChunked, AnnouncesChunks, ReadChunks, ValidChunked, ReadSized, SpellsNumber;
    AnnouncesIff(headers);
    if IsChunked(headers) {
      ChunkedComplete(body, tail, max);
    } else if "content-length" in headers {
      SizedComplete(body.data, headers["content-length"], tail, max);
    } else {
      assert [] + tail == tail;
    }
  }

  lemma SizedComplete(data: bytes, text: string, tail: bytes, max: nat)
    requires SpellsNumber(text, |data|, 10) && |data| <= max && |data| <= ISIZE_MAX
    ensures ReadSized(data + tail, text, max) == Done(data, tail)
  {
    hide ParseUsize, Trim, SpellsNumber;
    NumberIff(text, |data|, 10);
    assert (data + tail)[..|data|] == data && (data + tail)[|data|..] == tail;
  }

  lemma ChunkedComplete(body: Body, tail: bytes, max: nat)
    requires ValidChunked(body) && |BodyOf(body)| <= max && |BodyOf(body)| <= ISIZE_MAX
    ensures ReadChunks(RenderBody(body) + tail, [], max) == Done(BodyOf(body), tail)
  {
    hide ReadChunks, RenderBody, ValidLine, ValidTrailer, ValidChunk, SpellsSize;
    ChunksComplete(body.chunks, body.last, body.trailers, body.end, tail, [], max);
    assert [] + Payload(body.chunks) == Payload(body.chunks);
  }

  lemma BodySound(s: bytes, headers: Headers, max: nat) returns (body: Body)
    requires ReadBody(s, headers, max).Done?
    ensures FramedAs(body, headers) && |BodyOf(body)| <= max && |BodyOf(body)| <= ISIZE_MAX
    ensures var r := ReadBody(s, headers, max); s == RenderBody(body) + r.rest && r.value == BodyOf(body)
  {
    hide IsChunked, AnnouncesChunks, ReadChunks, ValidChunked, ParseUsize, Trim, SpellsNumber, RenderLine,
         RenderLines, RenderChunks, Blank;
    AnnouncesIff(headers);
    if IsChunked(headers) {
      body := ChunksSound(s, [], max);
      assert [] + BodyOf(body) == BodyOf(body);
    } else if "content-length" in headers {
      var r := ReadBody(s, headers, max);
      body := Fixed(r.value);
      NumberIff(headers["content-length"], |r.value|, 10);
      assert s == r.value + r.rest;
    } else {
      body := NoBody;
      assert [] + s == s;
    }
  }

  /** Every well-formed message is accepted, and the reader stops exactly at its end. */
  lemma ReaderComplete(m: Message, tail: bytes, max: nat)
    requires WellFormed(m, max)
    ensures ReadRequest(Render(m) + tail, max) == Done(Some(Denote(m)), tail)
  {
    hide ReadHead, ReadBody, RenderHead, RenderBody, ValidHead, FramedAs, HeadersOf, BodyOf;
    Associate(RenderHead(m), RenderBody(m.body), tail);
    HeadComplete(m, RenderBody(m.body) + tail);
    BodyComplete(m.body, HeadersOf(m), tail, max);
  }

  /** Every accepted request is a well-formed message followed by the bytes left unread. */
  lemma ReaderSound(s: bytes, max: nat) returns (m: Message)
    requires var r := ReadRequest(s, max); r.Done? && r.value.Some?
    ensures WellFormed(m, max)
    ensures s == Render(m) + ReadRequest(s, max).rest && ReadRequest(s, max).value == Some(Denote(m))
  {
    var head := HeadSound(s);
    hide ReadHead, ReadBody, FramedAs, HeadersOf, BodyOf, RenderHead, RenderBody;
    var after := ReadHead(s).rest;
    var body := BodySound(after, HeadersOf(head), max);
    m := WithBody(head, body);
    Associate(RenderHead(m), RenderBody(body), ReadRequest(s, max).rest);
  }

  lemma WithBody(head: Message, body: Body) returns (m: Message)
    requires ValidHead(head)
    ensures m == head.(body := body)
    ensures ValidHead(m) && HeadersOf(m) == HeadersOf(head) && RenderHead(m) == RenderHead(head)
  {
    hide RenderLine, RenderLines, Blank, Merged, FieldsOf, SpellsStart, ValidFieldLine, ValidLine;
    m := head.(body := body);
  }

  ghost predicate Denotes(m: Message, max: nat, request: ParsedRequest) {
    WellFormed(m, max) && Denote(m) == request
  }

  /** The reader's language, both ways: accepted if and only if some message denotes it. */
  lemma ReaderExact(s: bytes, max: nat, request: ParsedRequest, rest: bytes)
    ensures ReadRequest(s, max) == Done(Some(request), rest)
       <==> exists m :: Denotes(m, max, request) && s == Render(m) + rest
  {
    hide ReadRequest, WellFormed, Denote, Render;
    if ReadRequest(s, max) == Done(Some(request), rest) {
      var m := ReaderSound(s, max);
      assert Denotes(m, max, request);
    } else if exists m :: Denotes(m, max, request) && s == Render(m) + rest {
      var m :| Denotes(m, max, request) && s == Render(m) + rest;
      ReaderComplete(m, rest, max);
    }
  }
}
