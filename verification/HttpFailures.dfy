/**
 The inputs that end in an I/O error, and so in outer status 502: exactly those that break
 off inside announced data, or reach a line that is not UTF-8.
 */
module HttpFailures {
  import opened Options
  import opened Text
  import opened Utf8
  import opened Numerals
  import opened HttpReader
  import opened HeaderFields
  import opened HttpSyntax
  import opened HttpGrammar
  import opened HttpFraming

  /** How far a broken input got before it broke. */
  datatype Broken =
    | AtStart
    | AtField(start: Line, fields: seq<Line>)
    | InBody(head: Message)
    | AtSizeLine(head: Message, chunks: seq<DataChunk>)
    | InChunk(head: Message, chunks: seq<DataChunk>, size: Line)
    | AfterSize(head: Message, chunks: seq<DataChunk>, text: string)
    | AtTrailer(head: Message, chunks: seq<DataChunk>, last: Line, trailers: seq<Line>)

  /** The bytes before the break. */
  function Prefix(b: Broken): bytes {
    match b
    case AtStart => []
    case AtField(start, fields) => RenderLine(start) + RenderLines(fields)
    case InBody(head) => RenderHead(head)
    case AtSizeLine(head, chunks) => RenderHead(head) + RenderChunks(chunks)
    case InChunk(head, chunks, size) => RenderHead(head) + (RenderChunks(chunks) + RenderLine(size))
    case AfterSize(head, chunks, text) => RenderHead(head) + (RenderChunks(chunks) + Encode(text))
    case AtTrailer(head, chunks, last, trailers) =>
      RenderHead(head) + (RenderChunks(chunks) + (RenderLine(last) + RenderLines(trailers)))
  }

  /** The next line is there but is not UTF-8. */
  predicate Undecodable(after: bytes) {
    after != [] && Decode(after[..LineLength(after)]).None?
  }

  ghost predicate ChunksSoFar(head: Message, chunks: seq<DataChunk>, max: nat) {
    && ValidHead(head) && AnnouncesChunks(HeadersOf(head))
    && (forall c :: c in chunks ==> ValidChunk(c))
    && |Payload(chunks)| <= max && |Payload(chunks)| <= ISIZE_MAX
  }

  /** A positive size whose data the limits would allow. */
  ghost predicate Wants(text: string, have: nat, max: nat) {
    exists size: nat :: SpellsSize(text, size) && Fits(size, have, max)
  }

  predicate Fits(size: nat, have: nat, max: nat) {
    0 < size && have + size <= max && have + size <= ISIZE_MAX
  }

  /** The stream ends in a size line that has no newline. */
  ghost predicate UnendedSize(text: string, after: bytes, have: nat, max: nat) {
    text != "" && '\n' !in text && after == [] && Wants(text, have, max)
  }

  /** The stream ends before the chunk's data and terminator do. */
  ghost predicate ShortOf(text: string, after: bytes) {
    exists size: nat :: SpellsSize(text, size) && |after| < size + 2
  }

  ghost predicate ShortBody(text: string, after: bytes, max: nat) {
    exists length: nat :: SpellsNumber(text, length, 10) && |after| < length && length <= max && length <= ISIZE_MAX
  }

  /** The same about the numbers the reader computes. */
  lemma SizeRead(text: string, after: bytes, have: nat, max: nat)
    ensures Wants(text, have, max) <==> ChunkSize(text).Some? && Fits(ChunkSize(text).value, have, max)
    ensures ShortOf(text, after) <==> ChunkSize(text).Some? && |after| < ChunkSize(text).value + 2
  {
    hide ChunkSize, SpellsSize, Fits;
    forall size: nat
      ensures SpellsSize(text, size) <==> ChunkSize(text) == Some(size)
    {
      SizeIff(text, size);
    }
  }

  lemma LengthRead(text: string, after: bytes, max: nat)
    ensures ShortBody(text, after, max) <==>
              match ParseUsize(Trim(text), 10)
              case Some(length) => |after| < length && length <= max && length <= ISIZE_MAX
              case None => false
  {
    hide ParseUsize, Trim, SpellsNumber;
    forall length: nat
      ensures SpellsNumber(text, length, 10) <==> ParseUsize(Trim(text), 10) == Some(length)
    {
      NumberIff(text, length, 10);
    }
  }

  /** Everything before the line at which `b` stands is valid. */
  ghost predicate Reached(b: Broken, max: nat) {
    match b
    case AtStart => true
    case AtField(start, fields) =>
      && ValidLine(start) && SpellsStart(start.text)
      && (forall l :: l in fields ==> ValidFieldLine(l))
      && |fields| < MAX_HEADER_LINES && |Encode(start.text)| + TextBytes(fields) <= MAX_HEADER_BYTES
    case AtSizeLine(head, chunks) => ChunksSoFar(head, chunks, max)
    case AtTrailer(head, chunks, last, trailers) =>
      && ChunksSoFar(head, chunks, max) && ValidLine(last) && SpellsSize(last.text, 0)
      && (forall l :: l in trailers ==> ValidTrailer(l))
    case _ => false
  }

  /** What was valid up to the break, and what is wrong with the bytes after it. */
  ghost predicate BreaksWith(b: Broken, after: bytes, max: nat) {
    match b
    case InBody(head) =>
      && ValidHead(head) && !AnnouncesChunks(HeadersOf(head)) && "content-length" in HeadersOf(head)
      && ShortBody(HeadersOf(head)["content-length"], after, max)
    case InChunk(head, chunks, size) =>
      && ChunksSoFar(head, chunks, max) && ValidLine(size)
      && Wants(size.text, |Payload(chunks)|, max) && ShortOf(size.text, after)
    case AfterSize(head, chunks, text) =>
      ChunksSoFar(head, chunks, max) && UnendedSize(text, after, |Payload(chunks)|, max)
    case _ => Reached(b, max) && Undecodable(after)
  }

  ghost predicate BreaksAs(s: bytes, max: nat, b: Broken, after: bytes) {
    s == Prefix(b) + after && BreaksWith(b, after, max)
  }

  lemma LineFailsIff(s: bytes)
    ensures ReadHttpLine(s) == Failed(Io) <==> Undecodable(s)
    ensures ReadHttpLine(s).Failed? <==> Undecodable(s)
  {}

  // ---- every break is an I/O error ----

  /** Valid field lines are consumed one by one, whatever comes after them. */
  lemma {:induction false} FieldsConsumed(lines: seq<Line>, after: bytes, left: nat, used: nat, headers: Headers)
    requires forall l :: l in lines ==> ValidFieldLine(l)
    requires |lines| < left && used + TextBytes(lines) <= MAX_HEADER_BYTES
    ensures ReadHeaders(RenderLines(lines) + after, left, used, headers)
         == ReadHeaders(after, left - |lines|, used + TextBytes(lines), Collect(FieldsOf(lines), headers))
    decreases |lines|
  {
    hide ReadHeaders, AddField, Encode, RenderLine, ValidFieldLine, FieldOf;
    if lines == [] {
      assert RenderLines(lines) + after == after;
    } else {
      Associate(RenderLine(lines[0]), RenderLines(lines[1..]), after);
      HeadersStep(lines[0], RenderLines(lines[1..]) + after, left, used, headers);
      FieldsConsumed(lines[1..], after, left - 1, used + |Encode(lines[0].text)|, AddField(headers, FieldOf(lines[0])));
      CollectStep(lines, headers);
    }
  }

  lemma UndecodableFieldFails(after: bytes, left: nat, used: nat, headers: Headers)
    requires Undecodable(after) && left > 0
    ensures ReadHeaders(after, left, used, headers) == Failed(Io)
  {
    LineFailsIff(after);
  }

  /** Complete chunks are consumed one by one, whatever comes after them. */
  lemma {:induction false} ChunksConsumed(chunks: seq<DataChunk>, after: bytes, body: bytes, max: nat)
    requires forall c :: c in chunks ==> ValidChunk(c)
    requires |body| + |Payload(chunks)| <= max && |body| + |Payload(chunks)| <= ISIZE_MAX
    ensures ReadChunks(RenderChunks(chunks) + after, body, max) == ReadChunks(after, body + Payload(chunks), max)
    decreases |chunks|
  {
    hide ReadChunk, ValidChunk, RenderLine;
    if chunks == [] {
      assert RenderChunks(chunks) + after == after;
      assert body + Payload(chunks) == body;
    } else {
      var first := RenderLine(chunks[0].head) + (chunks[0].data + [RETURN, NEWLINE]);
      Associate(first, RenderChunks(chunks[1..]), after);
      assert chunks[0] in chunks;
      ChunkComplete(chunks[0], RenderChunks(chunks[1..]) + after, |body|, max);
      Associate(body, chunks[0].data, Payload(chunks[1..]));
      ChunksConsumed(chunks[1..], after, body + chunks[0].data, max);
    }
  }

  /** After any complete chunks, what the next turn of the loop fails with is the result. */
  lemma BreakAfterChunks(head: Message, chunks: seq<DataChunk>, after: bytes, max: nat)
    requires ChunksSoFar(head, chunks, max) && ReadChunk(after, |Payload(chunks)|, max).Failed?
    ensures ReadRequest(RenderHead(head) + (RenderChunks(chunks) + after), max)
         == Failed(ReadChunk(after, |Payload(chunks)|, max).error)
  {
    hide RenderHead, ReadHead, ReadChunks, ValidHead, HeadersOf, IsChunked, AnnouncesChunks, RenderChunks, ValidChunk,
         ReadChunk;
    AnnouncesIff(HeadersOf(head));
    HeadComplete(head, RenderChunks(chunks) + after);
    ChunksConsumed(chunks, after, [], max);
    assert [] + Payload(chunks) == Payload(chunks);
    FirstChunkFails(after, Payload(chunks), max);
  }

  lemma FirstChunkFails(s: bytes, body: bytes, max: nat)
    requires ReadChunk(s, |body|, max).Failed?
    ensures ReadChunks(s, body, max) == Failed(ReadChunk(s, |body|, max).error)
  {}

  lemma ShortChunkFails(size: Line, partial: bytes, have: nat, max: nat)
    requires ValidLine(size) && Wants(size.text, have, max) && ShortOf(size.text, partial)
    ensures ReadChunk(RenderLine(size) + partial, have, max) == Failed(Io)
  {
    hide ReadHttpLine, ChunkSize, RenderLine, ValidLine, ReadTrailers, Wants, ShortOf;
    SizeRead(size.text, partial, have, max);
    LineComplete(size, partial);
  }

  lemma UnendedSizeFails(text: string, have: nat, max: nat)
    requires UnendedSize(text, [], have, max)
    ensures ReadChunk(Encode(text), have, max) == Failed(Io)
  {
    hide ChunkSize, ReadTrailers, Wants;
    SizeRead(text, [], have, max);
    UnendedLine(text);
  }

  lemma UnendedLine(text: string)
    requires text != "" && '\n' !in text
    ensures ReadHttpLine(Encode(text)) == Done(Some(text), [])
  {
    var s := Encode(text);
    EncodeLength(text);
    AsciiByte(text, '\n');
    LineLengthIs(s, |s|);
    DecodeOfEncode(text);
    assert s[..|s|] == s && s[|s|..] == [];
  }

  lemma {:induction false} TrailersConsumed(trailers: seq<Line>, after: bytes)
    requires forall l :: l in trailers ==> ValidTrailer(l)
    ensures ReadTrailers(RenderLines(trailers) + after) == ReadTrailers(after)
    decreases |trailers|
  {
    hide ReadHttpLine, RenderLine;
    if trailers == [] {
      assert RenderLines(trailers) + after == after;
    } else {
      var rest := RenderLines(trailers[1..]) + after;
      Associate(RenderLine(trailers[0]), RenderLines(trailers[1..]), after);
      assert ValidTrailer(trailers[0]);
      LineComplete(trailers[0], rest);
      TrailersConsumed(trailers[1..], after);
    }
  }

  /** Once the last chunk's size is read, what the trailers fail with is the result. */
  lemma LastChunkBreak(last: Line, trailers: seq<Line>, after: bytes, have: nat, max: nat)
    requires ValidLine(last) && SpellsSize(last.text, 0)
    requires (forall l :: l in trailers ==> ValidTrailer(l)) && ReadTrailers(after).Failed?
    ensures ReadChunk(RenderLine(last) + RenderLines(trailers) + after, have, max) == Failed(ReadTrailers(after).error)
  {
    hide ReadHttpLine, ChunkSize, SpellsSize, RenderLine, RenderLines, ValidLine, ReadTrailers;
    SizeIff(last.text, 0);
    Associate(RenderLine(last), RenderLines(trailers), after);
    LineComplete(last, RenderLines(trailers) + after);
    TrailersConsumed(trailers, after);
  }

  lemma UndecodableTrailerFails(after: bytes)
    requires Undecodable(after)
    ensures ReadTrailers(after) == Failed(Io)
  {
    LineFailsIff(after);
  }

  lemma BreakIsIo(b: Broken, after: bytes, max: nat)
    requires BreaksWith(b, after, max)
    ensures ReadRequest(Prefix(b) + after, max) == Failed(Io)
  {
    match b
    case AtStart =>
      assert [] + after == after;
      LineFailsIff(after);
    case AtField(start, fields) => HeadBreak(start, fields, after, max);
    case InBody(head) => BodyBreak(head, after, max);
    case AtSizeLine(head, chunks) =>
      LineFailsIff(after);
      SizeLineFails(after, |Payload(chunks)|, max);
      Associate(RenderHead(head), RenderChunks(chunks), after);
      BreakAfterChunks(head, chunks, after, max);
    case InChunk(head, chunks, size) =>
      ShortChunkFails(size, after, |Payload(chunks)|, max);
      Associate(RenderHead(head), RenderChunks(chunks) + RenderLine(size), after);
      Associate(RenderChunks(chunks), RenderLine(size), after);
      BreakAfterChunks(head, chunks, RenderLine(size) + after, max);
    case AfterSize(head, chunks, text) =>
      UnendedSizeFails(text, |Payload(chunks)|, max);
      Associate(RenderHead(head), RenderChunks(chunks) + Encode(text), []);
      assert RenderChunks(chunks) + Encode(text) + [] == RenderChunks(chunks) + Encode(text);
      BreakAfterChunks(head, chunks, Encode(text), max);
    case AtTrailer(head, chunks, last, trailers) =>
      var tail := RenderLine(last) + RenderLines(trailers);
      UndecodableTrailerFails(after);
      LastChunkBreak(last, trailers, after, |Payload(chunks)|, max);
      Associate(RenderHead(head), RenderChunks(chunks) + tail, after);
      Associate(RenderChunks(chunks), tail, after);
      BreakAfterChunks(head, chunks, tail + after, max);
  }

  lemma SizeLineFails(s: bytes, have: nat, max: nat)
    requires ReadHttpLine(s) == Failed(Io)
    ensures ReadChunk(s, have, max) == Failed(Io)
  {}

  lemma HeadBreak(start: Line, fields: seq<Line>, after: bytes, max: nat)
    requires BreaksWith(AtField(start, fields), after, max)
    ensures ReadRequest(RenderLine(start) + RenderLines(fields) + after, max) == Failed(Io)
  {
    hide Undecodable, ReadRequest, ReadHeaders, ValidFieldLine, SpellsStart, ValidLine, Encode, FieldsOf, Collect,
         RenderLine, RenderLines;
    var used := |Encode(start.text)| + TextBytes(fields);
    UndecodableFieldFails(after, MAX_HEADER_LINES - |fields|, used, Collect(FieldsOf(fields), map[]));
    HeadFails(start, fields, after, max);
  }

  /** After a valid start line and valid fields, what the header loop fails with is the result. */
  lemma HeadFails(start: Line, fields: seq<Line>, after: bytes, max: nat)
    requires Reached(AtField(start, fields), max)
    requires ReadHeaders(after, MAX_HEADER_LINES - |fields|, |Encode(start.text)| + TextBytes(fields),
                         Collect(FieldsOf(fields), map[])).Failed?
    ensures ReadRequest(RenderLine(start) + RenderLines(fields) + after, max)
         == Failed(ReadHeaders(after, MAX_HEADER_LINES - |fields|, |Encode(start.text)| + TextBytes(fields),
                               Collect(FieldsOf(fields), map[])).error)
  {
    hide ReadHttpLine, ReadHeaders, ValidRequestLine, SpellsStart, Encode, RenderLine, RenderLines, ValidLine,
         ValidFieldLine, FieldsOf, Collect;
    StartIff(start.text);
    Associate(RenderLine(start), RenderLines(fields), after);
    LineComplete(start, RenderLines(fields) + after);
    FieldsConsumed(fields, after, MAX_HEADER_LINES, |Encode(start.text)|, map[]);
  }

  lemma BodyBreak(head: Message, after: bytes, max: nat)
    requires BreaksWith(InBody(head), after, max)
    ensures ReadRequest(RenderHead(head) + after, max) == Failed(Io)
  {
    hide RenderHead, ReadHead, ValidHead, HeadersOf, IsChunked, AnnouncesChunks, ParseUsize, Trim, ShortBody;
    AnnouncesIff(HeadersOf(head));
    LengthRead(HeadersOf(head)["content-length"], after, max);
    HeadComplete(head, after);
  }

  // ---- and there is no other I/O error ----

  lemma {:induction false} FieldBreakFound(s: bytes, left: nat, used: nat, headers: Headers)
    returns (lines: seq<Line>, after: bytes)
    requires ReadHeaders(s, left, used, headers) == Failed(Io)
    ensures forall l :: l in lines ==> ValidFieldLine(l)
    ensures |lines| < left && (used <= MAX_HEADER_BYTES ==> used + TextBytes(lines) <= MAX_HEADER_BYTES)
    ensures s == RenderLines(lines) + after && Undecodable(after)
    decreases left
  {
    hide ReadHeaderLine, AddField, ParseField, Encode, Undecodable;
    var step := ReadHeaderLine(s, used);
    if step.Failed? {
      FieldLineFails(s, used);
      lines, after := [], s;
      assert RenderLines([]) + s == s;
    } else {
      var field, total := step.value.field, step.value.used;
      FailsOn(step.rest, left - 1, total, AddField(headers, field));
      var line := FieldLineSound(s, used);
      var more;
      more, after := FieldBreakFound(step.rest, left - 1, total, AddField(headers, field));
      lines := PrependLine(line, more);
      Associate(RenderLine(line), RenderLines(more), after);
    }
  }

  lemma FieldLineFails(s: bytes, used: nat)
    requires ReadHeaderLine(s, used) == Failed(Io)
    ensures Undecodable(s)
  {
    hide ParseField, Encode, ReadHttpLine;
    LineFailsIff(s);
  }

  lemma FailsOn(s: bytes, left: nat, used: nat, headers: Headers)
    requires ReadHeaders(s, left, used, headers) == Failed(Io)
    ensures s != []
  {}

  lemma {:induction false} TrailerBreakFound(s: bytes) returns (trailers: seq<Line>, after: bytes)
    requires ReadTrailers(s) == Failed(Io)
    ensures forall l :: l in trailers ==> ValidTrailer(l)
    ensures s == RenderLines(trailers) + after && Undecodable(after)
    decreases |s|
  {
    hide ReadHttpLine, Encode, EolText, Undecodable;
    var next := ReadHttpLine(s);
    if next.Failed? {
      LineFailsIff(s);
      trailers, after := [], s;
      assert RenderLines([]) + s == s;
    } else {
      TrailersFailOn(next.rest);
      var line := LineSound(s);
      var more;
      more, after := TrailerBreakFound(next.rest);
      trailers := [line] + more;
      assert trailers[1..] == more;
      Associate(RenderLine(line), RenderLines(more), after);
    }
  }

  lemma TrailersFailOn(s: bytes)
    requires ReadTrailers(s) == Failed(Io)
    ensures s != []
  {}

  /** Where one turn of the chunk loop broke. */
  datatype ChunkBreak =
    | SizeLine
    | Data(size: Line)
    | NoLineEnd(text: string)
    | Trailers(last: Line, trailers: seq<Line>)

  function ChunkPrefix(b: ChunkBreak): bytes {
    match b
    case SizeLine => []
    case Data(size) => RenderLine(size)
    case NoLineEnd(text) => Encode(text)
    case Trailers(last, trailers) => RenderLine(last) + RenderLines(trailers)
  }

  ghost predicate ChunkBreaksWith(b: ChunkBreak, after: bytes, have: nat, max: nat) {
    match b
    case SizeLine => Undecodable(after)
    case Data(size) => ValidLine(size) && Wants(size.text, have, max) && ShortOf(size.text, after)
    case NoLineEnd(text) => UnendedSize(text, after, have, max)
    case Trailers(last, trailers) =>
      && ValidLine(last) && SpellsSize(last.text, 0)
      && (forall l :: l in trailers ==> ValidTrailer(l)) && Undecodable(after)
  }

  lemma ChunkBreakFound(s: bytes, have: nat, max: nat) returns (b: ChunkBreak, after: bytes)
    requires ReadChunk(s, have, max) == Failed(Io)
    ensures ChunkBreaksWith(b, after, have, max) && s == ChunkPrefix(b) + after
  {
    var next := ReadHttpLine(s);
    hide ReadHttpLine, ReadChunk, ChunkSize, Undecodable, ChunkBreaksWith, ChunkPrefix;
    if next.Failed? {
      LineFailsIff(s);
      b, after := SizeLine, s;
      UndecodableBreaks(s, have, max);
    } else if next.value.Some? && ChunkSize(next.value.value) == Some(0) {
      b, after := TrailersBreakFound(s, have, max);
    } else {
      b, after := DataBreakFound(s, have, max);
    }
  }

  lemma UndecodableBreaks(s: bytes, have: nat, max: nat)
    requires Undecodable(s)
    ensures ChunkBreaksWith(SizeLine, s, have, max) && s == ChunkPrefix(SizeLine) + s
  {
    hide Undecodable;
    assert [] + s == s;
  }

  lemma TrailersBreakFound(s: bytes, have: nat, max: nat) returns (b: ChunkBreak, after: bytes)
    requires ReadChunk(s, have, max) == Failed(Io)
    requires var next := ReadHttpLine(s); next.Done? && next.value.Some? && ChunkSize(next.value.value) == Some(0)
    ensures ChunkBreaksWith(b, after, have, max) && s == ChunkPrefix(b) + after
  {
    hide ReadHttpLine, ChunkSize, Encode, EolText, ReadTrailers, Undecodable, ValidLine, RenderLine, SpellsSize;
    var next := ReadHttpLine(s);
    SizeIff(next.value.value, 0);
    TrailersFailOn(next.rest);
    var last := LineSound(s);
    var trailers;
    trailers, after := TrailerBreakFound(next.rest);
    b := Trailers(last, trailers);
    Associate(RenderLine(last), RenderLines(trailers), after);
  }

  lemma DataBreakFound(s: bytes, have: nat, max: nat) returns (b: ChunkBreak, after: bytes)
    requires ReadChunk(s, have, max) == Failed(Io)
    requires var next := ReadHttpLine(s); next.Done? && !(next.value.Some? && ChunkSize(next.value.value) == Some(0))
    ensures ChunkBreaksWith(b, after, have, max) && s == ChunkPrefix(b) + after
  {
    hide ReadHttpLine, Encode, EolText, ValidLine, RenderLine, Wants, ShortOf, ReadChunk, ChunkSize, ChunkBreaksWith,
         ChunkPrefix;
    WantedAndShort(s, have, max);
    if s[LineLength(s) - 1] == NEWLINE {
      b, after := EndedBreak(s, have, max);
    } else {
      b, after := UnendedBreak(s, have, max);
    }
  }

  lemma EndedBreak(s: bytes, have: nat, max: nat) returns (b: ChunkBreak, after: bytes)
    requires ReadHttpLine(s).Done? && ReadHttpLine(s).value.Some? && s[LineLength(s) - 1] == NEWLINE
    requires var next := ReadHttpLine(s); Wants(next.value.value, have, max) && ShortOf(next.value.value, next.rest)
    ensures ChunkBreaksWith(b, after, have, max) && s == ChunkPrefix(b) + after
  {
    hide ReadHttpLine, Encode, EolText, ValidLine, RenderLine, Wants, ShortOf;
    var size := EndedLineSound(s);
    b, after := Data(size), ReadHttpLine(s).rest;
  }

  lemma UnendedBreak(s: bytes, have: nat, max: nat) returns (b: ChunkBreak, after: bytes)
    requires ReadHttpLine(s).Done? && ReadHttpLine(s).value.Some? && s[LineLength(s) - 1] != NEWLINE
    requires Wants(ReadHttpLine(s).value.value, have, max)
    ensures ChunkBreaksWith(b, after, have, max) && s == ChunkPrefix(b) + after
  {
    hide ReadHttpLine, Encode, Wants;
    UnendedLineSound(s);
    b, after := NoLineEnd(ReadHttpLine(s).value.value), [];
    assert Encode(ReadHttpLine(s).value.value) + [] == s;
  }

  lemma WantedAndShort(s: bytes, have: nat, max: nat)
    requires ReadChunk(s, have, max) == Failed(Io)
    requires var next := ReadHttpLine(s); next.Done? && !(next.value.Some? && ChunkSize(next.value.value) == Some(0))
    ensures var next := ReadHttpLine(s);
            next.value.Some? && Wants(next.value.value, have, max) && ShortOf(next.value.value, next.rest)
  {
    hide ReadHttpLine, ChunkSize, ReadTrailers, Wants, ShortOf;
    var next := ReadHttpLine(s);
    if next.value.Some? {
      SizeRead(next.value.value, next.rest, have, max);
    }
  }

  lemma UnendedLineSound(s: bytes)
    requires ReadHttpLine(s).Done? && ReadHttpLine(s).value.Some? && s[LineLength(s) - 1] != NEWLINE
    ensures var text := ReadHttpLine(s).value.value;
            text != "" && '\n' !in text && Encode(text) == s && ReadHttpLine(s).rest == []
  {
    var n := LineLength(s);
    assert s[..n] == s;
    var x := Decode(s).value;
    EncodeOfDecode(s);
    AsciiByte(x, '\n');
  }

  /** The complete chunks a body begins with, up to the turn of the loop that ends it. */
  lemma {:induction false} ChunksFound(s: bytes, body: bytes, max: nat) returns (chunks: seq<DataChunk>, after: bytes)
    requires |body| <= max && |body| <= ISIZE_MAX
    ensures forall c :: c in chunks ==> ValidChunk(c)
    ensures |body| + |Payload(chunks)| <= max && |body| + |Payload(chunks)| <= ISIZE_MAX
    ensures s == RenderChunks(chunks) + after
    ensures ReadChunks(s, body, max) == ReadChunks(after, body + Payload(chunks), max)
    ensures var r := ReadChunk(after, |body| + |Payload(chunks)|, max); r.Failed? || r.value.LastChunk?
    decreases |s|
  {
    hide ReadChunk, ValidChunk, RenderLine;
    var step := ReadChunk(s, |body|, max);
    if step.Failed? || step.value.LastChunk? {
      chunks, after := [], s;
      assert RenderChunks([]) + s == s && body + Payload([]) == body;
    } else {
      var chunk := ChunkSound(s, |body|, max);
      var more;
      more, after := ChunksFound(step.rest, body + chunk.data, max);
      chunks := [chunk] + more;
      assert chunks[1..] == more;
      Associate(RenderLine(chunk.head) + (chunk.data + [RETURN, NEWLINE]), RenderChunks(more), after);
      Associate(body, chunk.data, Payload(more));
    }
  }

  lemma ChunksBreakFound(s: bytes, body: bytes, max: nat)
    returns (chunks: seq<DataChunk>, b: ChunkBreak, after: bytes)
    requires ReadChunks(s, body, max) == Failed(Io) && |body| <= max && |body| <= ISIZE_MAX
    ensures forall c :: c in chunks ==> ValidChunk(c)
    ensures |body| + |Payload(chunks)| <= max && |body| + |Payload(chunks)| <= ISIZE_MAX
    ensures s == RenderChunks(chunks) + (ChunkPrefix(b) + after)
    ensures ChunkBreaksWith(b, after, |body| + |Payload(chunks)|, max)
  {
    hide ReadChunk, ValidChunk, RenderLine, ChunkBreaksWith, ChunkPrefix;
    var rest;
    chunks, rest := ChunksFound(s, body, max);
    b, after := ChunkBreakFound(rest, |body| + |Payload(chunks)|, max);
  }

  function InRequest(head: Message, chunks: seq<DataChunk>, b: ChunkBreak): Broken {
    match b
    case SizeLine => AtSizeLine(head, chunks)
    case Data(size) => InChunk(head, chunks, size)
    case NoLineEnd(text) => AfterSize(head, chunks, text)
    case Trailers(last, trailers) => AtTrailer(head, chunks, last, trailers)
  }

  lemma InRequestBreaks(head: Message, chunks: seq<DataChunk>, b: ChunkBreak, after: bytes, max: nat)
    requires ChunksSoFar(head, chunks, max) && ChunkBreaksWith(b, after, |Payload(chunks)|, max)
    ensures BreaksWith(InRequest(head, chunks, b), after, max)
    ensures Prefix(InRequest(head, chunks, b)) + after
         == RenderHead(head) + (RenderChunks(chunks) + (ChunkPrefix(b) + after))
  {
    hide ChunksSoFar, Wants, ValidLine, ShortOf, SpellsSize, UnendedSize, Undecodable, Prefix, ChunkPrefix,
         RenderHead, RenderChunks;
    InRequestPrefix(head, chunks, b);
    Associate(RenderHead(head), RenderChunks(chunks) + ChunkPrefix(b), after);
    Associate(RenderChunks(chunks), ChunkPrefix(b), after);
  }

  lemma InRequestPrefix(head: Message, chunks: seq<DataChunk>, b: ChunkBreak)
    ensures Prefix(InRequest(head, chunks, b)) == RenderHead(head) + (RenderChunks(chunks) + ChunkPrefix(b))
  {
    hide RenderHead, RenderChunks, RenderLine, RenderLines, Encode;
    if b.SizeLine? {
      assert RenderChunks(chunks) + [] == RenderChunks(chunks);
    }
  }

  lemma BreakFound(s: bytes, max: nat) returns (b: Broken, after: bytes)
    requires ReadRequest(s, max) == Failed(Io)
    ensures BreaksAs(s, max, b, after)
  {
    hide ReadHttpLine, ReadHeaders, ReadBody, ReadChunks, ParseUsize, Trim, IsChunked, ValidRequestLine, Encode,
         RenderHead, ValidHead, HeadersOf, Undecodable, RenderLine, RenderLines;
    var first := ReadHttpLine(s);
    var head := ReadHead(s);
    if first.Failed? {
      LineFailsIff(s);
      b, after := AtStart, s;
      assert [] + s == s;
    } else if head.Failed? {
      b, after := HeadBreakFound(s);
    } else {
      b, after := BodyBreakFound(s, max);
    }
  }

  lemma HeadBreakFound(s: bytes) returns (b: Broken, after: bytes)
    requires ReadHttpLine(s).Done? && ReadHead(s) == Failed(Io)
    ensures b.AtField? && forall max :: BreaksAs(s, max, b, after)
  {
    hide ReadHttpLine, ReadHeaders, ValidRequestLine, Encode, Undecodable, RenderLine, ValidLine, ValidFieldLine;
    var first := ReadHttpLine(s);
    var used := |Encode(first.value.value)|;
    FailsOn(first.rest, MAX_HEADER_LINES, used, map[]);
    var start := LineSound(s);
    StartIff(start.text);
    hide SpellsStart;
    var fields;
    fields, after := FieldBreakFound(first.rest, MAX_HEADER_LINES, used, map[]);
    b := AtField(start, fields);
    Associate(RenderLine(start), RenderLines(fields), after);
  }

  lemma BodyBreakFound(s: bytes, max: nat) returns (b: Broken, after: bytes)
    requires ReadHead(s).Done? && ReadRequest(s, max) == Failed(Io)
    ensures BreaksAs(s, max, b, after)
  {
    hide ReadHead, ReadChunks, ParseUsize, Trim, IsChunked, RenderHead, ValidHead, HeadersOf, RenderChunks, ValidChunk,
         ChunkBreaksWith, ShortBody;
    var rest := ReadHead(s).rest;
    var head := HeadSound(s);
    AnnouncesIff(HeadersOf(head));
    hide AnnouncesChunks;
    if IsChunked(HeadersOf(head)) {
      var chunks, broken;
      chunks, broken, after := ChunksBreakFound(rest, [], max);
      InRequestBreaks(head, chunks, broken, after, max);
      b := InRequest(head, chunks, broken);
    } else {
      LengthRead(HeadersOf(head)["content-length"], rest, max);
      b, after := InBody(head), rest;
    }
  }

  /**
   Reading fails with an I/O error exactly when the input breaks inside announced data or at
   a line that is not UTF-8, everything before the break being valid.
   */
  lemma IoExact(s: bytes, max: nat)
    ensures ReadRequest(s, max) == Failed(Io) <==> exists b, after :: BreaksAs(s, max, b, after)
  {
    hide ReadRequest, Prefix, BreaksWith;
    if ReadRequest(s, max) == Failed(Io) {
      var b, after := BreakFound(s, max);
    } else if exists b, after :: BreaksAs(s, max, b, after) {
      var b, after :| BreaksAs(s, max, b, after);
      BreakIsIo(b, after, max);
    }
  }

  // ---- a last line without its newline ----

  /** What each kind of line comes to when the stream ends in it. */
  lemma UnendedField(text: string, left: nat, used: nat, headers: Headers)
    requires text != "" && '\n' !in text && left > 0
    ensures var r := ReadHeaders(Encode(text), left, used, headers); r.Failed? && r.error.BadRequest?
  {
    hide ParseField, AddField, Encode;
    UnendedLine(text);
    if left > 1 {
      EndOfFields(left - 1, used, headers);
    }
  }

  lemma EndOfFields(left: nat, used: nat, headers: Headers)
    ensures forall u, h :: var r := ReadHeaders([], left, u, h); r.Failed? && r.error.BadRequest?
  {}

  lemma UnendedStart(text: string, max: nat)
    requires text != "" && '\n' !in text
    ensures var r := ReadRequest(Encode(text), max); r.Failed? && r.error.BadRequest?
  {
    hide ValidRequestLine, ReadHeaders, Encode;
    UnendedLine(text);
    EndOfFields(MAX_HEADER_LINES, 0, map[]);
  }

  lemma UnendedTrailer(text: string)
    requires text != "" && '\n' !in text
    ensures var r := ReadTrailers(Encode(text)); r.Failed? && r.error.BadRequest?
  {
    hide Encode;
    UnendedLine(text);
    assert ReadTrailers([]) == Failed(BadRequest("unexpected_eof_in_trailers"));
  }

  ghost predicate PositiveSize(text: string) {
    exists size: nat :: size > 0 && SpellsSize(text, size)
  }

  lemma PositiveRead(text: string)
    ensures PositiveSize(text) <==> ChunkSize(text).Some? && ChunkSize(text).value > 0
  {
    hide ChunkSize, SpellsSize;
    forall size: nat
      ensures SpellsSize(text, size) <==> ChunkSize(text) == Some(size)
    {
      SizeIff(text, size);
    }
  }

  lemma UnendedSizeLine(text: string, have: nat, max: nat)
    requires text != "" && '\n' !in text
    ensures var r := ReadChunk(Encode(text), have, max);
            && r.Failed? && (r.error == Io <==> Wants(text, have, max))
            && (r.error.BadRequest? <==> !PositiveSize(text))
  {
    hide ChunkSize, ReadTrailers, Wants, PositiveSize, Encode;
    SizeRead(text, [], have, max);
    PositiveRead(text);
    UnendedLine(text);
    TrailersOfNothing();
  }

  lemma TrailersOfNothing()
    ensures ReadTrailers([]) == Failed(BadRequest("unexpected_eof_in_trailers"))
  {}

  /**
   A stream that ends in a decodable line without a newline is a bad request, whatever line
   that is, unless the line is a positive chunk size: then it is an I/O error if the limits
   would have allowed the chunk, and too large (or a panic) if not.
   */
  lemma UnendedLastLine(b: Broken, text: string, max: nat)
    requires Reached(b, max) && text != "" && '\n' !in text
    ensures var r := ReadRequest(Prefix(b) + Encode(text), max);
            && r.Failed?
            && (r.error == Io <==> b.AtSizeLine? && Wants(text, |Payload(b.chunks)|, max))
            && (r.error.BadRequest? <==> !(b.AtSizeLine? && PositiveSize(text)))
  {
    hide Encode, ReadRequest, RenderHead, RenderChunks, RenderLine, RenderLines, ReadChunk, ReadHeaders, ReadTrailers,
         Wants, PositiveSize, ChunksSoFar, ValidFieldLine, FieldsOf, Collect;
    match b
    case AtStart =>
      assert [] + Encode(text) == Encode(text);
      UnendedStart(text, max);
    case AtField(start, fields) =>
      UnendedField(text, MAX_HEADER_LINES - |fields|, |Encode(start.text)| + TextBytes(fields),
                   Collect(FieldsOf(fields), map[]));
      HeadFails(start, fields, Encode(text), max);
    case AtSizeLine(head, chunks) =>
      UnendedSizeLine(text, |Payload(chunks)|, max);
      Associate(RenderHead(head), RenderChunks(chunks), Encode(text));
      BreakAfterChunks(head, chunks, Encode(text), max);
    case AtTrailer(head, chunks, last, trailers) =>
      var tail := RenderLine(last) + RenderLines(trailers);
      UnendedTrailer(text);
      LastChunkBreak(last, trailers, Encode(text), |Payload(chunks)|, max);
      Associate(RenderHead(head), RenderChunks(chunks) + tail, Encode(text));
      Associate(RenderChunks(chunks), tail, Encode(text));
      BreakAfterChunks(head, chunks, tail + Encode(text), max);
  }

  // ---- chunked requests that go wrong ----

  /** A head that announces a chunked body, and nothing else. */
  function ChunkedHead(): Message {
    SingleHead(Field("transfer-encoding", "chunked"))
  }

  lemma ChunkedHeadIsValid()
    ensures ValidHead(ChunkedHead()) && AnnouncesChunks(HeadersOf(ChunkedHead()))
  {
    hide Encode, ValidHead, HeadersOf, AnnouncesChunks;
    var field := Field("transfer-encoding", "chunked");
    CodingField(field);
    SingleHeadIsValid(field);
    PlainlyChunked(HeadersOf(ChunkedHead()));
  }

  lemma CodingField(field: Field)
    requires field == Field("transfer-encoding", "chunked")
    ensures Sendable(field) && Lower(field.name) == field.name && |Encode(FieldText(field))| <= 200
  {
    hide Encode, FieldText, CleanName, CleanValue, ValidHeaderName, Lower;
    CodingIsClean(field);
    LowerOfClean(field.name);
    ShortField(field.name, field.value);
  }

  lemma CodingIsClean(field: Field)
    requires field == Field("transfer-encoding", "chunked")
    ensures CleanName(field.name) && CleanValue(field.value) && |field.name| + |field.value| == 24
  {
    WordIsClean("chunked");
  }

  /** The one unended line that is an I/O error: a stream that ends in the size of a chunk. */
  lemma UnendedSizeIsIo(max: nat)
    requires max >= 1
    ensures ReadRequest(RenderHead(ChunkedHead()) + Encode("1"), max) == Failed(Io)
  {
    hide ReadRequest, ValidHead, HeadersOf, Encode, RenderHead, ChunkedHead, AnnouncesChunks;
    ChunkedHeadIsValid();
    OneSpelled();
    var b := AtSizeLine(ChunkedHead(), []);
    assert Fits(1, 0, max);
    assert RenderHead(ChunkedHead()) + [] == RenderHead(ChunkedHead());
    UnendedLastLine(b, "1", max);
  }

  lemma OneSpelled()
    ensures SpellsSize("1", 1) && ValidLine(Line("1", CrLf))
  {
    hide SpellsSize;
    SizeLineReads(1, "");
    assert Numeral(1, 16) + "" == "1";
  }

  // ---- the overflow the guard is there for ----

  /** The chunk loop, after `chunks`, passes its guard with a size that does not fit on top. */
  ghost predicate Overflows(head: Message, chunks: seq<DataChunk>, size: Line, n: nat, max: nat) {
    && ChunksSoFar(head, chunks, max) && ValidLine(size) && SpellsSize(size.text, n)
    && SaturatingAdd(|Payload(chunks)|, n) <= max && |Payload(chunks)| + n > USIZE_MAX
  }

  /**
   No request makes `start + size` overflow past the guard exactly when the limit is not
   `usize::MAX` itself: there `saturating_add` hides the overflow, and a first chunk followed
   by the size `ffffffffffffffff` gets through.
   */
  lemma GuardPreventsOverflow(max: nat)
    requires max <= USIZE_MAX
    ensures (forall head, chunks, size, n :: !Overflows(head, chunks, size, n, max)) <==> max < USIZE_MAX
  {
    hide ChunksSoFar, ValidLine, SpellsSize, Payload, Numeral, ChunkedHead;
    if max == USIZE_MAX {
      var chunk := DataChunk(Line("1", CrLf), [0]);
      var size := Line(Numeral(USIZE_MAX, 16), CrLf);
      OverflowReached(chunk, size, max);
      assert Overflows(ChunkedHead(), [chunk], size, USIZE_MAX, max);
    }
  }

  lemma OverflowReached(chunk: DataChunk, size: Line, max: nat)
    requires chunk == DataChunk(Line("1", CrLf), [0]) && size == Line(Numeral(USIZE_MAX, 16), CrLf) && max == USIZE_MAX
    ensures ChunksSoFar(ChunkedHead(), [chunk], max) && |Payload([chunk])| == 1
    ensures ValidLine(size) && SpellsSize(size.text, USIZE_MAX)
  {
    hide SpellsSize, Numeral, ValidHead, HeadersOf, AnnouncesChunks, ChunkedHead;
    ChunkedHeadIsValid();
    OneSpelled();
    SizeLineReads(USIZE_MAX, "");
    NumeralIsClean(USIZE_MAX, 16);
    assert Numeral(USIZE_MAX, 16) + "" == Numeral(USIZE_MAX, 16);
    assert [chunk][1..] == [];
    assert Payload([chunk]) == [0] + [];
  }
}
