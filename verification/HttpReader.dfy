/**
 What the Oracle/Fn request reader computes, as functions of the bytes still unread.
 Every function returns its value together with the bytes it leaves behind; the methods of
 `HttpConnection` are proved to do exactly this, and `HttpGrammar` says what it means.
 */
module HttpReader {
  import opened Options
  import opened Text
  import opened Utf8
  import opened Numerals

  const MAX_HEADER_LINES: nat := 128
  const MAX_HEADER_BYTES: nat := 64 * 1024

  /**
   `Io` is `std::io::Error`: the stream ended inside announced data, or a line is not UTF-8.
   `Panic` is the reader asking for more bytes than a `Vec` can hold.
   */
  datatype ReadError = Io | BadRequest(code: string) | TooLarge | Panic

  datatype Read<+T> = Done(value: T, rest: bytes) | Failed(error: ReadError) {
    predicate IsFailure() {
      Failed?
    }

    function PropagateFailure<U>(): Read<U>
      requires Failed?
    {
      Failed(error)
    }

    function Extract(): (T, bytes)
      requires Done?
    {
      (value, rest)
    }
  }

  type Headers = map<string, string>

  datatype Field = Field(name: string, value: string)

  datatype FieldResult = Parsed(field: Field) | Refused(code: string)

  datatype ParsedRequest = ParsedRequest(headers: Headers, body: bytes)

  /** How many bytes `read_line` takes: through the first newline, or all of them. */
  function LineLength(s: bytes): (n: nat)
    ensures n <= |s|
    ensures s != [] ==> n > 0
    ensures forall i :: 0 <= i < n - 1 ==> s[i] != NEWLINE
    ensures n == |s| || s[n - 1] == NEWLINE
  {
    if s == [] then 0 else if s[0] == NEWLINE then 1 else 1 + LineLength(s[1..])
  }

  lemma {:induction false} LineLengthIs(s: bytes, n: nat)
    requires n <= |s| && (s != [] ==> n > 0)
    requires forall i :: 0 <= i < n - 1 ==> s[i] != NEWLINE
    requires n == |s| || s[n - 1] == NEWLINE
    ensures LineLength(s) == n
  {
    if n <= 1 {
    } else {
      LineLengthIs(s[1..], n - 1);
    }
  }

  predicate EndsWith(s: string, c: char) {
    s != "" && s[|s| - 1] == c
  }

  function StripEol(s: string): string {
    if EndsWith(s, '\n') then
      var t := s[..|s| - 1];
      if EndsWith(t, '\r') then t[..|t| - 1] else t
    else s
  }

  function ReadHttpLine(s: bytes): (r: Read<Option<string>>)
    ensures r.Done? && r.value.Some? ==> |r.rest| < |s|
    ensures r.Done? && r.value.None? <==> s == []
    ensures r.Failed? ==> r.error == Io
  {
    if s == [] then Done(None, [])
    else
      var n := LineLength(s);
      match Decode(s[..n])
      case None => Failed(Io)
      case Some(text) => Done(Some(StripEol(text)), s[n..])
  }

  function ReadExact(s: bytes, n: nat): Read<bytes> {
    if n <= |s| then Done(s[..n], s[n..]) else Failed(Io)
  }

  predicate ValidRequestLine(line: string) {
    var parts := Words(line);
    |parts| == 3 && "HTTP/1." <= parts[2]
  }

  predicate IsNameChar(c: char) {
    IsAlphanumeric(c) || c == '-'
  }

  predicate ValidHeaderName(name: string) {
    name != "" && forall c :: c in name ==> IsNameChar(c)
  }

  function ParseField(line: string): FieldResult {
    var colon := IndexOf(line, ':');
    if colon == |line| then Refused("invalid_http_header")
    else
      var name := Lower(Trim(line[..colon]));
      var value := Trim(line[colon + 1..]);
      if !ValidHeaderName(name) then Refused("invalid_http_header_name")
      else if exists c :: c in value && IsControl(c) then Refused("invalid_http_header_value")
      else Parsed(Field(name, value))
  }

  function AddField(headers: Headers, field: Field): Headers {
    headers[field.name := if field.name in headers
                          then headers[field.name] + "," + field.value
                          else field.value]
  }

  datatype HeaderLine = EndOfHeaders | FieldLine(field: Field, used: nat)

  /** One line of the header section, when `used` bytes of its budget are spent. */
  function ReadHeaderLine(s: bytes, used: nat): Read<HeaderLine> {
    var (next, rest) :- ReadHttpLine(s);
    if next.None? then Failed(BadRequest("unexpected_eof_in_headers"))
    else
      var line := next.value;
      var total := SaturatingAdd(used, |Encode(line)|);
      if total > MAX_HEADER_BYTES then Failed(BadRequest("headers_too_large"))
      else if line == "" then Done(EndOfHeaders, rest)
      else
        match ParseField(line)
        case Refused(code) => Failed(BadRequest(code))
        case Parsed(field) => Done(FieldLine(field, total), rest)
  }

  /** At most `left` more lines. */
  function ReadHeaders(s: bytes, left: nat, used: nat, headers: Headers): Read<Headers>
    decreases left
  {
    if left == 0 then Failed(BadRequest("too_many_headers"))
    else
      var (line, rest) :- ReadHeaderLine(s, used);
      match line
      case EndOfHeaders => Done(headers, rest)
      case FieldLine(field, total) => ReadHeaders(rest, left - 1, total, AddField(headers, field))
  }

  function ChunkSize(line: string): Option<nat> {
    ParseUsize(Trim(Before(line, ';')), 16)
  }

  function ReadTrailers(s: bytes): (r: Read<()>)
    ensures r.Done? ==> |r.rest| < |s|
    decreases |s|
  {
    var (next, rest) :- ReadHttpLine(s);
    if next.None? then Failed(BadRequest("unexpected_eof_in_trailers"))
    else if next.value == "" then Done((), rest)
    else ReadTrailers(rest)
  }

  function ReadChunkData(s: bytes, size: nat): Read<bytes> {
    var (data, afterData) :- ReadExact(s, size);
    var (terminator, rest) :- ReadExact(afterData, 2);
    if terminator != [RETURN, NEWLINE] then Failed(BadRequest("invalid_chunk_terminator"))
    else Done(data, rest)
  }

  datatype ChunkStep = LastChunk | Chunk(data: bytes)

  /** One turn of the chunk loop, when `have` bytes of the body are already in. */
  function ReadChunk(s: bytes, have: nat, max: nat): (r: Read<ChunkStep>)
    ensures r.Done? ==> |r.rest| < |s|
  {
    var (next, rest) :- ReadHttpLine(s);
    if next.None? then Failed(BadRequest("unexpected_eof_in_chunk_size"))
    else
      match ChunkSize(next.value)
      case None => Failed(BadRequest("invalid_chunk_size"))
      case Some(size) =>
        if size == 0 then
          var (_, end) :- ReadTrailers(rest);
          Done(LastChunk, end)
        else if SaturatingAdd(have, size) > max then Failed(TooLarge)
        else if have + size > ISIZE_MAX then Failed(Panic)
        else
          var (data, end) :- ReadChunkData(rest, size);
          Done(Chunk(data), end)
  }

  function ReadChunks(s: bytes, body: bytes, max: nat): Read<bytes>
    decreases |s|
  {
    var (step, rest) :- ReadChunk(s, |body|, max);
    match step
    case LastChunk => Done(body, rest)
    case Chunk(data) => ReadChunks(rest, body + data, max)
  }

  predicate IsChunked(headers: Headers) {
    "transfer-encoding" in headers && Contains(Lower(headers["transfer-encoding"]), "chunked")
  }

  function ReadSized(s: bytes, text: string, max: nat): Read<bytes> {
    match ParseUsize(Trim(text), 10)
    case None => Failed(BadRequest("invalid_content_length"))
    case Some(length) =>
      if length > max then Failed(TooLarge)
      else if length > ISIZE_MAX then Failed(Panic)
      else ReadExact(s, length)
  }

  /** `transfer-encoding` wins over `content-length`; without either there is no body. */
  function ReadBody(s: bytes, headers: Headers, max: nat): Read<bytes> {
    if IsChunked(headers) then ReadChunks(s, [], max)
    else if "content-length" in headers then ReadSized(s, headers["content-length"], max)
    else Done([], s)
  }

  function ReadHead(s: bytes): Read<Option<Headers>> {
    var (first, rest) :- ReadHttpLine(s);
    if first.None? then Done(None, rest)
    else
      var line := first.value;
      if !ValidRequestLine(line) then Failed(BadRequest("invalid_http_request_line"))
      else if |Encode(line)| > MAX_HEADER_BYTES then Failed(BadRequest("headers_too_large"))
      else
        var (headers, body) :- ReadHeaders(rest, MAX_HEADER_LINES, |Encode(line)|, map[]);
        Done(Some(headers), body)
  }

  function ReadRequest(s: bytes, max: nat): Read<Option<ParsedRequest>> {
    var (head, rest) :- ReadHead(s);
    if head.None? then Done(None, rest)
    else
      var (body, end) :- ReadBody(rest, head.value, max);
      Done(Some(ParsedRequest(head.value, body)), end)
  }
}
