/**
 One accepted Unix-socket connection: the bytes the peer sends, how far they have been read,
 and the bytes written back.  The methods are the reader's loops over that mutable state.
 */
module HttpConnection {
  import opened Options
  import opened Text
  import opened Utf8
  import opened Numerals
  import opened HttpReader

  datatype Result<+T> = Ok(value: T) | Err(error: ReadError)

  class Connection {
    const input: bytes
    var position: nat
    var output: bytes

    ghost predicate Valid()
      reads this
    {
      position <= |input|
    }

    ghost function Unread(): bytes
      requires Valid()
      reads this
    {
      input[position..]
    }

    /** The method's result and the bytes it left are what the specification says. */
    ghost predicate Follows<T>(spec: Read<T>, r: Result<T>)
      requires Valid()
      reads this
    {
      match spec
      case Done(value, rest) => r == Ok(value) && Unread() == rest
      case Failed(error) => r == Err(error)
    }

    constructor (input: bytes)
      ensures Valid() && this.input == input && Unread() == input && output == []
    {
      this.input := input;
      position := 0;
      output := [];
    }

    /** `read_line`: everything through the next newline, or everything there is. */
    method TakeLine() returns (raw: bytes)
      requires Valid()
      modifies this`position
      ensures Valid()
      ensures var n := LineLength(old(Unread())); raw == old(Unread())[..n] && Unread() == old(Unread())[n..]
    {
      var start := position;
      while position < |input| && (position == start || input[position - 1] != NEWLINE)
        invariant start <= position <= |input|
        invariant forall i :: start <= i < position - 1 ==> input[i] != NEWLINE
      {
        position := position + 1;
      }
      raw := input[start..position];
      LineAt(input, start, position);
    }

    method ReadLine() returns (r: Result<Option<string>>)
      requires Valid()
      modifies this`position
      ensures Valid() && Follows(ReadHttpLine(old(Unread())), r)
    {
      var raw := TakeLine();
      if raw == [] {
        return Ok(None);
      }
      var text := Decode(raw);
      if text.None? {
        return Err(Io);
      }
      var line := text.value;
      if EndsWith(line, '\n') {
        line := line[..|line| - 1];
        if EndsWith(line, '\r') {
          line := line[..|line| - 1];
        }
      }
      return Ok(Some(line));
    }

    method ReadBytes(n: nat) returns (r: Result<bytes>)
      requires Valid()
      modifies this`position
      ensures Valid() && Follows(ReadExact(old(Unread()), n), r)
    {
      ghost var unread := Unread();
      if position + n <= |input| {
        var data := input[position..position + n];
        assert data == unread[..n] && input[position + n..] == unread[n..];
        position := position + n;
        return Ok(data);
      }
      position := |input|;
      return Err(Io);
    }

    method ReadHeaderLine(used: nat) returns (r: Result<HeaderLine>)
      requires Valid()
      modifies this`position
      ensures Valid() && Follows(HttpReader.ReadHeaderLine(old(Unread()), used), r)
    {
      var next := ReadLine();
      if next.Err? {
        return Err(next.error);
      }
      if next.value.None? {
        return Err(BadRequest("unexpected_eof_in_headers"));
      }
      var line := next.value.value;
      var headerBytes := SaturatingAdd(used, |Encode(line)|);
      if headerBytes > MAX_HEADER_BYTES {
        return Err(BadRequest("headers_too_large"));
      }
      if line == "" {
        return Ok(EndOfHeaders);
      }
      match ParseField(line) {
        case Refused(code) =>
          return Err(BadRequest(code));
        case Parsed(field) =>
          return Ok(FieldLine(field, headerBytes));
      }
    }

    method ReadHeaderLines(requestLine: string, maxLines: nat) returns (r: Result<Headers>)
      requires Valid()
      modifies this`position
      ensures Valid()
      ensures Follows(ReadHeaders(old(Unread()), maxLines, |Encode(requestLine)|, map[]), r)
    {
      hide HttpReader.ReadHeaderLine, Encode, Unread;
      var headers: Headers := map[];
      var headerBytes: nat := |Encode(requestLine)|;
      ghost var spec := ReadHeaders(Unread(), maxLines, headerBytes, map[]);
      for lines := 0 to maxLines
        invariant Valid()
        invariant ReadHeaders(Unread(), maxLines - lines, headerBytes, headers) == spec
      {
        var next := ReadHeaderLine(headerBytes);
        if next.Err? {
          return Err(next.error);
        }
        if next.value.EndOfHeaders? {
          return Ok(headers);
        }
        var Field(name, value) := next.value.field;
        headerBytes := next.value.used;
        headers := headers[name := if name in headers then headers[name] + "," + value else value];
      }
      return Err(BadRequest("too_many_headers"));
    }

    method ReadTrailerLines() returns (r: Result<()>)
      requires Valid()
      modifies this`position
      ensures Valid() && Follows(ReadTrailers(old(Unread())), r)
    {
      ghost var spec := ReadTrailers(Unread());
      while true
        invariant Valid() && ReadTrailers(Unread()) == spec
        decreases |Unread()|
      {
        var trailer := ReadLine();
        if trailer.Err? {
          return Err(trailer.error);
        }
        if trailer.value.None? {
          return Err(BadRequest("unexpected_eof_in_trailers"));
        }
        if trailer.value.value == "" {
          return Ok(());
        }
      }
    }

    method ReadChunkData(size: nat) returns (r: Result<bytes>)
      requires Valid()
      modifies this`position
      ensures Valid() && Follows(HttpReader.ReadChunkData(old(Unread()), size), r)
    {
      r := ReadBytes(size);
      if r.Err? {
        return;
      }
      var terminator := ReadBytes(2);
      if terminator.Err? {
        return Err(terminator.error);
      }
      if terminator.value != [RETURN, NEWLINE] {
        return Err(BadRequest("invalid_chunk_terminator"));
      }
    }

    method ReadChunk(have: nat, max: nat) returns (r: Result<ChunkStep>)
      requires Valid()
      modifies this`position
      ensures Valid() && Follows(HttpReader.ReadChunk(old(Unread()), have, max), r)
    {
      var sizeLine := ReadLine();
      if sizeLine.Err? {
        return Err(sizeLine.error);
      }
      if sizeLine.value.None? {
        return Err(BadRequest("unexpected_eof_in_chunk_size"));
      }
      var size := ChunkSize(sizeLine.value.value);
      if size.None? {
        return Err(BadRequest("invalid_chunk_size"));
      }
      if size.value == 0 {
        var trailers := ReadTrailerLines();
        if trailers.Err? {
          return Err(trailers.error);
        }
        return Ok(LastChunk);
      }
      if SaturatingAdd(have, size.value) > max {
        return Err(TooLarge);
      }
      if have + size.value > ISIZE_MAX {
        return Err(Panic);
      }
      var data := ReadChunkData(size.value);
      if data.Err? {
        return Err(data.error);
      }
      return Ok(Chunk(data.value));
    }

    method ReadChunkedBody(max: nat) returns (r: Result<bytes>)
      requires Valid()
      modifies this`position
      ensures Valid() && Follows(ReadChunks(old(Unread()), [], max), r)
    {
      var body: bytes := [];
      ghost var spec := ReadChunks(Unread(), [], max);
      while true
        invariant Valid() && ReadChunks(Unread(), body, max) == spec
        decreases |Unread()|
      {
        var step := ReadChunk(|body|, max);
        if step.Err? {
          return Err(step.error);
        }
        if step.value.LastChunk? {
          return Ok(body);
        }
        body := body + step.value.data;
      }
    }

    method ReadFixedBody(text: string, max: nat) returns (r: Result<bytes>)
      requires Valid()
      modifies this`position
      ensures Valid() && Follows(ReadSized(old(Unread()), text, max), r)
    {
      var length := ParseUsize(Trim(text), 10);
      if length.None? {
        return Err(BadRequest("invalid_content_length"));
      }
      if length.value > max {
        return Err(TooLarge);
      }
      if length.value > ISIZE_MAX {
        return Err(Panic);
      }
      r := ReadBytes(length.value);
    }

    /** `read_request`: no request at all, one request, or the reason there is none. */
    method ReadRequest(max: nat) returns (r: Result<Option<ParsedRequest>>)
      requires Valid()
      modifies this`position
      ensures Valid() && Follows(HttpReader.ReadRequest(old(Unread()), max), r)
    {
      var first := ReadLine();
      if first.Err? {
        return Err(first.error);
      }
      if first.value.None? {
        return Ok(None);
      }
      var line := first.value.value;
      if !ValidRequestLine(line) {
        return Err(BadRequest("invalid_http_request_line"));
      }
      if |Encode(line)| > MAX_HEADER_BYTES {
        return Err(BadRequest("headers_too_large"));
      }
      var headers := ReadHeaderLines(line, MAX_HEADER_LINES);
      if headers.Err? {
        return Err(headers.error);
      }
      var body: Result<bytes>;
      if IsChunked(headers.value) {
        body := ReadChunkedBody(max);
      } else if "content-length" in headers.value {
        body := ReadFixedBody(headers.value["content-length"], max);
      } else {
        body := Ok([]);
      }
      if body.Err? {
        return Err(body.error);
      }
      return Ok(Some(ParsedRequest(headers.value, body.value)));
    }
  }

  lemma LineAt(input: bytes, start: nat, end: nat)
    requires start <= end <= |input|
    requires start < |input| ==> start < end
    requires forall i :: start <= i < end - 1 ==> input[i] != NEWLINE
    requires end == |input| || input[end - 1] == NEWLINE
    ensures LineLength(input[start..]) == end - start
    ensures input[start..][..end - start] == input[start..end]
    ensures input[start..][end - start..] == input[end..]
  {
    LineLengthIs(input[start..], end - start);
  }
}
