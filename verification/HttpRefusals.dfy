/**
 The other ways to be turned away: for every input, exactly when the reader refuses it as a
 bad request, and with which code, as too large, or with a panic.  Together with `IoExact`
 and `ReaderExact` this says what the reader answers to every stream.
 */
module HttpRefusals {
  import opened Options
  import opened Text
  import opened Utf8
  import opened Numerals
  import opened HttpReader
  import opened HeaderFields
  import opened HttpSyntax
  import opened HttpGrammar
  import opened HttpFailures

  // ---- lines, the last of which may lack its newline ----

  predicate EndedBy(s: bytes, text: string, eol: Eol, rest: bytes) {
    ValidLine(Line(text, eol)) && s == RenderLine(Line(text, eol)) + rest
  }

  predicate Unended(s: bytes, text: string, rest: bytes) {
    s == Encode(text) && rest == [] && text != "" && '\n' !in text
  }

  /** `s` begins with a line of this text, and `rest` comes after it. */
  ghost predicate NextLine(s: bytes, text: string, rest: bytes) {
    (exists eol :: EndedBy(s, text, eol, rest)) || Unended(s, text, rest)
  }

  /** `s` begins with lines of these texts. */
  ghost predicate Takes(s: bytes, texts: seq<string>, rest: bytes)
    decreases |texts|
  {
    if texts == [] then s == rest
    else exists mid :: NextLine(s, texts[0], mid) && Takes(mid, texts[1..], rest)
  }

  lemma NextLineIff(s: bytes, text: string, rest: bytes)
    ensures NextLine(s, text, rest) <==> ReadHttpLine(s) == Done(Some(text), rest)
  {
    hide ReadHttpLine, Encode, RenderLine, ValidLine;
    if NextLine(s, text, rest) {
      if eol :| EndedBy(s, text, eol, rest) {
        LineComplete(Line(text, eol), rest);
      } else {
        UnendedLine(text);
      }
    }
    if ReadHttpLine(s) == Done(Some(text), rest) {
      LineFound(s, text, rest);
    }
  }

  lemma LineFound(s: bytes, text: string, rest: bytes)
    requires ReadHttpLine(s) == Done(Some(text), rest)
    ensures NextLine(s, text, rest)
  {
    SomethingRead(s);
    hide ReadHttpLine, Encode, RenderLine, ValidLine;
    if s[LineLength(s) - 1] == NEWLINE {
      var line := EndedLineSound(s);
      assert line == Line(text, line.eol);
      assert EndedBy(s, text, line.eol, rest);
    } else {
      UnendedLineSound(s);
    }
  }

  lemma SomethingRead(s: bytes)
    requires ReadHttpLine(s).Done? && ReadHttpLine(s).value.Some?
    ensures s != [] && LineLength(s) > 0
  {}

  // ---- the header section ----

  ghost predicate IsField(text: string) {
    exists field :: SpellsField(text, field)
  }

  ghost predicate AreFields(texts: seq<string>) {
    forall t :: t in texts ==> IsField(t)
  }

  /** The length of these texts, without their line ends. */
  function Amount(texts: seq<string>): nat {
    if texts == [] then 0 else |Encode(texts[0])| + Amount(texts[1..])
  }

  /** The part of a line before its first colon, amid white space, is a token. */
  ghost predicate NamedByToken(name: string) {
    exists token :: TrimsTo(name, token) && ValidHeaderName(token)
  }

  predicate SplitAt(text: string, name: string, value: string) {
    text == name + [':'] + value && ':' !in name
  }

  ghost predicate HoldsControl(value: string) {
    exists trimmed, c :: TrimsTo(value, trimmed) && c in trimmed && IsControl(c)
  }

  /** What is wrong with a line that is no field. */
  ghost predicate BadField(text: string, code: string) {
    if ':' !in text then code == "invalid_http_header"
    else
      exists name, value :: SplitAt(text, name, value)
        && if !NamedByToken(name) then code == "invalid_http_header_name"
           else HoldsControl(value) && code == "invalid_http_header_value"
  }

  lemma NamedIff(name: string)
    ensures NamedByToken(name) <==> ValidHeaderName(Lower(Trim(name)))
  {
    hide Trim, Lower, ValidHeaderName, TrimsTo;
    TrimPads(name);
    LowerValidIff(Trim(name));
    if token :| TrimsTo(name, token) && ValidHeaderName(token) {
      TrimIs(name, token);
    }
  }

  lemma HoldsIff(value: string)
    ensures HoldsControl(value) <==> exists c :: c in Trim(value) && IsControl(c)
  {
    hide Trim, IsControl, TrimsTo;
    TrimPads(value);
    if trimmed, c :| TrimsTo(value, trimmed) && c in trimmed && IsControl(c) {
      TrimIs(value, trimmed);
    }
  }

  lemma SplitIs(text: string, name: string, value: string)
    requires SplitAt(text, name, value)
    ensures IndexOf(text, ':') == |name| && text[..|name|] == name && text[|name| + 1..] == value && ':' in text
  {
    IndexOfFirst(name, ':', value);
  }

  /** A line is refused as a field, with this code, exactly when this is wrong with it. */
  lemma BadFieldIff(text: string, code: string)
    ensures ParseField(text) == Refused(code) <==> BadField(text, code)
  {
    hide Trim, Lower, ValidHeaderName, IsControl, NamedByToken, HoldsControl;
    var i := IndexOf(text, ':');
    if ':' in text {
      var name, value := text[..i], text[i + 1..];
      hide IndexOf;
      CutAt(text, i);
      assert SplitAt(text, name, value);
      NamedIff(name);
      HoldsIff(value);
      if BadField(text, code) {
        var n, v :| SplitAt(text, n, v)
          && if !NamedByToken(n) then code == "invalid_http_header_name"
             else HoldsControl(v) && code == "invalid_http_header_value";
        SplitIs(text, n, v);
      }
    }
  }

  /** What is wrong with the next line of the header section, `used` bytes of its budget being spent. */
  ghost predicate BadText(text: string, used: nat, code: string) {
    if used + |Encode(text)| > 65536 then code == "headers_too_large" else text != "" && BadField(text, code)
  }

  /** What is wrong after `count` fields. */
  ghost predicate BadSection(after: bytes, count: nat, used: nat, code: string) {
    if count == 128 then code == "too_many_headers"
    else if after == [] then code == "unexpected_eof_in_headers"
    else exists text, rest :: NextLine(after, text, rest) && BadText(text, used, code)
  }

  /** A request line and some fields, within both bounds. */
  ghost predicate InHeaders(s: bytes, start: string, texts: seq<string>, after: bytes) {
    && SpellsStart(start) && AreFields(texts) && |texts| <= 128
    && |Encode(start)| + Amount(texts) <= 65536 && Takes(s, [start] + texts, after)
  }

  /** Everything that can be wrong with the head. */
  ghost predicate HeadRefusal(s: bytes, code: string) {
    || (exists text, rest :: NextLine(s, text, rest) && BadStart(text, code))
    || exists start, texts, after ::
         InHeaders(s, start, texts, after) && BadSection(after, |texts|, |Encode(start)| + Amount(texts), code)
  }

  ghost predicate BadStart(text: string, code: string) {
    if !SpellsStart(text) then code == "invalid_http_request_line"
    else |Encode(text)| > 65536 && code == "headers_too_large"
  }

  lemma TextStep(s: bytes, text: string, mid: bytes, left: nat, used: nat, headers: Headers) returns (after: Headers)
    requires NextLine(s, text, mid) && IsField(text) && left > 0 && used + |Encode(text)| <= MAX_HEADER_BYTES
    ensures ReadHeaders(s, left, used, headers) == ReadHeaders(mid, left - 1, used + |Encode(text)|, after)
  {
    hide ReadHttpLine, ParseField, Encode, NextLine, SpellsField, AddField;
    NextLineIff(s, text, mid);
    var field :| SpellsField(text, field);
    ParsesIff(text, field);
    FieldIsNotBlank(text);
    after := AddField(headers, field);
  }

  /** Whatever fields the section begins with are passed over, the map apart. */
  lemma {:induction false} FieldsPassed(
    s: bytes, texts: seq<string>, after: bytes, left: nat, used: nat, headers: Headers) returns (collected: Headers)
    requires AreFields(texts) && Takes(s, texts, after) && |texts| <= left
    requires used + Amount(texts) <= MAX_HEADER_BYTES
    ensures ReadHeaders(s, left, used, headers)
         == ReadHeaders(after, left - |texts|, used + Amount(texts), collected)
    decreases |texts|
  {
    hide ReadHeaders, Encode, NextLine, IsField;
    if texts == [] {
      collected := headers;
    } else {
      var mid :| NextLine(s, texts[0], mid) && Takes(mid, texts[1..], after);
      assert texts[0] in texts;
      var added := TextStep(s, texts[0], mid, left, used, headers);
      collected := FieldsPassed(mid, texts[1..], after, left - 1, used + |Encode(texts[0])|, added);
    }
  }

  /** The fields the section begins with, up to the line that ends it or stops the reader. */
  lemma {:induction false} FieldsFound(s: bytes, left: nat, used: nat, headers: Headers)
    returns (texts: seq<string>, after: bytes, collected: Headers)
    requires used <= MAX_HEADER_BYTES
    ensures AreFields(texts) && Takes(s, texts, after) && |texts| <= left
    ensures used + Amount(texts) <= MAX_HEADER_BYTES
    ensures ReadHeaders(s, left, used, headers)
         == ReadHeaders(after, left - |texts|, used + Amount(texts), collected)
    ensures |texts| < left ==>
              var r := ReadHeaderLine(after, used + Amount(texts)); r.Failed? || r.value.EndOfHeaders?
    decreases left
  {
    hide ReadHeaderLine, Encode, NextLine, IsField, AddField;
    texts, after, collected := [], s, headers;
    if left > 0 {
      var r := ReadHeaderLine(s, used);
      if r.Done? && r.value.FieldLine? {
        var text := FieldTaken(s, used);
        var more;
        more, after, collected :=
          FieldsFound(r.rest, left - 1, used + |Encode(text)|, AddField(headers, r.value.field));
        texts := [text] + more;
        assert texts[1..] == more;
      }
    }
  }

  lemma FieldTaken(s: bytes, used: nat) returns (text: string)
    requires var r := ReadHeaderLine(s, used); r.Done? && r.value.FieldLine?
    requires used <= MAX_HEADER_BYTES
    ensures var r := ReadHeaderLine(s, used);
            && NextLine(s, text, r.rest) && IsField(text)
            && r.value.used == used + |Encode(text)| <= MAX_HEADER_BYTES
  {
    hide ReadHttpLine, ParseField, Encode, NextLine, SpellsField;
    var line := ReadHttpLine(s);
    text := line.value.value;
    NextLineIff(s, text, line.rest);
    ParsesIff(text, ParseField(text).field);
  }

  lemma NextIsUnique(s: bytes, text: string, rest: bytes)
    requires NextLine(s, text, rest)
    ensures s != [] && forall t, r :: NextLine(s, t, r) ==> t == text && r == rest
  {
    NextLineIff(s, text, rest);
    SomethingRead(s);
    hide NextLine, ReadHttpLine;
    forall t, r | NextLine(s, t, r)
      ensures t == text && r == rest
    {
      NextLineIff(s, t, r);
    }
  }

  /** One line of the section is refused exactly when this is wrong with it. */
  lemma HeaderLineRefusedIff(s: bytes, used: nat, code: string)
    requires used <= MAX_HEADER_BYTES
    ensures ReadHeaderLine(s, used) == Failed(BadRequest(code))
       <==> if s == [] then code == "unexpected_eof_in_headers"
            else exists text, rest :: NextLine(s, text, rest) && BadText(text, used, code)
  {
    hide ReadHttpLine, ParseField, Encode, NextLine, BadField;
    var line := ReadHttpLine(s);
    assert line.Done? && line.value.None? <==> s == [];
    if line.Done? && line.value.Some? {
      NextLineIff(s, line.value.value, line.rest);
      NextIsUnique(s, line.value.value, line.rest);
      BadFieldIff(line.value.value, code);
    } else if s != [] {
      forall text, rest
        ensures !NextLine(s, text, rest)
      {
        NextLineIff(s, text, rest);
      }
    }
  }

  lemma SectionRefused(after: bytes, count: nat, used: nat, headers: Headers, code: string)
    requires count <= 128 && used <= MAX_HEADER_BYTES
    requires count < 128 ==> var r := ReadHeaderLine(after, used); r.Failed? || r.value.EndOfHeaders?
    ensures ReadHeaders(after, 128 - count, used, headers) == Failed(BadRequest(code))
       <==> BadSection(after, count, used, code)
  {
    hide ReadHeaderLine, NextLine, BadText;
    HeaderLineRefusedIff(after, used, code);
  }

  lemma SectionStops(after: bytes, count: nat, used: nat, headers: Headers, code: string)
    requires count <= 128 && used <= MAX_HEADER_BYTES && BadSection(after, count, used, code)
    ensures ReadHeaders(after, 128 - count, used, headers) == Failed(BadRequest(code))
  {
    hide ReadHeaderLine, NextLine, BadText;
    HeaderLineRefusedIff(after, used, code);
  }

  lemma HeadRefused(s: bytes, code: string)
    requires HeadRefusal(s, code)
    ensures ReadHead(s) == Failed(BadRequest(code))
  {
    hide ReadHttpLine, ValidRequestLine, SpellsStart, Encode, NextLine, ReadHeaders, BadSection, AreFields, ReadHead;
    if text, rest :| NextLine(s, text, rest) && BadStart(text, code) {
      StartRefused(s, text, rest, code);
    } else {
      var start, texts, after :| InHeaders(s, start, texts, after)
        && BadSection(after, |texts|, |Encode(start)| + Amount(texts), code);
      assert ([start] + texts)[1..] == texts;
      var mid :| NextLine(s, start, mid) && Takes(mid, texts, after);
      var collected := FieldsPassed(mid, texts, after, 128, |Encode(start)|, map[]);
      SectionStops(after, |texts|, |Encode(start)| + Amount(texts), collected, code);
      HeadGoesOn(s, start, mid);
    }
  }

  lemma StartRefused(s: bytes, text: string, rest: bytes, code: string)
    requires NextLine(s, text, rest) && BadStart(text, code)
    ensures ReadHead(s) == Failed(BadRequest(code))
  {
    hide ReadHttpLine, ValidRequestLine, SpellsStart, Encode, NextLine, ReadHeaders;
    NextLineIff(s, text, rest);
    StartIff(text);
  }

  /** After a good request line the head is what the header loop says. */
  lemma HeadGoesOn(s: bytes, start: string, mid: bytes)
    requires NextLine(s, start, mid) && SpellsStart(start) && |Encode(start)| <= MAX_HEADER_BYTES
    ensures ReadHeaders(mid, 128, |Encode(start)|, map[]).Failed? ==>
              ReadHead(s) == Failed(ReadHeaders(mid, 128, |Encode(start)|, map[]).error)
    ensures ReadHeaders(mid, 128, |Encode(start)|, map[]).Done? ==> ReadHead(s).Done?
  {
    hide ReadHttpLine, ValidRequestLine, SpellsStart, Encode, NextLine, ReadHeaders;
    NextLineIff(s, start, mid);
    StartIff(start);
  }

  lemma HeadRefusalFound(s: bytes, code: string)
    requires ReadHead(s) == Failed(BadRequest(code))
    ensures HeadRefusal(s, code)
  {
    hide ReadHttpLine, ValidRequestLine, SpellsStart, Encode, NextLine, ReadHeaders, BadSection, AreFields,
         ReadHeaderLine;
    var first := ReadHttpLine(s);
    var start := first.value.value;
    NextLineIff(s, start, first.rest);
    StartIff(start);
    if SpellsStart(start) && |Encode(start)| <= 65536 {
      var texts, after, collected := FieldsFound(first.rest, 128, |Encode(start)|, map[]);
      SectionRefused(after, |texts|, |Encode(start)| + Amount(texts), collected, code);
      assert ([start] + texts)[1..] == texts;
      assert Takes(s, [start] + texts, after);
      assert InHeaders(s, start, texts, after);
    } else {
      assert BadStart(start, code);
    }
  }

  /** Nothing in the head is too large in the sense of a body, or panics. */
  lemma HeadFailsPlainly(s: bytes)
    ensures ReadHead(s).Failed? ==> ReadHead(s).error.Io? || ReadHead(s).error.BadRequest?
  {
    hide ReadHttpLine, ValidRequestLine, Encode, ReadHeaders;
    var first := ReadHttpLine(s);
    if first.Done? && first.value.Some? {
      SectionFailsPlainly(first.rest, MAX_HEADER_LINES, |Encode(first.value.value)|, map[]);
    }
  }

  lemma {:induction false} SectionFailsPlainly(s: bytes, left: nat, used: nat, headers: Headers)
    ensures var r := ReadHeaders(s, left, used, headers); r.Failed? ==> r.error.Io? || r.error.BadRequest?
    decreases left
  {
    hide ReadHeaderLine, AddField;
    if left == 0 {
    } else {
      var step := ReadHeaderLine(s, used);
      LineFailsPlainly(s, used);
      if step.Done? && step.value.FieldLine? {
        SectionFailsPlainly(step.rest, left - 1, step.value.used, AddField(headers, step.value.field));
      }
    }
  }

  lemma LineFailsPlainly(s: bytes, used: nat)
    ensures var r := ReadHeaderLine(s, used); r.Failed? ==> r.error.Io? || r.error.BadRequest?
  {
    hide ParseField, Encode;
  }

  // ---- the body ----

  /** What is wrong with an announced length. */
  ghost predicate LengthRefusal(text: string, max: nat, error: ReadError) {
    match error
    case Io => false
    case BadRequest(code) => code == "invalid_content_length" && forall n: nat :: !SpellsNumber(text, n, 10)
    case TooLarge => exists n: nat :: SpellsNumber(text, n, 10) && n > max
    case Panic => exists n: nat :: SpellsNumber(text, n, 10) && ISIZE_MAX < n <= max
  }

  lemma LengthRefusedIff(s: bytes, text: string, max: nat, error: ReadError)
    requires error != Io
    ensures ReadSized(s, text, max) == Failed(error) <==> LengthRefusal(text, max, error)
  {
    hide ParseUsize, Trim, SpellsNumber;
    forall n: nat
      ensures SpellsNumber(text, n, 10) <==> ParseUsize(Trim(text), 10) == Some(n)
    {
      NumberIff(text, n, 10);
    }
  }

  /** The announced size with what is there already is more than the limit allows. */
  predicate Exceeds(size: nat, have: nat, max: nat) {
    have + size > max && max < USIZE_MAX
  }

  /** A size line, and the bytes after it. */
  ghost predicate SizeLineAt(s: bytes, size: nat, rest: bytes) {
    exists text :: NextLine(s, text, rest) && SpellsSize(text, size)
  }

  ghost predicate NoSize(text: string) {
    forall n: nat :: !SpellsSize(text, n)
  }

  /** What is wrong with the next chunk, `have` bytes of the body being in. */
  ghost predicate ChunkRefusal(after: bytes, have: nat, max: nat, error: ReadError) {
    match error
    case Io => false
    case TooLarge => exists size: nat, rest :: SizeLineAt(after, size, rest) && size > 0 && Exceeds(size, have, max)
    case Panic =>
      exists size: nat, rest ::
        SizeLineAt(after, size, rest) && size > 0 && !Exceeds(size, have, max) && have + size > ISIZE_MAX
    case BadRequest(code) =>
      || (code == "unexpected_eof_in_chunk_size" && after == [])
      || (code == "invalid_chunk_size" && exists text, rest :: NextLine(after, text, rest) && NoSize(text))
      || (code == "unexpected_eof_in_trailers"
          && exists rest, trailers :: SizeLineAt(after, 0, rest) && Takes(rest, trailers, []) && "" !in trailers)
      || (code == "invalid_chunk_terminator"
          && exists size: nat, rest ::
               SizeLineAt(after, size, rest) && Fits(size, have, max) && Unterminated(rest, size))
  }

  /** The data is all there, and two bytes that are not CR LF come after it. */
  predicate Unterminated(s: bytes, size: nat) {
    size + 2 <= |s| && !(s[size] == 13 && s[size + 1] == 10)
  }

  /** Trailers that never end are the only ones refused. */
  lemma {:induction false} TrailersRefused(s: bytes, trailers: seq<string>)
    requires Takes(s, trailers, []) && "" !in trailers
    ensures ReadTrailers(s) == Failed(BadRequest("unexpected_eof_in_trailers"))
    decreases |trailers|
  {
    hide NextLine;
    if trailers == [] {
    } else {
      var mid :| NextLine(s, trailers[0], mid) && Takes(mid, trailers[1..], []);
      NextLineIff(s, trailers[0], mid);
      hide ReadHttpLine;
      assert trailers[0] in trailers;
      TrailersRefused(mid, trailers[1..]);
    }
  }

  lemma {:induction false} TrailersRefusalFound(s: bytes) returns (trailers: seq<string>)
    requires ReadTrailers(s).Failed? && ReadTrailers(s).error != Io
    ensures ReadTrailers(s).error == BadRequest("unexpected_eof_in_trailers")
    ensures Takes(s, trailers, []) && "" !in trailers
    decreases |s|
  {
    var next := ReadHttpLine(s);
    if next.Done? && next.value.None? {
      trailers := [];
    } else {
      NextLineIff(s, next.value.value, next.rest);
      hide NextLine, ReadHttpLine;
      var more := TrailersRefusalFound(next.rest);
      trailers := [next.value.value] + more;
      assert trailers[1..] == more;
    }
  }

  lemma SizeLineIff(s: bytes, size: nat, rest: bytes)
    ensures SizeLineAt(s, size, rest)
       <==> var r := ReadHttpLine(s);
            r.Done? && r.value.Some? && r.rest == rest && ChunkSize(r.value.value) == Some(size)
  {
    hide NextLine, ReadHttpLine, SpellsSize, ChunkSize;
    var r := ReadHttpLine(s);
    if r.Done? && r.value.Some? {
      NextLineIff(s, r.value.value, r.rest);
      SizeIff(r.value.value, size);
    }
    if text :| NextLine(s, text, rest) && SpellsSize(text, size) {
      NextLineIff(s, text, rest);
      SizeIff(text, size);
    }
  }

  lemma NoSizeIff(text: string)
    ensures NoSize(text) <==> ChunkSize(text).None?
  {
    hide SpellsSize, ChunkSize;
    if ChunkSize(text).Some? {
      SizeIff(text, ChunkSize(text).value);
    } else {
      forall n: nat
        ensures !SpellsSize(text, n)
      {
        SizeIff(text, n);
      }
    }
  }

  /** A turn of the chunk loop by what its size line says. */
  lemma ChunkTurn(s: bytes, have: nat, max: nat)
    requires ReadHttpLine(s).Done? && ReadHttpLine(s).value.Some? && ChunkSize(ReadHttpLine(s).value.value).Some?
    requires have <= max && have <= ISIZE_MAX
    ensures var size, rest := ChunkSize(ReadHttpLine(s).value.value).value, ReadHttpLine(s).rest;
            var r := ReadChunk(s, have, max);
            if size == 0 then r.Failed? <==> ReadTrailers(rest).Failed?
            else if Exceeds(size, have, max) then r == Failed(TooLarge)
            else if have + size > ISIZE_MAX then r == Failed(Panic)
            else if Unterminated(rest, size) then r == Failed(BadRequest("invalid_chunk_terminator"))
            else r.Failed? ==> r.error == Io
    ensures var size, rest := ChunkSize(ReadHttpLine(s).value.value).value, ReadHttpLine(s).rest;
            size == 0 && ReadTrailers(rest).Failed? ==> ReadChunk(s, have, max) == Failed(ReadTrailers(rest).error)
  {
    hide ReadHttpLine, ChunkSize, ReadTrailers, ReadChunkData;
    DataTurn(ReadHttpLine(s).rest, ChunkSize(ReadHttpLine(s).value.value).value);
  }

  lemma DataTurn(s: bytes, size: nat)
    ensures if Unterminated(s, size) then ReadChunkData(s, size) == Failed(BadRequest("invalid_chunk_terminator"))
            else ReadChunkData(s, size).Failed? ==> ReadChunkData(s, size).error == Io
  {
    if size + 2 <= |s| {
      var rest := s[size..];
      assert rest[..2] == [s[size], s[size + 1]];
    }
  }

  /** A turn whose size line is missing or says no size. */
  lemma NoChunkTurn(s: bytes, have: nat, max: nat)
    requires ReadHttpLine(s).Done?
    requires ReadHttpLine(s).value.None? || ChunkSize(ReadHttpLine(s).value.value).None?
    ensures ReadChunk(s, have, max)
         == Failed(BadRequest(
              if ReadHttpLine(s).value.None? then "unexpected_eof_in_chunk_size" else "invalid_chunk_size"))
  {
    hide ReadHttpLine, ChunkSize, ReadTrailers;
  }

  lemma ChunkRefused(s: bytes, have: nat, max: nat, error: ReadError)
    requires have <= max && have <= ISIZE_MAX && ChunkRefusal(s, have, max, error)
    ensures ReadChunk(s, have, max) == Failed(error)
  {
    hide NextLine, ReadHttpLine, ChunkSize, ReadTrailers, ReadChunk, SizeLineAt, NoSize, Unterminated;
    match error
    case TooLarge =>
      var size: nat, rest :| SizeLineAt(s, size, rest) && size > 0 && Exceeds(size, have, max);
      SizeLineIff(s, size, rest);
      ChunkTurn(s, have, max);
    case Panic =>
      var size: nat, rest :|
        SizeLineAt(s, size, rest) && size > 0 && !Exceeds(size, have, max) && have + size > ISIZE_MAX;
      SizeLineIff(s, size, rest);
      ChunkTurn(s, have, max);
    case BadRequest(code) =>
      ChunkRefusedCode(s, have, max, code);
  }

  lemma ChunkRefusedCode(s: bytes, have: nat, max: nat, code: string)
    requires have <= max && have <= ISIZE_MAX && ChunkRefusal(s, have, max, BadRequest(code))
    ensures ReadChunk(s, have, max) == Failed(BadRequest(code))
  {
    hide NextLine, ChunkSize, ReadTrailers, ReadChunk, SizeLineAt, NoSize, Unterminated;
    if code == "unexpected_eof_in_chunk_size" && s == [] {
      NoChunkTurn(s, have, max);
    } else if code == "invalid_chunk_size" {
      hide ReadHttpLine;
      var text, rest :| NextLine(s, text, rest) && NoSize(text);
      NextLineIff(s, text, rest);
      NoSizeIff(text);
      NoChunkTurn(s, have, max);
    } else if code == "unexpected_eof_in_trailers" {
      hide ReadHttpLine;
      var rest, trailers :| SizeLineAt(s, 0, rest) && Takes(rest, trailers, []) && "" !in trailers;
      SizeLineIff(s, 0, rest);
      TrailersRefused(rest, trailers);
      ChunkTurn(s, have, max);
    } else {
      hide ReadHttpLine;
      var size: nat, rest :| SizeLineAt(s, size, rest) && Fits(size, have, max) && Unterminated(rest, size);
      SizeLineIff(s, size, rest);
      ChunkTurn(s, have, max);
    }
  }

  lemma ChunkRefusalFound(s: bytes, have: nat, max: nat, error: ReadError)
    requires have <= max && have <= ISIZE_MAX && error != Io && ReadChunk(s, have, max) == Failed(error)
    ensures ChunkRefusal(s, have, max, error)
  {
    var next := ReadHttpLine(s);
    LineSetsError(s, have, max);
    EmptyIff(s);
    hide ReadHttpLine, NextLine, ChunkSize, ReadTrailers, ReadChunk, SizeLineAt, NoSize, Unterminated, Takes;
    if next.value.None? {
      NoChunkTurn(s, have, max);
    } else {
      var text := next.value.value;
      NextLineIff(s, text, next.rest);
      NoSizeIff(text);
      if ChunkSize(text).None? {
        NoChunkTurn(s, have, max);
      } else {
        SizedRefusalFound(s, have, max, error);
      }
    }
  }

  lemma SizedRefusalFound(s: bytes, have: nat, max: nat, error: ReadError)
    requires have <= max && have <= ISIZE_MAX && error != Io && ReadChunk(s, have, max) == Failed(error)
    requires ReadHttpLine(s).Done? && ReadHttpLine(s).value.Some? && ChunkSize(ReadHttpLine(s).value.value).Some?
    ensures ChunkRefusal(s, have, max, error)
  {
    hide ReadHttpLine, NextLine, ChunkSize, ReadTrailers, ReadChunk, SizeLineAt, NoSize, Unterminated, Takes;
    var rest := ReadHttpLine(s).rest;
    var size := ChunkSize(ReadHttpLine(s).value.value).value;
    SizeLineIff(s, size, rest);
    ChunkTurn(s, have, max);
    if size == 0 {
      var trailers := TrailersRefusalFound(rest);
    } else if !Exceeds(size, have, max) && have + size <= ISIZE_MAX {
      assert Fits(size, have, max) by { FitsIff(size, have, max); }
    }
  }

  lemma FitsIff(size: nat, have: nat, max: nat)
    requires size > 0 && have + size <= ISIZE_MAX
    ensures Fits(size, have, max) <==> !Exceeds(size, have, max)
  {}

  lemma EmptyIff(s: bytes)
    ensures ReadHttpLine(s).Done? && ReadHttpLine(s).value.None? <==> s == []
  {}

  lemma LineSetsError(s: bytes, have: nat, max: nat)
    requires ReadChunk(s, have, max).Failed? && ReadChunk(s, have, max).error != Io
    ensures ReadHttpLine(s).Done?
  {
    hide ChunkSize, ReadTrailers;
  }

  // ---- the whole request ----

  /** What is wrong after a valid head. */
  ghost predicate BodyRefusal(s: bytes, headers: Headers, max: nat, error: ReadError) {
    if AnnouncesChunks(headers) then
      exists chunks, after :: s == RenderChunks(chunks) + after && ChunksFit(chunks, max)
        && ChunkRefusal(after, |Payload(chunks)|, max, error)
    else "content-length" in headers && LengthRefusal(headers["content-length"], max, error)
  }

  ghost predicate ChunksFit(chunks: seq<DataChunk>, max: nat) {
    (forall c :: c in chunks ==> ValidChunk(c)) && |Payload(chunks)| <= max && |Payload(chunks)| <= ISIZE_MAX
  }

  lemma BodyRefused(s: bytes, headers: Headers, max: nat, error: ReadError)
    requires error != Io && BodyRefusal(s, headers, max, error)
    ensures ReadBody(s, headers, max) == Failed(error)
  {
    hide ReadChunks, ReadSized, ChunkRefusal, LengthRefusal, IsChunked, AnnouncesChunks, ValidChunk, RenderChunks,
         ReadChunk;
    AnnouncesIff(headers);
    if AnnouncesChunks(headers) {
      var chunks, after :| s == RenderChunks(chunks) + after && ChunksFit(chunks, max)
        && ChunkRefusal(after, |Payload(chunks)|, max, error);
      ChunkRefused(after, |Payload(chunks)|, max, error);
      ChunksConsumed(chunks, after, [], max);
      assert [] + Payload(chunks) == Payload(chunks);
      FirstChunkFails(after, Payload(chunks), max);
    } else {
      LengthRefusedIff(s, headers["content-length"], max, error);
    }
  }

  lemma BodyRefusalFound(s: bytes, headers: Headers, max: nat, error: ReadError)
    requires error != Io && ReadBody(s, headers, max) == Failed(error)
    ensures BodyRefusal(s, headers, max, error)
  {
    hide ReadChunks, ReadSized, ChunkRefusal, LengthRefusal, IsChunked, AnnouncesChunks, ValidChunk, RenderChunks,
         ReadChunk;
    AnnouncesIff(headers);
    if IsChunked(headers) {
      var chunks, after := ChunksFound(s, [], max);
      assert [] + Payload(chunks) == Payload(chunks);
      TurnDecides(after, Payload(chunks), max);
      ChunkRefusalFound(after, |Payload(chunks)|, max, error);
    } else {
      LengthRefusedIff(s, headers["content-length"], max, error);
    }
  }

  lemma TurnDecides(s: bytes, body: bytes, max: nat)
    requires var r := ReadChunk(s, |body|, max); r.Failed? || r.value.LastChunk?
    ensures ReadChunks(s, body, max).Failed? ==> ReadChunk(s, |body|, max) == Failed(ReadChunks(s, body, max).error)
  {
    hide ReadChunk;
  }

  /** The head is well formed, and this is wrong with what comes after it. */
  ghost predicate BodyRefusalAfter(s: bytes, head: Message, rest: bytes, max: nat, error: ReadError) {
    ValidHead(head) && s == RenderHead(head) + rest && BodyRefusal(rest, HeadersOf(head), max, error)
  }

  /** Everything that can be wrong with a request, short of an I/O error. */
  ghost predicate Refusal(s: bytes, max: nat, error: ReadError) {
    || (error.BadRequest? && HeadRefusal(s, error.code))
    || exists head, rest :: BodyRefusalAfter(s, head, rest, max, error)
  }

  /**
   The reader refuses an input with this error if and only if this is what is wrong with it:
   each code of a bad request, too large, and the panic, for every input.
   */
  lemma RefusalExact(s: bytes, max: nat, error: ReadError)
    requires error != Io
    ensures ReadRequest(s, max) == Failed(error) <==> Refusal(s, max, error)
  {
    hide ReadHead, ReadBody, HeadRefusal, BodyRefusal, ValidHead, HeadersOf, RenderHead;
    if Refusal(s, max, error) {
      if error.BadRequest? && HeadRefusal(s, error.code) {
        HeadRefused(s, error.code);
      } else {
        var head, rest :| BodyRefusalAfter(s, head, rest, max, error);
        HeadComplete(head, rest);
        BodyRefused(rest, HeadersOf(head), max, error);
      }
    }
    if ReadRequest(s, max) == Failed(error) {
      HeadFailsPlainly(s);
      if ReadHead(s).Failed? {
        HeadRefusalFound(s, error.code);
      } else {
        var head := HeadSound(s);
        BodyRefusalFound(ReadHead(s).rest, HeadersOf(head), max, error);
        assert BodyRefusalAfter(s, head, ReadHead(s).rest, max, error);
      }
    }
  }

  // ---- the two that a sender meets most ----

  /**
   After a chunked head and complete chunks, a chunk within the limit whose data is not
   followed by CR LF is a bad request, whatever follows.
   */
  lemma UnterminatedChunk(
    head: Message, chunks: seq<DataChunk>, size: Line, data: bytes, two: bytes, tail: bytes, max: nat)
    requires ChunksSoFar(head, chunks, max) && ValidLine(size) && SpellsSize(size.text, |data|)
    requires Fits(|data|, |Payload(chunks)|, max) && |two| == 2 && two != [13, 10]
    ensures ReadRequest(RenderHead(head) + (RenderChunks(chunks) + (RenderLine(size) + (data + (two + tail)))), max)
         == Failed(BadRequest("invalid_chunk_terminator"))
  {
    hide ReadRequest, ValidHead, HeadersOf, RenderHead, RenderChunks, RenderLine, ValidLine, SpellsSize,
         AnnouncesChunks, ValidChunk, NextLine;
    var rest := data + (two + tail);
    var after := RenderLine(size) + rest;
    assert size == Line(size.text, size.eol);
    assert NextLine(after, size.text, rest) by { EndedIsNext(after, size, rest); }
    assert SizeLineAt(after, |data|, rest);
    assert rest[|data|] == two[0] && rest[|data| + 1] == two[1];
    assert Unterminated(rest, |data|);
    var error := BadRequest("invalid_chunk_terminator");
    assert ChunkRefusal(after, |Payload(chunks)|, max, error);
    var body := RenderChunks(chunks) + after;
    assert BodyRefusal(body, HeadersOf(head), max, error);
    assert BodyRefusalAfter(RenderHead(head) + body, head, body, max, error);
    RefusalExact(RenderHead(head) + body, max, error);
  }

  lemma EndedIsNext(s: bytes, line: Line, rest: bytes)
    requires ValidLine(line) && s == RenderLine(line) + rest
    ensures NextLine(s, line.text, rest)
  {
    assert line == Line(line.text, line.eol);
    assert EndedBy(s, line.text, line.eol, rest);
  }

  /**
   Too large means that an announced length, or the chunks so far and the size of the next
   one, exceed the limit, and nothing else does.
   */
  lemma TooLargeIff(s: bytes, max: nat)
    requires max < USIZE_MAX
    ensures ReadRequest(s, max) == Failed(TooLarge) <==> exists head, rest :: AnnouncesTooMuch(s, head, rest, max)
  {
    hide ReadRequest, ValidHead, HeadersOf, RenderHead, RenderChunks, AnnouncesChunks, ValidChunk, SizeLineAt,
         SpellsNumber, HeadRefusal;
    RefusalExact(s, max, TooLarge);
    if head, rest :| BodyRefusalAfter(s, head, rest, max, TooLarge) {
      TooMuchIs(s, head, rest, max);
    }
    if head, rest :| AnnouncesTooMuch(s, head, rest, max) {
      TooMuchIs(s, head, rest, max);
    }
  }

  ghost predicate AnnouncesTooMuch(s: bytes, head: Message, rest: bytes, max: nat) {
    && ValidHead(head) && s == RenderHead(head) + rest
    && var headers := HeadersOf(head);
       if AnnouncesChunks(headers) then
         exists chunks, after, size: nat, more ::
           ChunksFit(chunks, max) && rest == RenderChunks(chunks) + after && SizeLineAt(after, size, more)
           && size > 0 && |Payload(chunks)| + size > max
       else
         "content-length" in headers && exists n: nat :: SpellsNumber(headers["content-length"], n, 10) && n > max
  }

  lemma TooMuchIs(s: bytes, head: Message, rest: bytes, max: nat)
    requires max < USIZE_MAX
    ensures BodyRefusalAfter(s, head, rest, max, TooLarge) <==> AnnouncesTooMuch(s, head, rest, max)
  {
    hide ValidHead, HeadersOf, RenderHead, RenderChunks, AnnouncesChunks, ChunksFit, SizeLineAt, SpellsNumber;
  }
}
