/**
 A client of the response writer: it reads the status line, runs the reader's own header loop
 and takes as many bytes as were announced.  What it makes of any written response is proved
 exactly.
 */
module HttpClient {
  import opened Options
  import opened Text
  import opened Utf8
  import opened Numerals
  import opened HttpReader
  import opened HeaderFields
  import opened HttpSyntax
  import opened HttpGrammar
  import opened HttpFraming
  import opened HttpWriter

  datatype Response = Response(status: nat, headers: Headers, body: bytes)

  function StatusOf(line: string): Option<nat> {
    var words := Words(line);
    if |words| < 2 then None else ParseUsize(words[1], 10)
  }

  /** A client: status line, the reader's own header loop, then `content-length` bytes. */
  function ReadResponse(s: bytes): Read<Response> {
    var (first, rest) :- ReadHttpLine(s);
    if first.None? || StatusOf(first.value).None? then Failed(BadRequest("no_status"))
    else
      var (headers, after) :- ReadHeaders(rest, MAX_HEADER_LINES, |Encode(first.value)|, map[]);
      if "content-length" !in headers then Failed(BadRequest("no_length"))
      else
        var (body, end) :- ReadSized(after, headers["content-length"], ISIZE_MAX);
        Done(Response(StatusOf(first.value).value, headers, body), end)
  }

  lemma {:induction false} FieldLinesConcat(a: seq<Field>, b: seq<Field>)
    ensures RenderLines(FieldLines(a + b)) == RenderLines(FieldLines(a)) + RenderLines(FieldLines(b))
    ensures TextBytes(FieldLines(a + b)) == TextBytes(FieldLines(a)) + TextBytes(FieldLines(b))
  {
    hide RenderLine, CrLfField, Encode;
    if a == [] {
      assert a + b == b;
    } else {
      assert (a + b)[1..] == a[1..] + b;
      FieldLinesConcat(a[1..], b);
      assert FieldLines(a)[1..] == FieldLines(a[1..]);
      assert FieldLines(a + b)[1..] == FieldLines(a[1..] + b);
      Associate(RenderLine(CrLfField(a[0])), RenderLines(FieldLines(a[1..])), RenderLines(FieldLines(b)));
    }
  }

  lemma {:induction false} TextBytesBound(fields: seq<Field>)
    requires forall f :: f in fields ==> |Encode(FieldText(f))| <= 8000
    ensures TextBytes(FieldLines(fields)) <= 8000 * |fields|
  {
    hide Encode, FieldText;
    if fields == [] {
    } else {
      TextBytesBound(fields[1..]);
      assert FieldLines(fields)[1..] == FieldLines(fields[1..]);
      assert fields[0] in fields;
    }
  }

  lemma {:induction false} CleanLowered(fields: seq<Field>)
    requires forall f :: f in fields ==> CleanField(f)
    ensures Lowered(fields) == fields
  {
    hide Lower, CleanName, CleanValue;
    if fields == [] {
    } else {
      assert fields[0] in fields;
      LowerOfClean(fields[0].name);
      CleanLowered(fields[1..]);
    }
  }

  /** The lines a readable map is written as, closing lines included. */
  function SentFields(headers: Headers, length: nat): seq<Field> {
    assert forall n :: n in Sorted(headers.Keys) ==> n in headers by { SortedLists(headers.Keys); }
    FieldsFrom(Sorted(headers.Keys), headers) + ClosingFields(length)
  }

  function SentHeaders(headers: Headers, length: nat): Headers {
    headers["content-length" := Decimal(length)]["connection" := "close"]
  }

  /** The written head stays within the bounds of the reader's header loop. */
  ghost predicate Bounded(status: nat, headers: Headers, length: nat) {
    && |headers| + 2 < MAX_HEADER_LINES
    && |Encode(StatusLine(status))| + TextBytes(FieldLines(SentFields(headers, length))) <= MAX_HEADER_BYTES
  }

  lemma ClosingIsClean(length: nat)
    requires length <= USIZE_MAX
    ensures forall f :: f in ClosingFields(length) ==> CleanField(f) && |Encode(FieldText(f))| <= 200
  {
    hide Encode, Numeral, CleanName, CleanValue, FieldText;
    ClosingNames();
    NumeralIsClean(length, 10);
    WordIsClean(Decimal(length));
    WordIsClean("close");
    DecimalShort(length);
    ShortField("content-length", Decimal(length));
    ShortField("connection", "close");
  }

  lemma ClosingNames()
    ensures CleanName("content-length") && CleanName("connection")
  {}

  lemma SentIsValid(headers: Headers, length: nat)
    requires CleanHeaders(headers) && length <= USIZE_MAX
    ensures var fields := SentFields(headers, length);
            |fields| == |headers| + 2 && forall f :: f in fields ==> CleanField(f)
  {
    hide Encode, Numeral, FieldText, CleanName, CleanValue, FieldsFrom, Sorted;
    SentListed(headers, length);
    ClosingIsClean(length);
    SortedLists(headers.Keys);
    FieldsFromAt(Sorted(headers.Keys), headers);
  }

  /** A map of at most six entries of moderate length is within the bounds. */
  lemma SmallIsReadable(status: nat, headers: Headers, length: nat)
    requires CleanHeaders(headers) && |headers| <= 6 && status <= USIZE_MAX && length <= USIZE_MAX
    requires "content-length" !in headers && "connection" !in headers
    requires forall n :: n in headers ==> |Encode(FieldText(Field(n, headers[n])))| <= 8000
    ensures Bounded(status, headers, length)
  {
    hide Encode, Numeral, FieldText, CleanName, CleanValue, SentFields, ClosingFields, StatusLine, FieldLines,
         TextBytes;
    SentListed(headers, length);
    ClosingIsClean(length);
    SentIsValid(headers, length);
    StatusLineFits(status);
    TextBytesBound(SentFields(headers, length));
  }

  /** Every sent field is an entry of the map or one of the two closing ones. */
  lemma SentListed(headers: Headers, length: nat)
    ensures forall f :: f in SentFields(headers, length) ==>
              f in ClosingFields(length) || (f.name in headers && headers[f.name] == f.value)
  {
    hide Numeral, Sorted, FieldsFrom, ClosingFields;
    SortedLists(headers.Keys);
    FieldsFromAt(Sorted(headers.Keys), headers);
  }

  lemma SentAt(headers: Headers, length: nat)
    ensures var names, fields := Sorted(headers.Keys), SentFields(headers, length);
            && |fields| == |names| + 2
            && (forall i :: 0 <= i < |names| ==> names[i] in headers && fields[i] == Field(names[i], headers[names[i]]))
            && fields[|names|] == Field("content-length", Decimal(length))
            && fields[|names| + 1] == Field("connection", "close")
  {
    hide Numeral, Sorted, FieldsFrom;
    SortedLists(headers.Keys);
    FieldsFromAt(Sorted(headers.Keys), headers);
  }

  lemma SentDistinct(headers: Headers, length: nat)
    requires "content-length" !in headers && "connection" !in headers
    ensures var fields := SentFields(headers, length);
            && (forall i, j :: 0 <= i < j < |fields| ==> fields[i].name != fields[j].name)
            && (forall i :: 0 <= i < |fields| ==>
                  fields[i].name in SentHeaders(headers, length)
                  && SentHeaders(headers, length)[fields[i].name] == fields[i].value)
  {
    hide Numeral, Sorted, SentFields;
    SortedLists(headers.Keys);
    SentAt(headers, length);
  }

  lemma SentComplete(headers: Headers, length: nat)
    ensures forall n :: n in SentHeaders(headers, length) ==>
              exists i :: 0 <= i < |SentFields(headers, length)| && SentFields(headers, length)[i].name == n
  {
    hide Numeral, Sorted, SentFields;
    SortedLists(headers.Keys);
    SentAt(headers, length);
    var names, fields := Sorted(headers.Keys), SentFields(headers, length);
    forall n | n in SentHeaders(headers, length)
      ensures exists i :: 0 <= i < |fields| && fields[i].name == n
    {
      if n == "content-length" {
        assert fields[|names|].name == n;
      } else if n == "connection" {
        assert fields[|names| + 1].name == n;
      } else {
        var i :| 0 <= i < |names| && names[i] == n;
        assert fields[i].name == n;
      }
    }
  }

  lemma SentMerges(headers: Headers, length: nat)
    requires "content-length" !in headers && "connection" !in headers
    ensures Merged(SentFields(headers, length)) == SentHeaders(headers, length)
  {
    hide SentFields, SentHeaders;
    SentDistinct(headers, length);
    SentComplete(headers, length);
    MergeListed(SentFields(headers, length), SentHeaders(headers, length));
  }

  lemma StatusLineReads(status: nat)
    requires status <= USIZE_MAX
    ensures StatusOf(StatusLine(status)) == Some(status)
    ensures ValidLine(Line(StatusLine(status), CrLf))
    ensures |Encode(StatusLine(status))| <= 200
  {
    hide Words, Encode, Numeral, Reason, ParseUsize;
    NumeralIsClean(status, 10);
    ParseOfNumeral(status, 10);
    WordsCons(Decimal(status), Reason(status));
    WordsCons("HTTP/1.1", Decimal(status) + " " + Reason(status));
    Regroup("HTTP/1.1", " ", Decimal(status), " ", Reason(status));
    StatusLineFits(status);
  }

  lemma StatusLineFits(status: nat)
    requires status <= USIZE_MAX
    ensures ValidLine(Line(StatusLine(status), CrLf)) && |Encode(StatusLine(status))| <= 200
  {
    hide Encode, Numeral, Reason;
    NumeralIsClean(status, 10);
    DecimalShort(status);
    ReasonFits(status);
    EncodeLength(StatusLine(status));
    OneLine(Decimal(status), Reason(status));
  }

  lemma ReasonFits(status: nat)
    ensures '\n' !in Reason(status) && |Reason(status)| <= 11
  {}

  lemma OneLine(a: string, b: string)
    requires '\n' !in a && '\n' !in b
    ensures '\n' !in "HTTP/1.1" + " " + a + " " + b
  {}

  function SentMessage(status: nat, headers: Headers, length: nat): Message {
    Message(Line(StatusLine(status), CrLf), FieldLines(SentFields(headers, length)), CrLf, NoBody)
  }

  lemma ResponseIsRendered(status: nat, headers: Headers, body: bytes)
    requires AllWritable(headers)
    ensures ResponseBytes(status, headers, body) == RenderHead(SentMessage(status, headers, |body|)) + body
  {
    hide Encode, Sorted, Closing, Numeral, ClosingFields, Blank, FieldsFrom, WrittenFields, Writable;
    var names := Sorted(headers.Keys);
    SortedLists(headers.Keys);
    WritableAreWritten(names, headers);
    ClosingIsWritten(|body|);
    FieldLinesConcat(FieldsFrom(names, headers), ClosingFields(|body|));
    Associate(RenderLines(FieldLines(FieldsFrom(names, headers))),
              RenderLines(FieldLines(ClosingFields(|body|))), Blank(CrLf));
  }

  // ---- what the client makes of the fields ----

  /** A value that the reader's header loop does not refuse. */
  predicate Legible(value: string) {
    forall c :: c in Trim(value) ==> !IsControl(c)
  }

  /** Names come back in lower case, values without the white space around them. */
  function Received(fields: seq<Field>): seq<Field> {
    if fields == [] then [] else [Field(Lower(fields[0].name), Trim(fields[0].value))] + Received(fields[1..])
  }

  lemma {:induction false} ReceivedAt(fields: seq<Field>)
    ensures |Received(fields)| == |fields|
    ensures forall i :: 0 <= i < |fields| ==>
              Received(fields)[i] == Field(Lower(fields[i].name), Trim(fields[i].value))
  {
    hide Lower, Trim;
    if fields == [] {
    } else {
      ReceivedAt(fields[1..]);
    }
  }

  lemma LegibleLine(field: Field)
    requires Writable(field.name, field.value) && Legible(field.value)
    ensures ValidFieldLine(CrLfField(field))
    ensures FieldOf(CrLfField(field)) == Field(Lower(field.name), Trim(field.value))
  {
    hide FieldText, ValidHeaderName, Lower, Trim, ParseField, ValidFieldLine, FieldOf, ValidLine;
    KeptIsLine(field.name, field.value);
    FieldTextReads(field.name, field.value);
    ReadAsField(CrLfField(field));
  }

  predicate AllSent(fields: seq<Field>) {
    forall f :: f in fields ==> Writable(f.name, f.value)
  }

  lemma {:induction false} LegibleLines(fields: seq<Field>)
    requires AllSent(fields) && forall f :: f in fields ==> Legible(f.value)
    ensures forall l :: l in FieldLines(fields) ==> ValidFieldLine(l)
    ensures |FieldLines(fields)| == |fields| && FieldsOf(FieldLines(fields)) == Received(fields)
  {
    hide Writable, Legible, Lower, Trim, ValidFieldLine, FieldOf, CrLfField;
    if fields == [] {
    } else {
      assert fields[0] in fields;
      LegibleLine(fields[0]);
      LegibleLines(fields[1..]);
      assert FieldLines(fields)[1..] == FieldLines(fields[1..]);
    }
  }

  lemma {:induction false} LinesCount(fields: seq<Field>)
    ensures |FieldLines(fields)| == |fields|
  {
    hide CrLfField;
    if fields == [] {
    } else {
      LinesCount(fields[1..]);
    }
  }

  /** One written field whose value holds a control character inside is refused. */
  lemma IllegibleLine(field: Field, after: bytes, left: nat, used: nat, headers: Headers)
    requires Writable(field.name, field.value) && !Legible(field.value)
    requires left > 0 && used + |Encode(FieldText(field))| <= MAX_HEADER_BYTES
    ensures ReadHeaders(RenderLine(CrLfField(field)) + after, left, used, headers)
         == Failed(BadRequest("invalid_http_header_value"))
  {
    hide FieldText, ValidHeaderName, Lower, Trim, ParseField, ValidLine, ReadHttpLine, Encode, RenderLine;
    KeptIsLine(field.name, field.value);
    FieldTextReads(field.name, field.value);
    LineComplete(CrLfField(field), after);
  }

  lemma FirstSent(fields: seq<Field>, after: bytes)
    requires fields != []
    ensures FieldLines(fields)[0] == CrLfField(fields[0]) && FieldLines(fields)[1..] == FieldLines(fields[1..])
    ensures RenderLines(FieldLines(fields)) + after
         == RenderLine(CrLfField(fields[0])) + (RenderLines(FieldLines(fields[1..])) + after)
    ensures TextBytes(FieldLines(fields)) == |Encode(FieldText(fields[0]))| + TextBytes(FieldLines(fields[1..]))
  {
    hide Encode, RenderLine, FieldText;
    var lines := FieldLines(fields);
    assert lines[1..] == FieldLines(fields[1..]);
    Associate(RenderLine(lines[0]), RenderLines(lines[1..]), after);
  }

  lemma IllegibleLater(fields: seq<Field>)
    requires fields != [] && Legible(fields[0].value) && exists f :: f in fields && !Legible(f.value)
    ensures exists f :: f in fields[1..] && !Legible(f.value)
  {
    hide Legible;
    var f :| f in fields && !Legible(f.value);
    assert f in fields[1..];
  }

  /** And so is the whole header section, wherever that field stands. */
  lemma {:induction false} IllegibleSection(fields: seq<Field>, after: bytes, left: nat, used: nat, headers: Headers)
    requires AllSent(fields) && exists f :: f in fields && !Legible(f.value)
    requires |fields| < left && used + TextBytes(FieldLines(fields)) <= MAX_HEADER_BYTES
    ensures ReadHeaders(RenderLines(FieldLines(fields)) + after, left, used, headers)
         == Failed(BadRequest("invalid_http_header_value"))
  {
    hide Writable, Legible, ReadHeaders, Encode, RenderLine, RenderLines, FieldLines, TextBytes, FieldText,
         ValidFieldLine, FieldOf, AddField, CrLfField;
    var first := fields[0];
    var rest := RenderLines(FieldLines(fields[1..])) + after;
    assert first in fields;
    FirstSent(fields, after);
    if !Legible(first.value) {
      IllegibleLine(first, rest, left, used, headers);
    } else {
      var added := LegiblePassed(first, rest, left, used, headers);
      IllegibleLater(fields);
      IllegibleSection(fields[1..], after, left - 1, used + |Encode(FieldText(first))|, added);
    }
  }

  lemma LegiblePassed(field: Field, rest: bytes, left: nat, used: nat, headers: Headers) returns (added: Headers)
    requires Writable(field.name, field.value) && Legible(field.value)
    requires left > 0 && used + |Encode(FieldText(field))| <= MAX_HEADER_BYTES
    ensures ReadHeaders(RenderLine(CrLfField(field)) + rest, left, used, headers)
         == ReadHeaders(rest, left - 1, used + |Encode(FieldText(field))|, added)
  {
    hide Writable, Legible, ReadHeaders, Encode, RenderLine, FieldText, ValidFieldLine, FieldOf, AddField;
    LegibleLine(field);
    HeadersStep(CrLfField(field), rest, left, used, headers);
    added := AddField(headers, FieldOf(CrLfField(field)));
  }

  // ---- the announced length ----

  lemma NumberHasNoComma(text: string, n: nat)
    requires SpellsNumber(text, n, 10)
    ensures ',' !in text
  {
    hide ValueOf;
    var p :| NumberBy(text, n, 10, p);
    DigitsAreVisible(p.digits, 10);
    assert !IsWhite(',');
    assert forall c :: c in text <==> c in p.before || c in p.sign || c in p.digits || c in p.after;
  }

  /** A list with a comma is no number. */
  lemma CommaIsNoNumber(text: string)
    requires ',' in text
    ensures ParseUsize(Trim(text), 10) == None
  {
    hide ParseUsize, Trim, SpellsNumber;
    var parsed := ParseUsize(Trim(text), 10);
    if parsed.Some? {
      NumberIff(text, parsed.value, 10);
      NumberHasNoComma(text, parsed.value);
    }
  }

  lemma JoinedHasComma(values: seq<string>)
    requires |values| > 1
    ensures ',' in CommaJoin(values)
  {
    var n := |values| - 1;
    var joined := CommaJoin(values[..n]);
    assert CommaJoin(values)[|joined|] == ',';
  }

  /** What `content-length` says once every field is merged. */
  lemma LengthReceived(fields: seq<Field>, length: nat)
    requires length <= USIZE_MAX
    ensures var all := Merged(Received(fields + ClosingFields(length)));
            && "content-length" in all
            && if "content-length" in Names(Received(fields)) then ',' in all["content-length"]
               else all["content-length"] == Decimal(length)
  {
    hide Lower, Trim, Numeral, CommaJoin, Values, Received;
    ReceivedClosing(fields, length);
    var mine, closing := Received(fields), ClosingFields(length);
    ValuesConcat(mine, closing, "content-length");
    ValuesPresent(mine, "content-length");
    ClosingValues(length);
    var values := Values(mine + closing, "content-length");
    assert closing[0] in mine + closing;
    assert "content-length" in Names(mine + closing);
    if "content-length" in Names(mine) {
      JoinedHasComma(values);
    } else {
      assert values == [Decimal(length)];
      OneJoined(Decimal(length));
    }
  }

  lemma OneJoined(value: string)
    ensures CommaJoin([value]) == value
  {}

  lemma ClosingValues(length: nat)
    ensures Values(ClosingFields(length), "content-length") == [Decimal(length)]
  {
    hide Numeral;
    var a, b := Field("content-length", Decimal(length)), Field("connection", "close");
    ValuesSnoc([], a, "content-length");
    ValuesSnoc([a], b, "content-length");
    assert [] + [a] == [a] && [a] + [b] == ClosingFields(length);
  }

  lemma ReceivedClosing(fields: seq<Field>, length: nat)
    requires length <= USIZE_MAX
    ensures Received(fields + ClosingFields(length)) == Received(fields) + ClosingFields(length)
  {
    hide Received, Lower, Trim, Numeral, CleanName, CleanValue, Encode, FieldText;
    var closing := ClosingFields(length);
    ReceivedAt(fields);
    ReceivedAt(fields + closing);
    ClosingIsClean(length);
    forall i | 0 <= i < |closing|
      ensures Field(Lower(closing[i].name), Trim(closing[i].value)) == closing[i]
    {
      assert closing[i] in closing;
      CleanReceived(closing[i]);
    }
  }

  lemma CleanReceived(field: Field)
    requires CleanField(field)
    ensures Lower(field.name) == field.name && Trim(field.value) == field.value && Legible(field.value)
    ensures Writable(field.name, field.value)
  {
    LowerOfClean(field.name);
    TrimOfTrimmed(field.value);
    assert IsControl('\r') && IsControl('\n');
  }

  // ---- any response ----

  /** The client's view of a written response, for any header map that keeps within the bounds. */
  ghost function Outcome(status: nat, headers: Headers, body: bytes, tail: bytes): Read<Response> {
    var kept := Surviving(headers);
    if exists n :: n in kept && !Legible(kept[n]) then Failed(BadRequest("invalid_http_header_value"))
    else if exists n :: n in kept && Lower(n) == "content-length" then Failed(BadRequest("invalid_content_length"))
    else Done(Response(status, Merged(Received(SentFields(kept, |body|))), body), tail)
  }

  /** Every field sent is an entry of the map or a closing one, and every entry is sent. */
  lemma SentExactly(headers: Headers, length: nat)
    requires AllWritable(headers) && length <= USIZE_MAX
    ensures |SentFields(headers, length)| == |headers| + 2 && AllSent(SentFields(headers, length))
    ensures (exists f :: f in SentFields(headers, length) && !Legible(f.value))
       <==> exists n :: n in headers && !Legible(headers[n])
  {
    hide Writable, Legible, Sorted, FieldsFrom, Numeral, CleanName, CleanValue, Encode, FieldText;
    SentListed(headers, length);
    SentAt(headers, length);
    SortedLists(headers.Keys);
    ClosingIsClean(length);
    forall f | f in ClosingFields(length)
      ensures Writable(f.name, f.value) && Legible(f.value)
    {
      CleanReceived(f);
    }
    var names, fields := Sorted(headers.Keys), SentFields(headers, length);
    forall n | n in headers && !Legible(headers[n])
      ensures exists f :: f in fields && !Legible(f.value)
    {
      var i :| 0 <= i < |names| && names[i] == n;
      assert fields[i] in fields;
    }
  }

  lemma HeadRead(status: nat, headers: Headers, length: nat, after: bytes)
    requires AllWritable(headers) && Bounded(status, headers, length) && status <= USIZE_MAX && length <= USIZE_MAX
    ensures var m := SentMessage(status, headers, length);
            ReadHttpLine(RenderHead(m) + after)
              == Done(Some(StatusLine(status)), RenderLines(m.fields) + (Blank(CrLf) + after))
    ensures var m := SentMessage(status, headers, length);
            ReadHeaders(RenderLines(m.fields) + (Blank(CrLf) + after),
                        MAX_HEADER_LINES, |Encode(StatusLine(status))|, map[])
              == if exists n :: n in headers && !Legible(headers[n])
                 then Failed(BadRequest("invalid_http_header_value"))
                 else Done(Merged(Received(SentFields(headers, length))), after)
  {
    hide StatusLine, StatusOf, ReadHeaders, ReadHttpLine, Encode, RenderLine, RenderLines, Blank, ValidLine, Writable,
         SentFields, FieldLines, Merged, TextBytes, Legible, Received, Collect, FieldsOf, ValidFieldLine;
    var m := SentMessage(status, headers, length);
    var fields := SentFields(headers, length);
    StatusLineReads(status);
    SentExactly(headers, length);
    LinesCount(fields);
    Associate(RenderLine(m.start), RenderLines(m.fields) + Blank(CrLf), after);
    Associate(RenderLines(m.fields), Blank(CrLf), after);
    LineComplete(m.start, RenderLines(m.fields) + (Blank(CrLf) + after));
    if exists n :: n in headers && !Legible(headers[n]) {
      IllegibleSection(fields, Blank(CrLf) + after, MAX_HEADER_LINES, |Encode(m.start.text)|, map[]);
    } else {
      LegibleLines(fields);
      HeadersComplete(m.fields, CrLf, after, MAX_HEADER_LINES, |Encode(m.start.text)|, map[]);
      CollectIsMerged(Received(fields));
    }
  }

  /** The names of the entries as they are received. */
  lemma EntryNames(headers: Headers, name: string)
    ensures forall n :: n in Sorted(headers.Keys) ==> n in headers
    ensures name in Names(Received(FieldsFrom(Sorted(headers.Keys), headers)))
       <==> exists n :: n in headers && Lower(n) == name
  {
    SortedLists(headers.Keys);
    hide Lower, Trim, Sorted, FieldsFrom, Received, Names;
    var names := Sorted(headers.Keys);
    var received := Received(FieldsFrom(names, headers));
    FieldsFromAt(names, headers);
    ReceivedAt(FieldsFrom(names, headers));
    NamesAt(received, name);
    assert forall i :: 0 <= i < |names| ==> received[i].name == Lower(names[i]) && names[i] in headers;
    if n :| n in headers && Lower(n) == name {
      var i :| 0 <= i < |names| && names[i] == n;
      assert received[i].name == name;
    }
  }

  lemma NamesAt(fields: seq<Field>, name: string)
    ensures name in Names(fields) <==> exists i :: 0 <= i < |fields| && fields[i].name == name
  {
    assert forall i :: 0 <= i < |fields| ==> fields[i] in fields;
    if name in Names(fields) {
      var f :| f in fields && f.name == name;
      var i :| 0 <= i < |fields| && fields[i] == f;
    }
  }

  /** A length is announced a second time exactly when some entry's name says so in any case. */
  lemma LengthNamed(headers: Headers, length: nat)
    requires length <= USIZE_MAX
    ensures var all := Merged(Received(SentFields(headers, length)));
            && "content-length" in all
            && if exists n :: n in headers && Lower(n) == "content-length" then ',' in all["content-length"]
               else all["content-length"] == Decimal(length)
  {
    hide Lower, Sorted, Numeral, Merged, Received, FieldsFrom, ClosingFields, Names;
    EntryNames(headers, "content-length");
    LengthReceived(FieldsFrom(Sorted(headers.Keys), headers), length);
  }

  /**
   The reader's header loop, run on any written response within its bounds: it refuses the
   response exactly when a surviving value has a control character inside or a surviving name
   announces a length of its own; otherwise it recovers every surviving entry, with names in
   lower case and values trimmed, the two closing ones, and the body, whatever follows.
   */
  lemma ResponseReads(status: nat, headers: Headers, body: bytes, tail: bytes)
    requires Bounded(status, Surviving(headers), |body|) && status <= USIZE_MAX && |body| <= ISIZE_MAX
    ensures ReadResponse(ResponseBytes(status, headers, body) + tail) == Outcome(status, headers, body, tail)
  {
    hide ResponseBytes, RenderHead, StatusLine, StatusOf, ReadHeaders, ReadHttpLine, Encode, RenderLines, Blank, Lower,
         SentMessage, ReadSized, Numeral, Surviving, SentFields, TextBytes, SpellsNumber, AllWritable, Legible, Merged,
         Received, Bounded;
    var kept := Surviving(headers);
    SurvivingWritable(headers);
    ResponseOfSurviving(status, headers, body);
    ResponseIsRendered(status, kept, body);
    Associate(RenderHead(SentMessage(status, kept, |body|)), body, tail);
    HeadRead(status, kept, |body|, body + tail);
    StatusLineReads(status);
    LengthNamed(kept, |body|);
    if exists n :: n in kept && Lower(n) == "content-length" {
      ListedLength(body + tail, Merged(Received(SentFields(kept, |body|)))["content-length"]);
    } else {
      NumeralSpells(|body|, 10);
      SizedComplete(body, Decimal(|body|), tail, ISIZE_MAX);
    }
  }

  lemma ListedLength(s: bytes, text: string)
    requires ',' in text
    ensures ReadSized(s, text, ISIZE_MAX) == Failed(BadRequest("invalid_content_length"))
  {
    hide ParseUsize, Trim;
    CommaIsNoNumber(text);
  }

  /**
   So a response is read, to its end, exactly when no header that is a token with no line
   break in its value has another control character inside its value or announces a length.
   Then a header reaches the client exactly when it is such a header; the others cost the
   response nothing else. Its value is unchanged but for white space around it, unless the
   same name is there in another letter case too.
   */
  lemma ArrivesIff(status: nat, headers: Headers, body: bytes)
    requires Bounded(status, Surviving(headers), |body|) && status <= USIZE_MAX && |body| <= ISIZE_MAX
    ensures var r := ReadResponse(ResponseBytes(status, headers, body));
            && (r.Done? <==> forall n :: n in headers && Writable(n, headers[n]) ==>
                               Legible(headers[n]) && Lower(n) != "content-length")
            && (r.Done? ==>
                  && r.rest == [] && r.value.status == status && r.value.body == body
                  && r.value.headers.Keys
                     == (set n | n in headers && Writable(n, headers[n]) :: Lower(n)) + {"content-length", "connection"}
                  && forall n :: n in headers && OnlyForm(headers, n) ==> r.value.headers[Lower(n)] == Trim(headers[n]))
  {
    hide ReadResponse, ResponseBytes, Bounded, Writable, Legible, Lower, Trim, Numeral, Outcome;
    ResponseReads(status, headers, body, []);
    assert ResponseBytes(status, headers, body) + [] == ResponseBytes(status, headers, body);
    OutcomeDoneIff(status, headers, body);
    if Outcome(status, headers, body, []).Done? {
      OutcomeHolds(status, headers, body);
    }
  }

  lemma OutcomeDoneIff(status: nat, headers: Headers, body: bytes)
    ensures Outcome(status, headers, body, []).Done?
       <==> forall n :: n in headers && Writable(n, headers[n]) ==> Legible(headers[n]) && Lower(n) != "content-length"
  {
    hide Writable, Legible, Lower, SentFields, Merged, Received;
    var kept := Surviving(headers);
    assert forall n :: n in kept <==> n in headers && Writable(n, headers[n]);
  }

  lemma OutcomeHolds(status: nat, headers: Headers, body: bytes)
    requires |body| <= USIZE_MAX && Outcome(status, headers, body, []).Done?
    ensures var r := Outcome(status, headers, body, []);
            && r.rest == [] && r.value.status == status && r.value.body == body
            && r.value.headers.Keys
               == (set n | n in headers && Writable(n, headers[n]) :: Lower(n)) + {"content-length", "connection"}
            && forall n :: n in headers && OnlyForm(headers, n) ==> r.value.headers[Lower(n)] == Trim(headers[n])
  {
    hide Writable, Legible, Lower, Trim, SentFields, Merged, Received;
    OutcomeDoneIff(status, headers, body);
    var kept := Surviving(headers);
    ReceivedNames(kept, |body|);
    assert (set n | n in headers && Writable(n, headers[n]) :: Lower(n)) == set n | n in kept :: Lower(n);
    forall n | n in headers && OnlyForm(headers, n)
      ensures Lower(n) in Merged(Received(SentFields(kept, |body|)))
      ensures Merged(Received(SentFields(kept, |body|)))[Lower(n)] == Trim(headers[n])
    {
      OnlyFormReceived(kept, |body|, n);
    }
  }

  lemma ReceivedNames(headers: Headers, length: nat)
    requires length <= USIZE_MAX
    ensures Merged(Received(SentFields(headers, length))).Keys
         == (set n | n in headers :: Lower(n)) + {"content-length", "connection"}
  {
    hide Lower, Trim, Sorted, FieldsFrom, Numeral, CommaJoin, Values, Received;
    var names, fields := Sorted(headers.Keys), SentFields(headers, length);
    SentAt(headers, length);
    SortedLists(headers.Keys);
    ReceivedAt(fields);
    ClosingLowered();
    forall name
      ensures name in Names(Received(fields))
         <==> name in (set n | n in headers :: Lower(n)) + {"content-length", "connection"}
    {
      ReceivedName(headers, length, name);
    }
  }

  lemma ClosingLowered()
    ensures Lower("content-length") == "content-length" && Lower("connection") == "connection"
  {
    LowerOfClean("content-length");
    LowerOfClean("connection");
  }

  lemma ReceivedName(headers: Headers, length: nat, name: string)
    requires length <= USIZE_MAX
    ensures name in Names(Received(SentFields(headers, length)))
       <==> (exists n :: n in headers && Lower(n) == name) || name == "content-length" || name == "connection"
  {
    hide Lower, Sorted, FieldsFrom, Numeral, Received, ClosingFields, Names;
    EntryNames(headers, name);
    var entries := FieldsFrom(Sorted(headers.Keys), headers);
    ReceivedClosing(entries, length);
    NamesConcat(Received(entries), ClosingFields(length), name);
    ClosingNamesAre(length, name);
  }

  lemma ClosingNamesAre(length: nat, name: string)
    ensures name in Names(ClosingFields(length)) <==> name == "content-length" || name == "connection"
  {
    hide Numeral;
    var fields := ClosingFields(length);
    assert fields[0] in fields && fields[1] in fields;
  }

  lemma NamesConcat(a: seq<Field>, b: seq<Field>, name: string)
    ensures name in Names(a + b) <==> name in Names(a) || name in Names(b)
  {
    assert forall f :: f in a + b <==> f in a || f in b;
  }

  /** A field whose name no other field repeats keeps its value in the merge. */
  lemma {:induction false} OnlyValue(fields: seq<Field>, i: nat)
    requires i < |fields| && forall j :: 0 <= j < |fields| && j != i ==> fields[j].name != fields[i].name
    ensures Values(fields, fields[i].name) == [fields[i].value]
  {
    var n := |fields| - 1;
    assert fields == fields[..n] + [fields[n]];
    if i == n {
      ValuesPresent(fields[..n], fields[n].name);
    } else {
      OnlyValue(fields[..n], i);
    }
  }

  lemma OnlyFormReceived(headers: Headers, length: nat, n: string)
    requires length <= USIZE_MAX && n in headers && Lower(n) !in {"content-length", "connection"}
    requires forall m :: m in headers && Lower(m) == Lower(n) ==> m == n
    ensures var all := Merged(Received(SentFields(headers, length)));
            Lower(n) in all && all[Lower(n)] == Trim(headers[n])
  {
    hide Lower, Trim, Sorted, FieldsFrom, Numeral, CommaJoin, Values, Received;
    var names, fields := Sorted(headers.Keys), SentFields(headers, length);
    SentAt(headers, length);
    SortedLists(headers.Keys);
    ReceivedAt(fields);
    ClosingLowered();
    var i :| 0 <= i < |names| && names[i] == n;
    var received := Received(fields);
    assert received[i] in received;
    forall j | 0 <= j < |received| && j != i
      ensures received[j].name != received[i].name
    {
      if j < |names| {
        assert names[j] != names[i] && names[j] in headers;
      }
    }
    OnlyValue(received, i);
    OneJoined(Trim(headers[n]));
  }

  /** A surviving entry whose name no other surviving or closing one repeats. */
  predicate OnlyForm(headers: Headers, n: string)
    requires n in headers
  {
    && Writable(n, headers[n]) && Lower(n) != "connection"
    && forall m :: m in headers && Writable(m, headers[m]) && Lower(m) == Lower(n) ==> m == n
  }

  /** A clean map comes back entry for entry. */
  lemma CleanResponseReads(status: nat, headers: Headers, body: bytes, tail: bytes)
    requires CleanHeaders(headers) && "content-length" !in headers && "connection" !in headers
    requires Bounded(status, headers, |body|) && status <= USIZE_MAX && |body| <= ISIZE_MAX
    ensures ReadResponse(ResponseBytes(status, headers, body) + tail)
         == Done(Response(status, SentHeaders(headers, |body|), body), tail)
  {
    hide ReadResponse, ResponseBytes, Bounded, Legible, Lower, Trim, SentFields, SentHeaders, Merged, Received,
         CleanName, CleanValue, Writable;
    CleanSurvive(headers);
    ResponseReads(status, headers, body, tail);
    forall n | n in headers
      ensures Legible(headers[n]) && Lower(n) == n
    {
      CleanReceived(Field(n, headers[n]));
    }
    SentIsValid(headers, |body|);
    CleanFieldsReceived(SentFields(headers, |body|));
    SentMerges(headers, |body|);
  }

  lemma CleanFieldsReceived(fields: seq<Field>)
    requires forall f :: f in fields ==> CleanField(f)
    ensures Received(fields) == fields
  {
    hide Received, Lower, Trim, CleanName, CleanValue;
    ReceivedAt(fields);
    forall i | 0 <= i < |fields|
      ensures Received(fields)[i] == fields[i]
    {
      assert fields[i] in fields;
      CleanReceived(fields[i]);
    }
  }
}
