/**
 The response writer.  A header map is written in key order (`BTreeMap` iteration), and names
 and values that could break the framing are dropped.
 */
module HttpWriter {
  import opened Options
  import opened Text
  import opened Utf8
  import opened Numerals
  import opened HttpReader
  import opened HttpConnection
  import opened HeaderFields
  import opened HttpSyntax
  import opened HttpGrammar
  import opened HttpFraming

  // ---- key order ----

  predicate Leq(a: string, b: string) {
    a == "" || (b != "" && (a[0] < b[0] || (a[0] == b[0] && Leq(a[1..], b[1..]))))
  }

  lemma {:induction false} LeqTotal(a: string, b: string)
    ensures Leq(a, b) || Leq(b, a)
    ensures Leq(a, b) && Leq(b, a) ==> a == b
  {
    if a == "" || b == "" || a[0] != b[0] {
    } else {
      LeqTotal(a[1..], b[1..]);
      assert a == [a[0]] + a[1..] && b == [b[0]] + b[1..];
    }
  }

  lemma {:induction false} LeqTransitive(a: string, b: string, c: string)
    requires Leq(a, b) && Leq(b, c)
    ensures Leq(a, c)
  {
    if a == "" || b == "" || c == "" || a[0] != b[0] || b[0] != c[0] {
    } else {
      LeqTransitive(a[1..], b[1..], c[1..]);
    }
  }

  predicate IsLeast(k: string, names: set<string>) {
    k in names && forall x :: x in names ==> Leq(k, x)
  }

  lemma {:induction false} LeastExists(names: set<string>) returns (k: string)
    requires names != {}
    ensures IsLeast(k, names)
    decreases |names|
  {
    var some :| some in names;
    LeqTotal(some, some);
    if names == {some} {
      k := some;
    } else {
      var rest := names - {some};
      var r := LeastExists(rest);
      LeqTotal(some, r);
      k := if Leq(some, r) then some else r;
      forall x | x in names
        ensures Leq(k, x)
      {
        if x != some && k == some {
          LeqTransitive(some, r, x);
        }
      }
    }
  }

  function Least(names: set<string>): (k: string)
    requires names != {}
    ensures IsLeast(k, names)
  {
    assert exists k :: IsLeast(k, names) by { var k := LeastExists(names); }
    LeastIsUnique(names);
    var k :| k in names && IsLeast(k, names);
    k
  }

  lemma LeastIsUnique(names: set<string>)
    ensures forall k, l :: IsLeast(k, names) && IsLeast(l, names) ==> k == l
  {
    forall k, l | IsLeast(k, names) && IsLeast(l, names)
      ensures k == l
    {
      LeqTotal(k, l);
    }
  }

  function Sorted(names: set<string>): seq<string> {
    if names == {} then [] else
      var k := Least(names);
      [k] + Sorted(names - {k})
  }

  lemma {:induction false} SortedLists(names: set<string>)
    ensures |Sorted(names)| == |names|
    ensures forall n :: n in Sorted(names) <==> n in names
    ensures forall i, j :: 0 <= i < j < |Sorted(names)| ==> Sorted(names)[i] != Sorted(names)[j]
  {
    hide IsLeast;
    if names == {} {
    } else {
      var k := Least(names);
      assert k in names by { LeastIn(names); }
      SortedLists(names - {k});
    }
  }

  /** `BTreeMap` order: keys come out ascending. */
  lemma {:induction false} SortedAscends(names: set<string>)
    ensures forall i, j :: 0 <= i <= j < |Sorted(names)| ==> Leq(Sorted(names)[i], Sorted(names)[j])
  {
    if names == {} {
    } else {
      var k := Least(names);
      SortedLists(names - {k});
      SortedAscends(names - {k});
      hide Leq;
      assert forall n :: n in names ==> Leq(k, n);
    }
  }

  lemma LeastIn(names: set<string>)
    requires names != {}
    ensures Least(names) in names
  {}

  // ---- what is written ----

  function Reason(status: nat): string {
    if status == 200 then "OK" else if status == 502 then "Bad Gateway" else "Response"
  }

  function StatusLine(status: nat): string {
    "HTTP/1.1" + " " + Decimal(status) + " " + Reason(status)
  }

  predicate ValidHeaderValue(value: string) {
    '\r' !in value && '\n' !in value
  }

  predicate Writable(name: string, value: string) {
    ValidHeaderName(name) && ValidHeaderValue(value)
  }

  function WrittenField(name: string, value: string): bytes {
    if Writable(name, value) then Encode(FieldText(Field(name, value)) + "\r\n") else []
  }

  function WrittenFields(names: seq<string>, headers: Headers): bytes
    requires forall n :: n in names ==> n in headers
  {
    if names == [] then []
    else WrittenField(names[0], headers[names[0]]) + WrittenFields(names[1..], headers)
  }

  function ClosingFields(length: nat): seq<Field> {
    [Field("content-length", Decimal(length)), Field("connection", "close")]
  }

  function Closing(length: nat): bytes {
    Encode("content-length" + ": " + Decimal(length) + "\r\n")
    + (Encode("connection" + ": " + "close" + "\r\n") + Encode("\r\n"))
  }

  function ResponseBytes(status: nat, headers: Headers, body: bytes): bytes {
    assert forall n :: n in Sorted(headers.Keys) ==> n in headers by { SortedLists(headers.Keys); }
    Encode(StatusLine(status) + "\r\n")
    + (WrittenFields(Sorted(headers.Keys), headers) + Closing(|body|))
    + body
  }

  /** `write_http_response`, appending to the stream piece by piece. */
  method WriteHttpResponse(stream: Connection, status: nat, headers: Headers, body: bytes)
    modifies stream`output
    ensures stream.output == old(stream.output) + ResponseBytes(status, headers, body)
  {
    SortedLists(headers.Keys);
    hide Encode, Sorted, Decimal, Closing, StatusLine, WrittenFields;
    var names := Sorted(headers.Keys);
    stream.output := stream.output + Encode(StatusLine(status) + "\r\n");
    WriteFields(stream, names, headers);
    stream.output := stream.output + Closing(|body|);
    stream.output := stream.output + body;
    Gather(old(stream.output), Encode(StatusLine(status) + "\r\n"),
           WrittenFields(names, headers), Closing(|body|), body);
  }

  /** The loop over the header map, in key order. */
  method WriteFields(stream: Connection, names: seq<string>, headers: Headers)
    requires forall n :: n in names ==> n in headers
    modifies stream`output
    ensures stream.output == old(stream.output) + WrittenFields(names, headers)
  {
    hide Encode, WrittenField, Writable;
    ghost var before := stream.output;
    for i := 0 to |names|
      invariant stream.output + WrittenFields(names[i..], headers) == before + WrittenFields(names, headers)
    {
      var name := names[i];
      ghost var written := stream.output;
      if Writable(name, headers[name]) {
        stream.output := stream.output + Encode(name + ": " + headers[name] + "\r\n");
      }
      WriteStep(name, headers[name], written);
      assert names[i..][1..] == names[i + 1..];
      Associate(written, WrittenField(name, headers[name]), WrittenFields(names[i + 1..], headers));
    }
    assert names[|names|..] == [];
    assert stream.output + [] == stream.output;
  }

  lemma WriteStep(name: string, value: string, written: bytes)
    ensures written + WrittenField(name, value)
         == if Writable(name, value) then written + Encode(name + ": " + value + "\r\n")
            else written
  {}

  lemma Gather(a: bytes, b: bytes, c: bytes, d: bytes, e: bytes)
    ensures a + b + c + d + e == a + (b + (c + d) + e)
  {}

  // ---- no field can break the framing ----

  lemma KeptIsLine(name: string, value: string)
    requires Writable(name, value)
    ensures var line := CrLfField(Field(name, value));
            ValidLine(line) && line.text != "" && WrittenField(name, value) == RenderLine(line)
  {
    hide Encode;
    NameIsTrimmed(name);
  }

  lemma ClosingIsWritten(length: nat)
    ensures Closing(length) == RenderLines(FieldLines(ClosingFields(length))) + Blank(CrLf)
  {
    hide Encode, Numeral;
    var a := CrLfField(Field("content-length", Decimal(length)));
    var b := CrLfField(Field("connection", "close"));
    var fields := ClosingFields(length);
    assert fields[1..] == [fields[1]] && [fields[1]][1..] == [];
    assert FieldLines([fields[1]]) == [b];
    assert FieldLines(fields) == [a, b];
    assert [a, b][1..] == [b] && [b][1..] == [];
    assert RenderLines([b]) == RenderLine(b) + [];
    assert RenderLines([a, b]) == RenderLine(a) + RenderLine(b);
    Associate(RenderLine(a), RenderLine(b), Blank(CrLf));
    assert "" + "\r\n" == "\r\n";
  }

  // ---- what survives ----

  /** What is left of a header map once names that are no token and values with line breaks are out. */
  function Surviving(headers: Headers): Headers {
    map n | n in headers && Writable(n, headers[n]) :: headers[n]
  }

  function Writables(names: seq<string>, headers: Headers): (r: seq<string>)
    requires forall n :: n in names ==> n in headers
    ensures forall n :: n in r ==> n in Surviving(headers)
  {
    if names == [] then []
    else (if Writable(names[0], headers[names[0]]) then [names[0]] else []) + Writables(names[1..], headers)
  }

  /** Leaving a field out of the loop is the same as not having it in the map. */
  lemma {:induction false} OnlyWritablesWritten(names: seq<string>, headers: Headers)
    requires forall n :: n in names ==> n in headers
    ensures WrittenFields(names, headers) == WrittenFields(Writables(names, headers), Surviving(headers))
  {
    hide Writable;
    if names == [] {
    } else {
      OnlyWritablesWritten(names[1..], headers);
      WritableOrNothing(names[0], headers[names[0]]);
      var more := Writables(names[1..], headers);
      if Writable(names[0], headers[names[0]]) {
        assert ([names[0]] + more)[1..] == more;
      } else {
        assert [] + more == more;
        assert [] + WrittenFields(names[1..], headers) == WrittenFields(names[1..], headers);
      }
    }
  }

  lemma WritableOrNothing(name: string, value: string)
    ensures !Writable(name, value) ==> WrittenField(name, value) == []
  {}

  function WritableNames(names: set<string>, headers: Headers): set<string>
    requires names <= headers.Keys
  {
    set n | n in names && Writable(n, headers[n])
  }

  lemma LeastWritable(k: string, names: set<string>, headers: Headers)
    requires names <= headers.Keys && names != {} && k == Least(names)
    ensures if Writable(k, headers[k])
            then var kept := WritableNames(names, headers);
                 kept != {} && Least(kept) == k && kept - {k} == WritableNames(names - {k}, headers)
            else WritableNames(names, headers) == WritableNames(names - {k}, headers)
  {
    hide Writable, Leq;
    var kept := WritableNames(names, headers);
    if Writable(k, headers[k]) {
      assert k in kept && IsLeast(k, kept);
      LeastIsUnique(kept);
    }
  }

  /** Filtering keeps the order of the names. */
  lemma {:induction false} WritablesSorted(names: set<string>, headers: Headers)
    requires names <= headers.Keys
    ensures forall n :: n in Sorted(names) ==> n in headers
    ensures Writables(Sorted(names), headers) == Sorted(WritableNames(names, headers))
  {
    hide Writable, IsLeast, WritableNames;
    SortedLists(names);
    if names == {} {
      assert WritableNames(names, headers) == {} by { NoneWritable(headers); }
    } else {
      var k := Least(names);
      assert k in names by { LeastIn(names); }
      WritablesSorted(names - {k}, headers);
      LeastWritable(k, names, headers);
      assert Sorted(names)[1..] == Sorted(names - {k});
    }
  }

  lemma NoneWritable(headers: Headers)
    ensures WritableNames({}, headers) == {}
  {}

  /** The written response is the one of the surviving entries. */
  lemma ResponseOfSurviving(status: nat, headers: Headers, body: bytes)
    ensures ResponseBytes(status, headers, body) == ResponseBytes(status, Surviving(headers), body)
  {
    hide Encode, Sorted, Closing, StatusLine, WrittenFields, Writable;
    SortedLists(headers.Keys);
    WritablesSorted(headers.Keys, headers);
    OnlyWritablesWritten(Sorted(headers.Keys), headers);
    assert Surviving(headers).Keys == WritableNames(headers.Keys, headers);
  }

  function FieldsFrom(names: seq<string>, headers: Headers): seq<Field>
    requires forall n :: n in names ==> n in headers
  {
    if names == [] then [] else [Field(names[0], headers[names[0]])] + FieldsFrom(names[1..], headers)
  }

  lemma {:induction false} FieldsFromAt(names: seq<string>, headers: Headers)
    requires forall n :: n in names ==> n in headers
    ensures |FieldsFrom(names, headers)| == |names|
    ensures forall i :: 0 <= i < |names| ==> FieldsFrom(names, headers)[i] == Field(names[i], headers[names[i]])
  {
    if names == [] {
    } else {
      FieldsFromAt(names[1..], headers);
    }
  }

  predicate AllWritable(headers: Headers) {
    forall n :: n in headers ==> Writable(n, headers[n])
  }

  /** Nothing is filtered from a map of writable entries. */
  lemma {:induction false} WritableAreWritten(names: seq<string>, headers: Headers)
    requires forall n :: n in names ==> n in headers
    requires AllWritable(headers)
    ensures WrittenFields(names, headers) == RenderLines(FieldLines(FieldsFrom(names, headers)))
  {
    hide WrittenField, RenderLine, CrLfField, Writable;
    if names == [] {
    } else {
      KeptIsLine(names[0], headers[names[0]]);
      WritableAreWritten(names[1..], headers);
      var fields := FieldsFrom(names, headers);
      assert fields[1..] == FieldsFrom(names[1..], headers);
      assert FieldLines(fields)[1..] == FieldLines(fields[1..]);
    }
  }

  lemma SurvivingWritable(headers: Headers)
    ensures AllWritable(Surviving(headers))
  {}

  /** The reason phrase of a status. */
  function Phrase(status: nat): string {
    if status == 200 then "OK" else if status == 502 then "Bad Gateway" else "Response"
  }

  /** In ascending order of name, the entries of the map that are tokens with values without line breaks. */
  ghost predicate Entries(fields: seq<Field>, headers: Headers) {
    && (forall i, j :: 0 <= i < j < |fields| ==>
          Leq(fields[i].name, fields[j].name) && fields[i].name != fields[j].name)
    && (forall i :: 0 <= i < |fields| ==>
          && fields[i].name in headers && headers[fields[i].name] == fields[i].value
          && ValidHeaderName(fields[i].name) && '\r' !in fields[i].value && '\n' !in fields[i].value)
    && forall n :: n in headers && ValidHeaderName(n) && '\r' !in headers[n] && '\n' !in headers[n] ==>
         exists i :: 0 <= i < |fields| && fields[i].name == n
  }

  lemma EntriesOf(headers: Headers) returns (fields: seq<Field>)
    ensures Entries(fields, headers)
    ensures (forall n :: n in Sorted(Surviving(headers).Keys) ==> n in Surviving(headers))
            && fields == FieldsFrom(Sorted(Surviving(headers).Keys), Surviving(headers))
  {
    hide Leq, Sorted, ValidHeaderName, FieldsFrom;
    var kept := Surviving(headers);
    var names := Sorted(kept.Keys);
    SortedLists(kept.Keys);
    SortedAscends(kept.Keys);
    fields := FieldsFrom(names, kept);
    FieldsFromAt(names, kept);
    forall n | n in headers && ValidHeaderName(n) && '\r' !in headers[n] && '\n' !in headers[n]
      ensures exists i :: 0 <= i < |fields| && fields[i].name == n
    {
      assert n in kept;
      var i :| 0 <= i < |names| && names[i] == n;
      assert fields[i].name == n;
    }
    assert forall i :: 0 <= i < |names| ==> names[i] in kept;
  }

  /**
   Whatever names and values a header map holds, the bytes are one status line, one line for
   each entry that can be written, in ascending order of name, the writer's own two, one
   blank line, and then exactly the body.
   */
  lemma AlwaysFramed(status: nat, headers: Headers, body: bytes) returns (fields: seq<Field>)
    ensures Entries(fields, headers)
    ensures forall l :: l in FieldLines(fields) ==> ValidLine(l) && l.text != ""
    ensures ResponseBytes(status, headers, body)
         == RenderLine(Line("HTTP/1.1" + " " + Decimal(status) + " " + Phrase(status), CrLf))
            + (RenderLines(FieldLines(fields))
               + (RenderLines(FieldLines([Field("content-length", Decimal(|body|)), Field("connection", "close")]))
                  + Blank(CrLf)))
            + body
  {
    fields := EntriesOf(headers);
    SurvivingWritable(headers);
    EntryLines(fields);
    PhraseIs(status);
    hide Encode, Sorted, Closing, Numeral, Blank, WrittenFields, RenderLines, ValidLine, FieldsFrom, Surviving,
         AllWritable, Entries, Reason, Phrase, FieldLines;
    var kept := Surviving(headers);
    SortedLists(kept.Keys);
    ResponseOfSurviving(status, headers, body);
    WritableAreWritten(Sorted(kept.Keys), kept);
    ClosingIsWritten(|body|);
  }

  lemma PhraseIs(status: nat)
    ensures Reason(status) == Phrase(status)
  {}

  lemma {:induction false} EntryLines(fields: seq<Field>)
    requires forall f :: f in fields ==> Writable(f.name, f.value)
    ensures forall l :: l in FieldLines(fields) ==> ValidLine(l) && l.text != ""
  {
    hide Writable, ValidLine, CrLfField;
    if fields == [] {
    } else {
      assert fields[0] in fields;
      KeptIsLine(fields[0].name, fields[0].value);
      EntryLines(fields[1..]);
    }
  }

  lemma CleanSurvive(headers: Headers)
    requires CleanHeaders(headers)
    ensures Surviving(headers) == headers
  {
    forall n | n in headers
      ensures Writable(n, headers[n])
    {
      LowerOfClean(n);
      assert IsControl('\r') && IsControl('\n');
    }
  }
}
