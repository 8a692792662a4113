/**
 Combining repeated fields (section 5.2 of RFC 9110).  `Merged` says what the header map is;
 `CollectIsMerged` proves that the reader's insert-or-append loop builds it.
 */
module HeaderFields {
  import opened Text
  import opened HttpReader

  /** The values of every field called `name`, in arrival order. */
  function Values(fields: seq<Field>, name: string): seq<string> {
    if fields == [] then []
    else
      var last := fields[|fields| - 1];
      Values(fields[..|fields| - 1], name) + if last.name == name then [last.value] else []
  }

  function CommaJoin(values: seq<string>): string {
    if values == [] then ""
    else if |values| == 1 then values[0]
    else CommaJoin(values[..|values| - 1]) + "," + values[|values| - 1]
  }

  function Names(fields: seq<Field>): set<string> {
    set f | f in fields :: f.name
  }

  /** Each name maps to the comma-join of all its values. */
  function Merged(fields: seq<Field>): Headers {
    map name | name in Names(fields) :: CommaJoin(Values(fields, name))
  }

  /** The header loop's effect on its map. */
  function Collect(fields: seq<Field>, headers: Headers): Headers {
    if fields == [] then headers else Collect(fields[1..], AddField(headers, fields[0]))
  }

  lemma {:induction false} ValuesPresent(fields: seq<Field>, name: string)
    ensures Values(fields, name) != [] <==> name in Names(fields)
  {
    if fields == [] {
    } else {
      var n := |fields| - 1;
      ValuesPresent(fields[..n], name);
      assert fields == fields[..n] + [fields[n]];
    }
  }

  lemma ValuesSnoc(fields: seq<Field>, field: Field, name: string)
    ensures Values(fields + [field], name)
         == Values(fields, name) + if field.name == name then [field.value] else []
  {
    assert (fields + [field])[..|fields|] == fields;
  }

  lemma JoinSnoc(values: seq<string>, value: string)
    ensures CommaJoin(values + [value])
         == if values == [] then value else CommaJoin(values) + "," + value
  {
    assert (values + [value])[..|values|] == values;
  }

  lemma JoinedSnoc(fields: seq<Field>, field: Field, name: string)
    ensures CommaJoin(Values(fields + [field], name))
         == if name != field.name then CommaJoin(Values(fields, name))
            else if name in Names(fields) then CommaJoin(Values(fields, name)) + "," + field.value
            else field.value
  {
    ValuesPresent(fields, name);
    ValuesSnoc(fields, field, name);
    JoinSnoc(Values(fields, name), field.value);
    assert Values(fields, name) + [] == Values(fields, name);
  }

  lemma NamesSnoc(fields: seq<Field>, field: Field)
    ensures Names(fields + [field]) == Names(fields) + {field.name}
  {
    assert forall f :: f in fields + [field] <==> f in fields || f == field;
  }

  lemma MergedSnoc(fields: seq<Field>, field: Field)
    ensures Merged(fields + [field]) == AddField(Merged(fields), field)
  {
    var all := fields + [field];
    NamesSnoc(fields, field);
    forall name | name in Names(all)
      ensures Merged(all)[name] == AddField(Merged(fields), field)[name]
    {
      JoinedSnoc(fields, field, name);
    }
  }

  lemma {:induction false} CollectFrom(before: seq<Field>, fields: seq<Field>)
    ensures Collect(fields, Merged(before)) == Merged(before + fields)
    decreases |fields|
  {
    if fields == [] {
      assert before + fields == before;
    } else {
      MergedSnoc(before, fields[0]);
      CollectFrom(before + [fields[0]], fields[1..]);
      ShiftFirst(before, fields);
    }
  }

  lemma ShiftFirst<T>(a: seq<T>, b: seq<T>)
    requires b != []
    ensures a + [b[0]] + b[1..] == a + b
  {}

  /** The loop, started on the empty map, builds exactly the merged map. */
  lemma CollectIsMerged(fields: seq<Field>)
    ensures Collect(fields, map[]) == Merged(fields)
  {
    CollectFrom([], fields);
    assert Merged([]) == map[];
    assert [] + fields == fields;
  }

  predicate CleanName(name: string) {
    name != "" && forall c :: c in name ==> 'a' <= c <= 'z' || '0' <= c <= '9' || c == '-'
  }

  predicate CleanValue(value: string) {
    Trimmed(value) && forall c :: c in value ==> !IsControl(c)
  }

  predicate CleanField(field: Field) {
    CleanName(field.name) && CleanValue(field.value)
  }

  predicate CleanHeaders(headers: Headers) {
    forall name :: name in headers ==> CleanName(name) && CleanValue(headers[name])
  }

  lemma ParsedIsClean(line: string)
    requires ParseField(line).Parsed?
    ensures CleanField(ParseField(line).field)
  {
    hide Trim, IndexOf;
    var name := ParseField(line).field.name;
    var raw := Trim(line[..IndexOf(line, ':')]);
    assert name == Lower(raw);
    forall c | c in name
      ensures 'a' <= c <= 'z' || '0' <= c <= '9' || c == '-'
    {
      var i :| 0 <= i < |name| && name[i] == c;
      assert name[i] == LowerChar(raw[i]);
    }
  }

  lemma AddKeepsClean(headers: Headers, field: Field)
    requires CleanHeaders(headers) && CleanField(field)
    ensures CleanHeaders(AddField(headers, field))
  {
    var after := AddField(headers, field);
    if field.name in headers {
      var old', value := headers[field.name], field.value;
      assert CleanValue(old');
      var merged := old' + "," + value;
      assert merged[0] == if old' == "" then ',' else old'[0];
      assert merged[|merged| - 1] == if value == "" then ',' else value[|value| - 1];
      assert forall c :: c in merged ==> c in old' || c == ',' || c in value;
      assert after[field.name] == merged;
    }
  }

  /** Merging keeps every name lower-case and every value trimmed and free of controls. */
  lemma {:induction false} MergedIsClean(fields: seq<Field>)
    requires forall f :: f in fields ==> CleanField(f)
    ensures CleanHeaders(Merged(fields))
  {
    if fields == [] {
    } else {
      var n := |fields| - 1;
      MergedIsClean(fields[..n]);
      assert fields == fields[..n] + [fields[n]];
      MergedSnoc(fields[..n], fields[n]);
      AddKeepsClean(Merged(fields[..n]), fields[n]);
    }
  }

  lemma {:induction false} ValuesConcat(a: seq<Field>, b: seq<Field>, name: string)
    ensures Values(a + b, name) == Values(a, name) + Values(b, name)
  {
    if b == [] {
      assert a + b == a;
    } else {
      var n := |b| - 1;
      ValuesConcat(a, b[..n], name);
      assert a + b[..n] + [b[n]] == a + b && b[..n] + [b[n]] == b;
      ValuesSnoc(a + b[..n], b[n], name);
      ValuesSnoc(b[..n], b[n], name);
    }
  }

  /** A field under a name of its own adds its entry and disturbs no other, wherever it stands. */
  lemma MergedInsert(before: seq<Field>, field: Field, after: seq<Field>)
    requires field.name !in Names(before + after)
    ensures Merged(before + [field] + after) == Merged(before + after)[field.name := field.value]
  {
    var all := before + [field] + after;
    assert Names(all) == Names(before + after) + {field.name} by {
      assert forall f :: f in all <==> f in before + after || f == field;
    }
    forall name | name in Names(all)
      ensures Merged(all)[name] == Merged(before + after)[field.name := field.value][name]
    {
      ValuesConcat(before, after, name);
      ValuesConcat(before + [field], after, name);
      ValuesSnoc(before, field, name);
      ValuesPresent(before + after, name);
      assert Values(before, name) + [] == Values(before, name);
    }
  }

  /** Fields whose names all differ merge into the map that lists them. */
  lemma {:induction false} DistinctMerge(fields: seq<Field>)
    requires forall i, j :: 0 <= i < j < |fields| ==> fields[i].name != fields[j].name
    ensures forall f :: f in fields ==> f.name in Merged(fields) && Merged(fields)[f.name] == f.value
    ensures Merged(fields).Keys == Names(fields)
  {
    if fields == [] {
    } else {
      var n := |fields| - 1;
      DistinctMerge(fields[..n]);
      assert fields == fields[..n] + [fields[n]];
      MergedSnoc(fields[..n], fields[n]);
      assert fields[n].name !in Names(fields[..n]);
    }
  }

  /** A list of fields that names each entry of a map once merges into that map. */
  lemma MergeListed(fields: seq<Field>, headers: Headers)
    requires forall i, j :: 0 <= i < j < |fields| ==> fields[i].name != fields[j].name
    requires forall i :: 0 <= i < |fields| ==> fields[i].name in headers && headers[fields[i].name] == fields[i].value
    requires forall n :: n in headers ==> exists i :: 0 <= i < |fields| && fields[i].name == n
    ensures Merged(fields) == headers
  {
    hide Merged;
    DistinctMerge(fields);
    forall n | n in headers
      ensures n in Names(fields)
    {
      var i :| 0 <= i < |fields| && fields[i].name == n;
      assert fields[i] in fields;
    }
    forall n | n in Names(fields)
      ensures n in headers && Merged(fields)[n] == headers[n]
    {
      var f :| f in fields && f.name == n;
    }
  }

  // ---- the way a field is written ----

  function FieldText(field: Field): string {
    field.name + ": " + field.value
  }

  lemma NameIsTrimmed(name: string)
    requires ValidHeaderName(name)
    ensures Trim(name) == name && ':' !in name && '\n' !in name
  {
    assert name[0] in name && name[|name| - 1] in name;
    assert !IsNameChar(':') && !IsNameChar('\n');
    TrimOfTrimmed(name);
    hide Trim;
  }

  lemma LowerIsValid(name: string)
    requires ValidHeaderName(name)
    ensures ValidHeaderName(Lower(name))
  {
    forall c | c in Lower(name)
      ensures IsNameChar(c)
    {
      var i :| 0 <= i < |name| && Lower(name)[i] == c;
      assert name[i] in name;
    }
  }

  lemma AfterColon(name: string, value: string)
    requires ':' !in name
    ensures var text := FieldText(Field(name, value));
            var colon := IndexOf(text, ':');
            colon == |name| && colon < |text| && text[..colon] == name && text[colon + 1..] == " " + value
  {
    var text := FieldText(Field(name, value));
    assert text == name + [':'] + (" " + value);
    IndexOfFirst(name, ':', " " + value);
  }

  /** A written field parses to its name in lower case and its value trimmed, if that has no control. */
  lemma FieldTextReads(name: string, value: string)
    requires ValidHeaderName(name)
    ensures ParseField(FieldText(Field(name, value)))
         == if exists c :: c in Trim(value) && IsControl(c) then Refused("invalid_http_header_value")
            else Parsed(Field(Lower(name), Trim(value)))
  {
    NameIsTrimmed(name);
    LowerIsValid(name);
    AfterColon(name, value);
    assert forall c :: c in " " ==> IsWhite(c);
    TrimAfterWhite(" ", value);
    hide Trim, Lower, IndexOf, FieldText, IsNameChar, Trimmed, ValidHeaderName, IsControl, IsWhite;
  }

  /** `name: value` parses to that field, in lower case. */
  lemma FieldTextParses(name: string, value: string)
    requires ValidHeaderName(name) && CleanValue(value)
    ensures ParseField(FieldText(Field(name, value))) == Parsed(Field(Lower(name), value))
  {
    hide ParseField, Lower, FieldText, ValidHeaderName, Trim;
    FieldTextReads(name, value);
    TrimOfTrimmed(value);
  }

  lemma FieldTextIsOneLine(field: Field)
    requires ValidHeaderName(field.name) && CleanValue(field.value)
    ensures '\n' !in FieldText(field)
  {
    NameIsTrimmed(field.name);
    assert IsControl('\n');
  }

  lemma LowerOfClean(name: string)
    requires CleanName(name)
    ensures Lower(name) == name && ValidHeaderName(name)
  {
    assert forall i :: 0 <= i < |name| ==> name[i] in name;
  }

  lemma WordIsClean(s: string)
    requires forall c :: c in s ==> 33 <= c as int < 127
    ensures CleanValue(s)
  {
    assert s != "" ==> s[0] in s && s[|s| - 1] in s;
  }
}
