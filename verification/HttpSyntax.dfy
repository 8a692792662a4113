/**
 How each kind of line may be spelled, said by taking the line apart and never by parsing it:
 what a field line, a request line, a length and a chunk size are.  The reader's own scanning
 is proved to recognise exactly these.
 */
module HttpSyntax {
  import opened Options
  import opened Text
  import opened Numerals
  import opened HttpReader
  import opened HeaderFields

  // ---- field lines ----

  /** White space, a token, white space, a colon, white space, the value, white space. */
  datatype FieldParts = FieldParts(
    before: string, token: string, gap: string, pad: string, value: string, after: string)

  function SpellField(p: FieldParts): string {
    p.before + p.token + p.gap + [':'] + (p.pad + p.value + p.after)
  }

  predicate ProperField(p: FieldParts) {
    && ValidHeaderName(p.token) && CleanValue(p.value)
    && AllWhite(p.before) && AllWhite(p.gap) && AllWhite(p.pad) && AllWhite(p.after)
  }

  predicate SpelledBy(text: string, field: Field, p: FieldParts) {
    text == SpellField(p) && ProperField(p) && field == Field(Lower(p.token), p.value)
  }

  /** `text` spells the field: its name in any letter case, its value amid any white space. */
  ghost predicate SpellsField(text: string, field: Field) {
    exists p :: SpelledBy(text, field, p)
  }

  lemma LowerValidIff(name: string)
    ensures ValidHeaderName(Lower(name)) <==> ValidHeaderName(name)
  {
    if ValidHeaderName(name) {
      LowerIsValid(name);
    } else if name != "" {
      var c :| c in name && !IsNameChar(c);
      var i :| 0 <= i < |name| && name[i] == c;
      assert Lower(name)[i] == c;
    }
  }

  lemma NoColon(before: string, token: string, gap: string)
    requires ValidHeaderName(token) && AllWhite(before) && AllWhite(gap)
    ensures ':' !in before + token + gap
  {
    assert !IsNameChar(':') && !IsWhite(':');
    assert forall c :: c in before + token + gap ==> c in before || c in token || c in gap;
  }

  lemma SpelledParses(text: string, field: Field, p: FieldParts)
    requires SpelledBy(text, field, p)
    ensures ParseField(text) == Parsed(field)
  {
    hide Trim, Lower, AllWhite, ValidHeaderName, CleanValue, ParseField;
    NoColon(p.before, p.token, p.gap);
    NameIsTrimmed(p.token);
    TrimmedParts(p);
    LowerIsValid(p.token);
    SplitParses(text, p.before + p.token + p.gap, p.pad + p.value + p.after);
  }

  /** The first colon splits the line, whatever is on its two sides. */
  lemma SplitParses(text: string, name: string, rest: string)
    requires text == name + [':'] + rest && ':' !in name
    requires ValidHeaderName(Lower(Trim(name))) && CleanValue(Trim(rest))
    ensures ParseField(text) == Parsed(Field(Lower(Trim(name)), Trim(rest)))
  {
    hide Trim, Lower, ValidHeaderName, IsControl, IndexOf, Trimmed;
    IndexOfFirst(name, ':', rest);
    assert text[|name|] == ':' && text[..|name|] == name && text[|name| + 1..] == rest;
  }

  lemma TrimmedParts(p: FieldParts)
    requires ProperField(p) && Trim(p.token) == p.token
    ensures Trim(p.before + p.token + p.gap) == p.token && Trim(p.pad + p.value + p.after) == p.value
  {
    hide Trim, ValidHeaderName;
    assert Padded(p.before + p.token + p.gap, p.before, p.token, p.gap);
    assert Padded(p.pad + p.value + p.after, p.pad, p.value, p.after);
    TrimIs(p.before + p.token + p.gap, p.token);
    TrimIs(p.pad + p.value + p.after, p.value);
  }

  lemma CutAt(text: string, i: nat)
    requires i < |text|
    ensures text == text[..i] + [text[i]] + text[i + 1..]
  {}

  lemma ParsedParts(text: string, field: Field, i: nat)
    requires ParseField(text) == Parsed(field) && i == IndexOf(text, ':')
    ensures i < |text| && text[i] == ':'
    ensures ValidHeaderName(Lower(Trim(text[..i]))) && CleanValue(Trim(text[i + 1..]))
    ensures field == Field(Lower(Trim(text[..i])), Trim(text[i + 1..]))
  {
    hide Trim, Lower, ValidHeaderName, IsControl, IndexOf, Trimmed;
  }

  lemma ParsedIsSpelled(text: string, field: Field)
    requires ParseField(text) == Parsed(field)
    ensures SpellsField(text, field)
  {
    hide Trim, Lower, ValidHeaderName, CleanValue, ParseField, IndexOf, SpelledBy;
    var i := IndexOf(text, ':');
    ParsedParts(text, field, i);
    LowerValidIff(Trim(text[..i]));
    CutAt(text, i);
    TrimPads(text[..i]);
    TrimPads(text[i + 1..]);
    hide Padded;
    var before, gap :| Padded(text[..i], before, Trim(text[..i]), gap);
    var pad, after :| Padded(text[i + 1..], pad, Trim(text[i + 1..]), after);
    var p := FieldParts(before, Trim(text[..i]), gap, pad, Trim(text[i + 1..]), after);
    PartsSpell(text, text[..i], text[i + 1..], p);
  }

  lemma PartsSpell(text: string, name: string, rest: string, p: FieldParts)
    requires text == name + [':'] + rest && ValidHeaderName(p.token) && CleanValue(p.value)
    requires Padded(name, p.before, p.token, p.gap) && Padded(rest, p.pad, p.value, p.after)
    ensures SpelledBy(text, Field(Lower(p.token), p.value), p)
  {
    hide ValidHeaderName, CleanValue, Lower, AllWhite;
  }

  /** A line is taken as a field exactly when it spells that field. */
  lemma ParsesIff(text: string, field: Field)
    ensures ParseField(text) == Parsed(field) <==> SpellsField(text, field)
  {
    hide ParseField, SpelledBy;
    if ParseField(text) == Parsed(field) {
      ParsedIsSpelled(text, field);
    } else if SpellsField(text, field) {
      var p :| SpelledBy(text, field, p);
      SpelledParses(text, field, p);
    }
  }

  // ---- numbers ----

  datatype NumberParts = NumberParts(before: string, sign: string, digits: string, after: string)

  /** White space, perhaps a plus sign, at least one digit, white space; and it fits `usize`. */
  predicate NumberBy(text: string, n: nat, radix: nat, p: NumberParts)
    requires IsRadix(radix)
  {
    && Padded(text, p.before, p.sign + p.digits, p.after)
    && (p.sign == "" || p.sign == "+") && p.digits != ""
    && ValueOf(p.digits, radix) == Some(n) && n <= 0xFFFF_FFFF_FFFF_FFFF
  }

  ghost predicate SpellsNumber(text: string, n: nat, radix: nat)
    requires IsRadix(radix)
  {
    exists p :: NumberBy(text, n, radix, p)
  }

  lemma {:induction false} DigitsAreVisible(s: string, radix: nat)
    requires IsRadix(radix) && ValueOf(s, radix).Some?
    ensures forall c :: c in s ==> !IsWhite(c) && c != '+' && c != ';' && c != ','
  {
    if s == "" {
    } else {
      var n := |s| - 1;
      DigitsAreVisible(s[..n], radix);
      assert s == s[..n] + [s[n]];
    }
  }

  lemma SignedIsTrimmed(sign: string, digits: string, radix: nat)
    requires IsRadix(radix) && ValueOf(digits, radix).Some? && digits != "" && (sign == "" || sign == "+")
    ensures Trimmed(sign + digits) && ParseUsize(sign + digits, radix) == ParseUsize(digits, radix)
  {
    DigitsAreVisible(digits, radix);
    hide ValueOf;
    assert digits[0] in digits && digits[|digits| - 1] in digits;
    assert sign + digits == digits || (sign + digits)[1..] == digits;
  }

  lemma UnsignedParses(digits: string, n: nat, radix: nat)
    requires IsRadix(radix) && ValueOf(digits, radix) == Some(n) && n <= USIZE_MAX && digits != ""
    ensures ParseUsize(digits, radix) == Some(n)
  {
    DigitsAreVisible(digits, radix);
    assert digits[0] in digits;
  }

  /** A length is read as `n` exactly when it spells `n`. */
  lemma NumberIff(text: string, n: nat, radix: nat)
    requires IsRadix(radix)
    ensures ParseUsize(Trim(text), radix) == Some(n) <==> SpellsNumber(text, n, radix)
  {
    hide Trim, ValueOf, AllWhite, Trimmed;
    if ParseUsize(Trim(text), radix) == Some(n) {
      var t := Trim(text);
      TrimPads(text);
      var before, after :| Padded(text, before, t, after);
      var signed := |t| > 1 && t[0] == '+';
      var p := NumberParts(before, if signed then "+" else "", if signed then t[1..] else t, after);
      assert p.sign + p.digits == t;
      assert NumberBy(text, n, radix, p);
    } else if SpellsNumber(text, n, radix) {
      hide ParseUsize;
      var p :| NumberBy(text, n, radix, p);
      SignedIsTrimmed(p.sign, p.digits, radix);
      UnsignedParses(p.digits, n, radix);
      TrimIs(text, p.sign + p.digits);
    }
  }

  lemma NumeralSpells(n: nat, radix: nat)
    requires IsRadix(radix) && n <= USIZE_MAX
    ensures SpellsNumber(Numeral(n, radix), n, radix)
  {
    hide Numeral, ParseUsize, Trim, SpellsNumber;
    NumeralIsClean(n, radix);
    TrimOfTrimmed(Numeral(n, radix));
    ParseOfNumeral(n, radix);
    NumberIff(Numeral(n, radix), n, radix);
  }

  // ---- chunk sizes ----

  predicate SizeBy(text: string, number: string, extension: string) {
    text == number + extension && ';' !in number && (extension == "" || extension[0] == ';')
  }

  /** A hexadecimal number and, after a semicolon, anything. */
  ghost predicate SpellsSize(text: string, n: nat) {
    exists number, extension :: SizeBy(text, number, extension) && SpellsNumber(number, n, 16)
  }

  /** A size line is read as `n` exactly when it spells `n`. */
  lemma SizeIff(text: string, n: nat)
    ensures ChunkSize(text) == Some(n) <==> SpellsSize(text, n)
  {
    hide Trim, ParseUsize, NumberBy;
    if ChunkSize(text) == Some(n) {
      var i := IndexOf(text, ';');
      NumberIff(text[..i], n, 16);
      assert text == text[..i] + text[i..];
      assert SizeBy(text, text[..i], text[i..]);
    } else if SpellsSize(text, n) {
      var number, extension :| SizeBy(text, number, extension) && SpellsNumber(number, n, 16);
      BeforeFirst(number, ';', extension);
      NumberIff(number, n, 16);
    }
  }

  // ---- transfer coding ----

  predicate ChunkedBy(value: string, before: string, word: string, after: string) {
    value == before + word + after && Lower(word) == "chunked"
  }

  /** The word `chunked`, in any letter case, anywhere in the value. */
  ghost predicate SaysChunked(value: string) {
    exists before, word, after :: ChunkedBy(value, before, word, after)
  }

  lemma LowerSlice(s: string, i: nat, j: nat)
    requires i <= j <= |s|
    ensures Lower(s)[i..j] == Lower(s[i..j])
  {}

  lemma SaysChunkedIff(value: string)
    ensures Contains(Lower(value), "chunked") <==> SaysChunked(value)
  {
    hide Lower;
    var word := "chunked";
    if Contains(Lower(value), word) {
      var i :| 0 <= i <= |value| && OccursAt(Lower(value), word, i);
      var j := i + |word|;
      assert Lower(value)[i..][..|word|] == Lower(value)[i..j];
      LowerSlice(value, i, j);
      assert ChunkedBy(value, value[..i], value[i..j], value[j..]);
    }
    if SaysChunked(value) {
      var before, found, after :| ChunkedBy(value, before, found, after);
      var i := |before|;
      assert value[i..i + |found|] == found;
      LowerSlice(value, i, i + |found|);
      assert Lower(value)[i..][..|found|] == Lower(value)[i..i + |found|];
      assert OccursAt(Lower(value), word, i);
    }
  }

  // ---- request lines ----

  datatype StartParts = StartParts(
    before: string, verb: string, gap: string, target: string, pad: string, version: string, after: string)

  predicate StartBy(text: string, p: StartParts) {
    && text == p.before + (p.verb + (p.gap + (p.target + (p.pad + (p.version + p.after)))))
    && IsWord(p.verb) && IsWord(p.target) && IsWord(p.version) && "HTTP/1." <= p.version
    && AllWhite(p.before) && AllWhite(p.gap) && AllWhite(p.pad) && AllWhite(p.after)
    && p.gap != "" && p.pad != ""
  }

  /** Three words, the last naming a 1.x version, amid white space. */
  ghost predicate SpellsStart(text: string) {
    exists p :: StartBy(text, p)
  }

  /** The first word and what comes after it. */
  lemma FirstWord(s: string) returns (before: string, word: string, rest: string)
    requires Words(s) != []
    ensures s == before + (word + rest) && AllWhite(before) && IsWord(word)
    ensures rest == "" || IsWhite(rest[0])
    ensures Words(s) == [word] + Words(rest)
  {
    var t := TrimStart(s);
    WordsUnfold(s, t, WordLength(t));
    before, word, rest := SplitStart(s, t, WordLength(t));
  }

  lemma WordsUnfold(s: string, t: string, n: nat)
    requires Words(s) != [] && t == TrimStart(s) && n == WordLength(t)
    ensures t != "" && n <= |t| && Words(s) == [t[..n]] + Words(t[n..]) && IsWord(t[..n])
  {
    hide TrimStart, WordLength, IsWord, IsWhite;
    assert t[..n] in Words(s);
  }

  lemma SplitStart(s: string, t: string, n: nat) returns (before: string, word: string, rest: string)
    requires t == TrimStart(s) && n == WordLength(t)
    ensures s == before + (word + rest) && AllWhite(before) && word == t[..n] && rest == t[n..]
    ensures rest == "" || IsWhite(rest[0])
  {
    hide TrimStart, WordLength, IsWhite;
    before, word, rest := s[..|s| - |t|], t[..n], t[n..];
    assert t == word + rest && s == before + t;
  }

  lemma OnlyWhiteLeft(s: string)
    requires Words(s) == []
    ensures AllWhite(s)
  {
    assert s == s[..|s| - |TrimStart(s)|] + TrimStart(s);
  }

  lemma WordsAfterWhite(before: string, s: string)
    requires AllWhite(before)
    ensures Words(before + s) == Words(s)
  {
    StartAfterWhite(before, s);
  }

  lemma {:induction false} StartAfterWhite(before: string, s: string)
    requires AllWhite(before)
    ensures TrimStart(before + s) == TrimStart(s)
  {
    if before == "" {
      assert before + s == s;
    } else {
      assert (before + s)[0] == before[0] && before[0] in before;
      assert (before + s)[1..] == before[1..] + s;
      StartAfterWhite(before[1..], s);
    }
  }

  lemma WordThen(before: string, word: string, gap: string, s: string)
    requires AllWhite(before) && IsWord(word) && AllWhite(gap) && (gap == "" ==> s == "")
    ensures Words(before + (word + (gap + s))) == [word] + Words(s)
  {
    assert gap != "" ==> gap[0] in gap && (gap + s)[0] == gap[0];
    hide AllWhite, Words, IsWord;
    WordsAfterWhite(before, word + (gap + s));
    WordsOfWord(word, gap + s);
    WordsAfterWhite(gap, s);
  }

  /** A line is taken as a request line exactly when it is spelled as one. */
  lemma StartIff(text: string)
    ensures ValidRequestLine(text) <==> SpellsStart(text)
  {
    hide SpellsStart, ValidRequestLine;
    if ValidRequestLine(text) {
      StartTaken(text);
    } else if SpellsStart(text) {
      StartSpelled(text);
    }
  }

  lemma StartTaken(text: string)
    requires ValidRequestLine(text)
    ensures SpellsStart(text)
  {
    hide Words, AllWhite, IsWord, StartBy;
    var before, verb, rest := FirstWord(text);
    var gap, target, more := FirstWord(rest);
    var pad, version, after := FirstWord(more);
    assert Words(text) == [verb, target, version] + Words(after);
    OnlyWhiteLeft(after);
    GapBetween(rest, gap, target, more);
    GapBetween(more, pad, version, after);
    StartParted(text, before, verb, rest, gap, target, more, pad, version, after);
  }

  lemma StartParted(text: string, before: string, verb: string, rest: string, gap: string, target: string,
                    more: string, pad: string, version: string, after: string)
    requires text == before + (verb + rest) && rest == gap + (target + more) && more == pad + (version + after)
    requires IsWord(verb) && IsWord(target) && IsWord(version) && "HTTP/1." <= version && gap != "" && pad != ""
    requires AllWhite(before) && AllWhite(gap) && AllWhite(pad) && AllWhite(after)
    ensures StartBy(text, StartParts(before, verb, gap, target, pad, version, after))
  {
    hide AllWhite, IsWord;
  }

  lemma StartSpelled(text: string)
    requires SpellsStart(text)
    ensures ValidRequestLine(text)
  {
    hide Words, AllWhite, IsWord;
    var p :| StartBy(text, p);
    var last := p.version + p.after;
    var middle := p.target + (p.pad + last);
    WordThen(p.before, p.verb, p.gap, middle);
    assert Words(middle) == [p.target] + Words(last) by { WordFirst(p.target, p.pad, last); }
    assert Words(last) == [p.version] by { LastWord(p.version, p.after); }
    ThreeLong(p.verb, p.target, p.version, Words(text));
  }

  lemma ThreeLong(a: string, b: string, c: string, words: seq<string>)
    requires words == [a] + ([b] + [c])
    ensures |words| == 3 && words[2] == c
  {}

  lemma EmptyIsWhite()
    ensures AllWhite("") && Words("") == []
  {}

  lemma WordFirst(word: string, gap: string, s: string)
    requires IsWord(word) && AllWhite(gap) && gap != ""
    ensures Words(word + (gap + s)) == [word] + Words(s)
  {
    hide Words, AllWhite, IsWord;
    EmptyIsWhite();
    WordThen("", word, gap, s);
    assert "" + (word + (gap + s)) == word + (gap + s);
  }

  lemma LastWord(word: string, after: string)
    requires IsWord(word) && AllWhite(after)
    ensures Words(word + after) == [word]
  {
    hide Words, AllWhite, IsWord;
    EmptyIsWhite();
    WordThen("", word, after, "");
    assert "" + (word + (after + "")) == word + after;
  }

  lemma GapBetween(s: string, gap: string, word: string, rest: string)
    requires s == gap + (word + rest) && IsWord(word) && IsWhite(s[0])
    ensures gap != ""
  {
    assert word[0] in word;
  }
}
