/**
 Text as the program handles it: a Rust `String` is a sequence of Unicode scalar values,
 and so is Dafny's `string`.  The character classes are the full Unicode ones, so nothing
 below assumes ASCII.
 */
module Text {

  /** The `White_Space` property, which `str::trim` and `str::split_whitespace` use. */
  predicate IsWhite(c: char) {
    var n := c as int;
    || 9 <= n <= 13 || n == 32 || n == 0x85 || n == 0xA0 || n == 0x1680
    || 0x2000 <= n <= 0x200A || n == 0x2028 || n == 0x2029 || n == 0x202F
    || n == 0x205F || n == 0x3000
  }

  /** General category `Cc`, which `char::is_control` tests. */
  predicate IsControl(c: char) {
    var n := c as int;
    n < 32 || 127 <= n < 160
  }

  predicate IsAlphanumeric(c: char) {
    'a' <= c <= 'z' || 'A' <= c <= 'Z' || '0' <= c <= '9'
  }

  function LowerChar(c: char): char {
    if 'A' <= c <= 'Z' then (c as int + 32) as char else c
  }

  function Lower(s: string): (r: string)
    ensures |r| == |s|
    ensures forall i :: 0 <= i < |s| ==> r[i] == LowerChar(s[i])
  {
    seq(|s|, i requires 0 <= i < |s| => LowerChar(s[i]))
  }

  predicate Trimmed(s: string) {
    s == "" || (!IsWhite(s[0]) && !IsWhite(s[|s| - 1]))
  }

  function TrimStart(s: string): (r: string)
    ensures |r| <= |s| && r == s[|s| - |r|..]
    ensures r == "" || !IsWhite(r[0])
    ensures forall i :: 0 <= i < |s| - |r| ==> IsWhite(s[i])
  {
    if s != "" && IsWhite(s[0]) then TrimStart(s[1..]) else s
  }

  function TrimEnd(s: string): (r: string)
    ensures |r| <= |s| && r == s[..|r|]
    ensures r == "" || !IsWhite(r[|r| - 1])
    ensures forall i :: |r| <= i < |s| ==> IsWhite(s[i])
  {
    if s != "" && IsWhite(s[|s| - 1]) then TrimEnd(s[..|s| - 1]) else s
  }

  function Trim(s: string): (r: string)
    ensures Trimmed(r)
    ensures forall c :: c in r ==> c in s
  {
    TrimEnd(TrimStart(s))
  }

  lemma TrimOfTrimmed(s: string)
    requires Trimmed(s)
    ensures Trim(s) == s
  {}

  /** Leading white space never changes what `trim` leaves. */
  lemma {:induction false} TrimAfterWhite(a: string, s: string)
    requires forall c :: c in a ==> IsWhite(c)
    ensures Trim(a + s) == Trim(s)
  {
    if a == "" {
      assert a + s == s;
    } else {
      assert (a + s)[0] == a[0] && a[0] in a;
      assert (a + s)[1..] == a[1..] + s;
      TrimAfterWhite(a[1..], s);
    }
  }

  predicate AllWhite(s: string) {
    forall c :: c in s ==> IsWhite(c)
  }

  predicate Padded(s: string, before: string, v: string, after: string) {
    s == before + v + after && AllWhite(before) && AllWhite(after)
  }

  /** `v` is all of `s` but the white space around it. */
  ghost predicate TrimsTo(s: string, v: string) {
    Trimmed(v) && exists before, after :: Padded(s, before, v, after)
  }

  /** `str::trim` takes away the surrounding white space and nothing else. */
  lemma TrimIs(s: string, v: string)
    ensures Trim(s) == v <==> TrimsTo(s, v)
  {
    hide Trim, Trimmed, AllWhite;
    if Trim(s) == v {
      TrimPads(s);
    }
    if TrimsTo(s, v) {
      var before, after :| Padded(s, before, v, after);
      TrimPadded(before, v, after);
    }
  }

  lemma TrimPadded(before: string, v: string, after: string)
    requires Trimmed(v) && AllWhite(before) && AllWhite(after)
    ensures Trim(before + v + after) == v
  {
    hide Trim, Trimmed, IsWhite;
    TrimAfterWhite(before, v + after);
    TrimBeforeWhite(v, after);
    Rejoin(before, v, after);
  }

  lemma Rejoin(a: string, b: string, c: string)
    ensures a + b + c == a + (b + c)
  {}

  lemma TrimPads(s: string)
    ensures TrimsTo(s, Trim(s))
  {
    var t := TrimStart(s);
    var v := TrimEnd(t);
    hide TrimStart, TrimEnd;
    assert Padded(s, s[..|s| - |t|], v, t[|v|..]);
  }

  /** What is left of a text whose last visible character is the `n`th. */
  lemma EndsAt(s: string, n: nat)
    requires 0 < n <= |s| && !IsWhite(s[n - 1]) && forall i :: n <= i < |s| ==> IsWhite(s[i])
    ensures TrimEnd(s) == s[..n]
  {
    hide TrimEnd, IsWhite;
    var r := TrimEnd(s);
    assert r == s[..|r|] && |r| >= n;
    assert r != "" ==> r[|r| - 1] == s[|r| - 1];
  }

  lemma TrimBeforeWhite(v: string, after: string)
    requires Trimmed(v) && AllWhite(after)
    ensures Trim(v + after) == v
  {
    if v == "" {
      assert v + after == after + "";
      TrimAfterWhite(after, "");
    } else {
      var s := v + after;
      assert s[0] == v[0] && s[|v| - 1] == v[|v| - 1] && s[..|v|] == v;
      assert TrimStart(s) == s;
      hide TrimStart, TrimEnd, IsWhite;
      assert forall i :: |v| <= i < |s| ==> s[i] == after[i - |v|] && after[i - |v|] in after;
      EndsAt(s, |v|);
    }
  }

  /** Where `c` first occurs, or the length of the text. */
  function IndexOf(s: string, c: char): (i: nat)
    ensures i <= |s|
    ensures i < |s| ==> s[i] == c
    ensures forall j :: 0 <= j < i ==> s[j] != c
    ensures i == |s| <==> c !in s
  {
    if s == "" then 0
    else if s[0] == c then 0
    else
      assert forall d :: d in s <==> d == s[0] || d in s[1..];
      1 + IndexOf(s[1..], c)
  }

  /** The part before the first `c`: what `split(c).next()` yields. */
  function Before(s: string, c: char): string {
    s[..IndexOf(s, c)]
  }

  lemma IndexOfFirst(a: string, c: char, b: string)
    requires c !in a
    ensures IndexOf(a + [c] + b, c) == |a|
  {
    var t := a + [c] + b;
    assert t[|a|] == c;
    assert forall i :: 0 <= i < |a| ==> t[i] == a[i];
  }

  lemma BeforeFirst(a: string, c: char, b: string)
    requires c !in a
    requires b == "" || b[0] == c
    ensures Before(a + b, c) == a
  {
    if b == "" {
      assert a + b == a;
    } else {
      assert a + b == a + [c] + b[1..];
      IndexOfFirst(a, c, b[1..]);
    }
  }

  predicate Contains(s: string, part: string) {
    exists i :: 0 <= i <= |s| && OccursAt(s, part, i)
  }

  predicate OccursAt(s: string, part: string, i: nat)
    requires i <= |s|
  {
    part <= s[i..]
  }

  /** The words `split_whitespace` yields. */
  function Words(s: string): (w: seq<string>)
    ensures forall x :: x in w ==> IsWord(x)
    decreases |s|
  {
    var t := TrimStart(s);
    if t == "" then []
    else
      var n := WordLength(t);
      [t[..n]] + Words(t[n..])
  }

  function WordLength(s: string): (n: nat)
    ensures n <= |s|
    ensures s != "" && !IsWhite(s[0]) ==> n > 0
    ensures forall i :: 0 <= i < n ==> !IsWhite(s[i])
    ensures n < |s| ==> IsWhite(s[n])
  {
    if s == "" || IsWhite(s[0]) then 0 else 1 + WordLength(s[1..])
  }

  lemma WordsOfWord(a: string, rest: string)
    requires IsWord(a)
    requires rest == "" || IsWhite(rest[0])
    ensures Words(a + rest) == [a] + Words(rest)
  {
    var s := a + rest;
    assert forall i :: 0 <= i < |a| ==> s[i] == a[i] && a[i] in a;
    assert TrimStart(s) == s;
    assert rest != "" ==> s[|a|] == rest[0];
    var n := WordLength(s);
    assert s[..n] == a && s[n..] == rest;
  }

  predicate IsWord(w: string) {
    w != "" && forall c :: c in w ==> !IsWhite(c)
  }

  lemma WordsOne(a: string)
    requires IsWord(a)
    ensures Words(a) == [a]
  {
    assert a + "" == a;
    WordsOfWord(a, "");
  }

  lemma WordsCons(a: string, rest: string)
    requires IsWord(a)
    ensures Words(a + " " + rest) == [a] + Words(rest)
  {
    var tail := " " + rest;
    assert a + " " + rest == a + tail;
    WordsOfWord(a, tail);
    assert tail[1..] == rest;
    assert TrimStart(tail) == TrimStart(rest);
  }

  /** Three words separated by single spaces are exactly what comes back. */
  lemma ThreeWords(a: string, b: string, c: string)
    requires IsWord(a) && IsWord(b) && IsWord(c)
    ensures Words(a + " " + b + " " + c) == [a, b, c]
  {
    TwoWords(b, c);
    WordsCons(a, b + " " + c);
    Regroup(a, " ", b, " ", c);
  }

  lemma Regroup(a: string, s: string, b: string, t: string, c: string)
    ensures a + s + b + t + c == a + s + (b + t + c)
  {}

  lemma TwoWords(a: string, b: string)
    requires IsWord(a) && IsWord(b)
    ensures Words(a + " " + b) == [a, b]
  {
    WordsOne(b);
    WordsCons(a, b);
  }
}
