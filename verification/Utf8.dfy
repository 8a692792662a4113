/**
 UTF-8, as `BufRead::read_line` validates it and `write!` produces it (section 3 of RFC 3629).
 Encoding and decoding are proved to be exact inverses of each other, so a line of the
 stream and its text determine each other.
 */
module Utf8 {
  import opened Options

  type byte = b: int | 0 <= b < 256
  type bytes = seq<byte>

  const NEWLINE: byte := 10
  const RETURN: byte := 13

  predicate IsTail(b: byte) {
    0x80 <= b < 0xC0
  }

  predicate IsScalar(n: int) {
    0 <= n < 0xD800 || 0xE000 <= n < 0x11_0000
  }

  function EncodeChar(c: char): (r: bytes)
    ensures 1 <= |r| <= 4
    ensures c as int < 128 ==> r == [c as int]
    ensures c as int >= 128 ==> forall b :: b in r ==> b >= 128
  {
    var n := c as int;
    if n < 0x80 then [n]
    else if n < 0x800 then [0xC0 + n / 64, 0x80 + n % 64]
    else if n < 0x1_0000 then [0xE0 + n / 64 / 64, 0x80 + n / 64 % 64, 0x80 + n % 64]
    else [0xF0 + n / 64 / 64 / 64, 0x80 + n / 64 / 64 % 64, 0x80 + n / 64 % 64, 0x80 + n % 64]
  }

  function Encode(s: string): bytes {
    if s == "" then [] else EncodeChar(s[0]) + Encode(s[1..])
  }

  /** The six bits a continuation byte carries. */
  function Six(b: byte): int {
    (b as int) - 0x80
  }

  /** The scalar at the head of `b` and the bytes it takes; none if `b` starts ill-formed. */
  function DecodeChar(b: bytes): (r: Option<(char, nat)>)
    requires b != []
    ensures r.Some? ==> 1 <= r.value.1 <= |b| && r.value.1 <= 4
  {
    var x := b[0] as int;
    if x < 0x80 then Some((x as char, 1))
    else if 0xC2 <= x < 0xE0 && |b| >= 2 && IsTail(b[1]) then
      Scalar((x - 0xC0) * 64 + Six(b[1]), 0x80, 2)
    else if 0xE0 <= x < 0xF0 && |b| >= 3 && IsTail(b[1]) && IsTail(b[2]) then
      Scalar(((x - 0xE0) * 64 + Six(b[1])) * 64 + Six(b[2]), 0x800, 3)
    else if 0xF0 <= x < 0xF5 && |b| >= 4 && IsTail(b[1]) && IsTail(b[2]) && IsTail(b[3]) then
      Scalar((((x - 0xF0) * 64 + Six(b[1])) * 64 + Six(b[2])) * 64 + Six(b[3]), 0x1_0000, 4)
    else None
  }

  /** Overlong forms and surrogates are refused. */
  function Scalar(n: int, least: int, width: nat): Option<(char, nat)> {
    if IsScalar(n) && n >= least then Some((n as char, width)) else None
  }

  function Decode(b: bytes): Option<string> {
    if b == [] then Some("")
    else
      match DecodeChar(b)
      case None => None
      case Some(p) =>
        match Decode(b[p.1..])
        case None => None
        case Some(rest) => Some([p.0] + rest)
  }

  lemma DecodeEncodedChar(c: char, tail: bytes)
    ensures DecodeChar(EncodeChar(c) + tail) == Some((c, |EncodeChar(c)|))
  {
    var n := c as int;
    var b := EncodeChar(c) + tail;
    assert b[0] == EncodeChar(c)[0];
    assert |EncodeChar(c)| > 1 ==> b[1] == EncodeChar(c)[1];
    assert |EncodeChar(c)| > 2 ==> b[2] == EncodeChar(c)[2];
    assert |EncodeChar(c)| > 3 ==> b[3] == EncodeChar(c)[3];
  }

  lemma SplitSix(a: int, t: int)
    requires 0 <= t < 64
    ensures (a * 64 + t) / 64 == a && (a * 64 + t) % 64 == t
  {}

  lemma EncodeDecodedChar(b: bytes)
    requires b != [] && DecodeChar(b).Some?
    ensures EncodeChar(DecodeChar(b).value.0) == b[..DecodeChar(b).value.1]
  {
    var w := DecodeChar(b).value.1;
    if w == 3 {
      ThreeBytes(b);
    } else if w == 4 {
      FourBytes(b);
    } else if w == 2 {
      SplitSix(b[0] as int - 0xC0, Six(b[1]));
    }
  }

  lemma ThreeBytes(b: bytes)
    requires b != [] && DecodeChar(b).Some? && DecodeChar(b).value.1 == 3
    ensures EncodeChar(DecodeChar(b).value.0) == b[..3]
  {
    var top := b[0] as int - 0xE0;
    var hi := top * 64 + Six(b[1]);
    SplitSix(top, Six(b[1]));
    SplitSix(hi, Six(b[2]));
  }

  lemma FourBytes(b: bytes)
    requires b != [] && DecodeChar(b).Some? && DecodeChar(b).value.1 == 4
    ensures EncodeChar(DecodeChar(b).value.0) == b[..4]
  {
    var top := b[0] as int - 0xF0;
    var hi := top * 64 + Six(b[1]);
    var mid := hi * 64 + Six(b[2]);
    SplitSix(top, Six(b[1]));
    SplitSix(hi, Six(b[2]));
    SplitSix(mid, Six(b[3]));
  }

  /** Decoding undoes encoding, for every text. */
  lemma {:induction false} DecodeOfEncode(s: string)
    ensures Decode(Encode(s)) == Some(s)
  {
    if s == "" {
    } else {
      var rest := Encode(s[1..]);
      DecodeEncodedChar(s[0], rest);
      assert (EncodeChar(s[0]) + rest)[|EncodeChar(s[0])|..] == rest;
      DecodeOfEncode(s[1..]);
      assert [s[0]] + s[1..] == s;
    }
  }

  /** Encoding undoes decoding, so a byte string has at most one reading. */
  lemma {:induction false} EncodeOfDecode(b: bytes)
    requires Decode(b).Some?
    ensures Encode(Decode(b).value) == b
    decreases |b|
  {
    hide DecodeChar, EncodeChar;
    if b == [] {
    } else {
      var n := DecodeChar(b).value.1;
      EncodeDecodedChar(b);
      EncodeOfDecode(b[n..]);
      assert b == b[..n] + b[n..];
      var t := Decode(b).value;
      assert t[1..] == Decode(b[n..]).value;
    }
  }

  lemma {:induction false} EncodeConcat(a: string, b: string)
    ensures Encode(a + b) == Encode(a) + Encode(b)
  {
    if a == "" {
      assert a + b == b;
    } else {
      assert (a + b)[1..] == a[1..] + b;
      EncodeConcat(a[1..], b);
    }
  }

  lemma EncodeAscii(c: char)
    requires c as int < 128
    ensures Encode([c]) == [c as int]
  {
    assert [c][1..] == "";
  }

  /** An ASCII byte of the encoding is that ASCII character of the text. */
  lemma {:induction false} AsciiByte(s: string, c: char)
    requires c as int < 128
    ensures c as int in Encode(s) <==> c in s
  {
    if s == "" {
    } else {
      AsciiByte(s[1..], c);
      var h := EncodeChar(s[0]);
      assert c as int in h <==> c == s[0];
      assert c in s <==> c == s[0] || c in s[1..];
    }
  }

  lemma {:induction false} EncodeLength(s: string)
    ensures |s| <= |Encode(s)| <= 4 * |s|
    ensures (forall c :: c in s ==> c as int < 128) ==> |Encode(s)| == |s|
  {
    if s == "" {
    } else {
      EncodeLength(s[1..]);
      assert s[0] in s;
      assert forall c :: c in s[1..] ==> c in s;
    }
  }

  /** A text whose encoding ends in an ASCII byte ends in that character. */
  lemma EncodeEnds(s: string, c: char)
    requires c as int < 128 && s != ""
    ensures Encode(s) != []
    ensures Encode(s)[|Encode(s)| - 1] == c as int <==> s[|s| - 1] == c
    ensures Encode(s[..|s| - 1]) + EncodeChar(s[|s| - 1]) == Encode(s)
  {
    var a, d := s[..|s| - 1], s[|s| - 1];
    var h := EncodeChar(d);
    assert s == a + [d];
    EncodeOne(d);
    EncodeConcat(a, [d]);
    hide Encode, EncodeChar;
    assert Encode(s)[|Encode(s)| - 1] == h[|h| - 1];
    assert h[|h| - 1] in h;
  }

  lemma EncodeOne(c: char)
    ensures Encode([c]) == EncodeChar(c)
  {
    assert [c][1..] == "";
  }

  /** ASCII text is encoded character by character; other text leaves a byte that is not ASCII. */
  lemma {:induction false} EncodeAsciiText(s: string)
    ensures (forall c :: c in s ==> c as int < 128) ==>
              |Encode(s)| == |s| && forall i :: 0 <= i < |s| ==> Encode(s)[i] == s[i] as int
    ensures (exists c :: c in s && c as int >= 128) ==> exists b :: b in Encode(s) && b >= 128
  {
    if s == "" {
    } else {
      EncodeAsciiText(s[1..]);
      assert s[0] in s;
      assert forall c :: c in s <==> c == s[0] || c in s[1..];
      var h := EncodeChar(s[0]);
      assert h[0] in h;
      assert forall b :: b in Encode(s) <==> b in h || b in Encode(s[1..]);
    }
  }
}
