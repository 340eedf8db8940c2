/** Go strings are byte sequences; JSON text is a sequence of Unicode scalar values.
    This module is the bridge: UTF-8 encoding and the lossy decoding of package unicode/utf8,
    which reads one replacement character for every byte that does not start a valid sequence. */
module Utf8 {
  newtype Byte = b: int | 0 <= b < 256

  /** A Go string, or a []byte compared by content. */
  type Bytes = seq<Byte>

  const REPLACEMENT: char := 0xFFFD as char

  function EncodeChar(c: char): (r: Bytes)
    ensures 1 <= |r| <= 4
  {
    var n := c as int;
    if n < 0x80 then
      [n as Byte]
    else if n < 0x800 then
      [(0xC0 + n / 64) as Byte, (0x80 + n % 64) as Byte]
    else if n < 0x10000 then
      [(0xE0 + n / 4096) as Byte, (0x80 + n / 64 % 64) as Byte, (0x80 + n % 64) as Byte]
    else
      [(0xF0 + n / 262144) as Byte, (0x80 + n / 4096 % 64) as Byte, (0x80 + n / 64 % 64) as Byte, (0x80 + n % 64) as Byte]
  }

  function Encode(t: string): Bytes {
    if t == "" then [] else EncodeChar(t[0]) + Encode(t[1..])
  }

  /** The Go string of an ASCII literal. */
  function Ascii(t: string): (r: Bytes)
    requires forall i :: 0 <= i < |t| ==> t[i] < 0x80 as char
    ensures |r| == |t|
  {
    seq(|t|, i requires 0 <= i < |t| => t[i] as int as Byte)
  }

  lemma {:induction false} LowBytesValid(s: Bytes)
    requires forall i :: 0 <= i < |s| ==> s[i] < 0x80
    ensures Valid(s)
  {
    if s != [] {
      LowBytesValid(s[1..]);
    }
  }

  lemma {:induction false} DecodeAscii(t: string)
    requires forall i :: 0 <= i < |t| ==> t[i] < 0x80 as char
    ensures Decode(Ascii(t)) == t
  {
    if t != "" {
      assert Ascii(t)[1..] == Ascii(t[1..]);
      DecodeAscii(t[1..]);
    }
  }

  predicate IsTail(b: Byte) {
    0x80 <= b as int < 0xC0
  }

  /** The scalar value that starts s and its length in bytes; (U+FFFD, 1) when s starts with no valid sequence. */
  function DecodeChar(s: Bytes): (r: (char, nat))
    requires s != []
    ensures 1 <= r.1 <= |s|
  {
    var b0 := s[0] as int;
    if b0 < 0x80 then
      (b0 as char, 1)
    else if 0xC2 <= b0 < 0xE0 && |s| >= 2 && IsTail(s[1]) then
      (((b0 - 0xC0) * 64 + (s[1] as int - 0x80)) as char, 2)
    else if 0xE0 <= b0 < 0xF0 && |s| >= 3 && IsTail(s[1]) && IsTail(s[2])
            && (b0 == 0xE0 ==> s[1] >= 0xA0) && (b0 == 0xED ==> s[1] < 0xA0) then
      (((b0 - 0xE0) * 4096 + (s[1] as int - 0x80) * 64 + (s[2] as int - 0x80)) as char, 3)
    else if 0xF0 <= b0 < 0xF5 && |s| >= 4 && IsTail(s[1]) && IsTail(s[2]) && IsTail(s[3])
            && (b0 == 0xF0 ==> s[1] >= 0x90) && (b0 == 0xF4 ==> s[1] < 0x90) then
      (((b0 - 0xF0) * 262144 + (s[1] as int - 0x80) * 4096 + (s[2] as int - 0x80) * 64 + (s[3] as int - 0x80)) as char, 4)
    else
      (REPLACEMENT, 1)
  }

  /** Does s start with a byte that begins no valid sequence? */
  predicate Broken(s: Bytes)
    requires s != []
  {
    DecodeChar(s) == (REPLACEMENT, 1)
  }

  function Decode(s: Bytes): string {
    if s == [] then "" else
      var (c, n) := DecodeChar(s);
      [c] + Decode(s[n..])
  }

  /** utf8.ValidString */
  predicate Valid(s: Bytes) {
    s == [] || (!Broken(s) && Valid(s[DecodeChar(s).1..]))
  }

  /** What a Go string becomes when it passes through JSON text. */
  function Sanitize(s: Bytes): Bytes {
    Encode(Decode(s))
  }

  lemma DecodeThreeBytes(n: int, s: Bytes)
    requires 0x800 <= n < 0x10000 && !(0xD800 <= n < 0xE000) && |s| >= 3
    requires s[0] as int == 0xE0 + n / 4096
    requires s[1] as int == 0x80 + n / 64 % 64 && s[2] as int == 0x80 + n % 64
    ensures DecodeChar(s) == (n as char, 3)
  {
    assert n / 4096 * 64 + n / 64 % 64 == n / 64;
  }

  lemma DecodeFourBytes(n: int, s: Bytes)
    requires 0x10000 <= n < 0x110000 && |s| >= 4
    requires s[0] as int == 0xF0 + n / 262144 && s[1] as int == 0x80 + n / 4096 % 64
    requires s[2] as int == 0x80 + n / 64 % 64 && s[3] as int == 0x80 + n % 64
    ensures DecodeChar(s) == (n as char, 4)
  {
    assert n / 262144 * 64 + n / 4096 % 64 == n / 4096;
    assert n / 4096 * 64 + n / 64 % 64 == n / 64;
  }

  lemma DecodeCharOfEncode(c: char, rest: Bytes)
    ensures DecodeChar(EncodeChar(c) + rest) == (c, |EncodeChar(c)|)
    ensures !Broken(EncodeChar(c) + rest)
  {
    var n := c as int;
    var e := EncodeChar(c);
    var s := e + rest;
    assert forall i :: 0 <= i < |e| ==> s[i] == e[i];
    if 0x800 <= n < 0x10000 {
      DecodeThreeBytes(n, s);
    } else if 0x10000 <= n {
      DecodeFourBytes(n, s);
    }
  }

  lemma EncodeThreeBytes(n: int, b0: int, b1: int, b2: int)
    requires 0 <= b0 < 16 && 0 <= b1 < 64 && 0 <= b2 < 64 && n == b0 * 4096 + b1 * 64 + b2
    ensures n / 4096 == b0 && n / 64 % 64 == b1 && n % 64 == b2
  {
    assert n / 64 == b0 * 64 + b1;
  }

  lemma EncodeFourBytes(n: int, b0: int, b1: int, b2: int, b3: int)
    requires 0 <= b0 < 5 && 0 <= b1 < 64 && 0 <= b2 < 64 && 0 <= b3 < 64
    requires n == b0 * 262144 + b1 * 4096 + b2 * 64 + b3
    ensures n / 262144 == b0 && n / 4096 % 64 == b1 && n / 64 % 64 == b2 && n % 64 == b3
  {
    assert n / 64 == b0 * 4096 + b1 * 64 + b2;
    assert n / 4096 == b0 * 64 + b1;
  }

  lemma EncodeCharOfDecode(s: Bytes)
    requires s != [] && !Broken(s)
    ensures EncodeChar(DecodeChar(s).0) == s[..DecodeChar(s).1]
  {
    var b0 := s[0] as int;
    var (c, n) := DecodeChar(s);
    if n == 3 {
      EncodeThreeBytes(c as int, b0 - 0xE0, s[1] as int - 0x80, s[2] as int - 0x80);
    } else if n == 4 {
      EncodeFourBytes(c as int, b0 - 0xF0, s[1] as int - 0x80, s[2] as int - 0x80, s[3] as int - 0x80);
    }
  }

  /** UTF-8 text survives the trip through bytes, and is valid there. */
  lemma {:induction false} DecodeEncode(t: string)
    ensures Decode(Encode(t)) == t
    ensures Valid(Encode(t))
  {
    if t != "" {
      var e := EncodeChar(t[0]);
      var s := Encode(t);
      DecodeCharOfEncode(t[0], Encode(t[1..]));
      assert s[|e|..] == Encode(t[1..]);
      DecodeEncode(t[1..]);
    }
  }

  /** A byte string survives the trip through text exactly when it is valid UTF-8. */
  lemma {:induction false} SanitizeIdentity(s: Bytes)
    ensures Sanitize(s) == s <==> Valid(s)
  {
    DecodeEncode(Decode(s));
    if Valid(s) {
      ValidSurvives(s);
    }
  }

  lemma {:induction false} ValidSurvives(s: Bytes)
    requires Valid(s)
    ensures Sanitize(s) == s
  {
    if s != [] {
      var (c, n) := DecodeChar(s);
      EncodeCharOfDecode(s);
      ValidSurvives(s[n..]);
      EncodeStep(c, Decode(s[n..]));
      assert s == s[..n] + s[n..];
    }
  }

  lemma EncodeStep(c: char, t: string)
    ensures Encode([c] + t) == EncodeChar(c) + Encode(t)
  {
    assert ([c] + t)[1..] == t;
  }
}
