/** Standard base64 with padding (section 4 of RFC 4648), the form encoding/json gives to byte slices. */
module Base64 {
  import opened Wrappers
  import opened Utf8

  const PAD := '='

  function Symbol(i: nat): char
    requires i < 64
  {
    if i < 26 then ('A' as int + i) as char
    else if i < 52 then ('a' as int + (i - 26)) as char
    else if i < 62 then ('0' as int + (i - 52)) as char
    else if i == 62 then '+' else '/'
  }

  function Value(c: char): (r: Option<nat>)
    ensures r.Some? ==> r.value < 64
  {
    if 'A' <= c <= 'Z' then Some(c as int - 'A' as int)
    else if 'a' <= c <= 'z' then Some(c as int - 'a' as int + 26)
    else if '0' <= c <= '9' then Some(c as int - '0' as int + 52)
    else if c == '+' then Some(62)
    else if c == '/' then Some(63)
    else None
  }

  function Encode(b: Bytes): string {
    if b == [] then ""
    else
      var b0 := b[0] as int;
      if |b| == 1 then
        [Symbol(b0 / 4), Symbol(b0 % 4 * 16), PAD, PAD]
      else
        var b1 := b[1] as int;
        if |b| == 2 then
          [Symbol(b0 / 4), Symbol(b0 % 4 * 16 + b1 / 16), Symbol(b1 % 16 * 4), PAD]
        else
          var b2 := b[2] as int;
          [Symbol(b0 / 4), Symbol(b0 % 4 * 16 + b1 / 16), Symbol(b1 % 16 * 4 + b2 / 64), Symbol(b2 % 64)]
          + Encode(b[3..])
  }

  /** The decoder skips line breaks wherever they stand. */
  function Strip(t: string): string {
    if t == "" then ""
    else if t[0] == '\r' || t[0] == '\n' then Strip(t[1..])
    else [t[0]] + Strip(t[1..])
  }

  function Decode(t: string): Option<Bytes> {
    DecodeQuads(Strip(t))
  }

  /** Left-over bits of a padded quantum are not checked to be zero. */
  function DecodeQuads(t: string): Option<Bytes> {
    if t == "" then Some([])
    else if |t| < 4 then None
    else match (Value(t[0]), Value(t[1]))
      case (Some(v0), Some(v1)) =>
        var b0 := (v0 * 4 + v1 / 16) as Byte;
        if t[2] == PAD then
          if t[3] == PAD && |t| == 4 then Some([b0]) else None
        else (match Value(t[2])
          case None => None
          case Some(v2) =>
            var b1 := (v1 % 16 * 16 + v2 / 4) as Byte;
            if t[3] == PAD then
              if |t| == 4 then Some([b0, b1]) else None
            else (match (Value(t[3]), DecodeQuads(t[4..]))
              case (Some(v3), Some(rest)) => Some([b0, b1, (v2 % 4 * 64 + v3) as Byte] + rest)
              case _ => None))
      case _ => None
  }

  /** Characters that JSON strings carry without escaping. */
  predicate IsPlain(c: char) {
    Value(c).Some? || c == PAD
  }

  lemma ValueOfSymbol(i: nat)
    requires i < 64
    ensures Value(Symbol(i)) == Some(i)
  {
  }

  lemma {:induction false} EncodePlain(b: Bytes)
    ensures forall i :: 0 <= i < |Encode(b)| ==> IsPlain(Encode(b)[i])
  {
    if |b| >= 3 {
      EncodePlain(b[3..]);
    }
  }

  lemma {:induction false} StripPlain(t: string)
    requires forall i :: 0 <= i < |t| ==> IsPlain(t[i])
    ensures Strip(t) == t
  {
    if t != "" {
      assert IsPlain(t[0]);
      StripPlain(t[1..]);
    }
  }

  /** The four six-bit groups of three bytes give the three bytes back. */
  lemma GroupsOfBytes(b0: int, b1: int, b2: int)
    requires 0 <= b0 < 256 && 0 <= b1 < 256 && 0 <= b2 < 256
    ensures b0 / 4 < 64 && b0 % 4 * 16 + b1 / 16 < 64 && b1 % 16 * 4 + b2 / 64 < 64 && b2 % 64 < 64
    ensures b0 / 4 * 4 + (b0 % 4 * 16 + b1 / 16) / 16 == b0
    ensures (b0 % 4 * 16 + b1 / 16) % 16 * 16 + (b1 % 16 * 4 + b2 / 64) / 4 == b1
    ensures (b1 % 16 * 4 + b2 / 64) % 4 * 64 + b2 % 64 == b2
  {
  }

  lemma SymbolsOf(b0: int, b1: int, b2: int)
    requires 0 <= b0 < 256 && 0 <= b1 < 256 && 0 <= b2 < 256
    ensures b0 / 4 < 64 && b0 % 4 * 16 + b1 / 16 < 64 && b1 % 16 * 4 + b2 / 64 < 64 && b2 % 64 < 64
    ensures Value(Symbol(b0 / 4)) == Some(b0 / 4)
    ensures Value(Symbol(b0 % 4 * 16 + b1 / 16)) == Some(b0 % 4 * 16 + b1 / 16)
    ensures Value(Symbol(b1 % 16 * 4 + b2 / 64)) == Some(b1 % 16 * 4 + b2 / 64)
    ensures Value(Symbol(b2 % 64)) == Some(b2 % 64)
  {
    GroupsOfBytes(b0, b1, b2);
    ValueOfSymbol(b0 / 4);
    ValueOfSymbol(b0 % 4 * 16 + b1 / 16);
    ValueOfSymbol(b1 % 16 * 4 + b2 / 64);
    ValueOfSymbol(b2 % 64);
  }

  /** Three bytes, then the rest. */
  lemma DecodeFullQuantum(s: string, b: Bytes, b0: int, b1: int, b2: int)
    requires |b| >= 3 && b0 == b[0] as int && b1 == b[1] as int && b2 == b[2] as int
    requires |s| >= 4 && Value(s[0]) == Some(b0 / 4) && Value(s[1]) == Some(b0 % 4 * 16 + b1 / 16)
    requires Value(s[2]) == Some(b1 % 16 * 4 + b2 / 64) && Value(s[3]) == Some(b2 % 64)
    requires DecodeQuads(s[4..]) == Some(b[3..])
    ensures DecodeQuads(s) == Some(b)
  {
    GroupsOfBytes(b0, b1, b2);
    assert b == [b[0], b[1], b[2]] + b[3..];
  }

  lemma DecodePaddedQuantum(s: string, b: Bytes, b0: int, b1: int)
    requires 1 <= |b| <= 2 && b0 == b[0] as int && b1 == if |b| == 2 then b[1] as int else 0
    requires |s| == 4 && Value(s[0]) == Some(b0 / 4) && Value(s[1]) == Some(b0 % 4 * 16 + b1 / 16) && s[3] == PAD
    requires if |b| == 1 then s[2] == PAD else Value(s[2]) == Some(b1 % 16 * 4)
    ensures DecodeQuads(s) == Some(b)
  {
    GroupsOfBytes(b0, b1, 0);
    assert b == if |b| == 1 then [b[0]] else [b[0], b[1]];
  }

  lemma {:induction false} DecodeQuadsEncode(b: Bytes)
    ensures DecodeQuads(Encode(b)) == Some(b)
  {
    if b != [] {
      var b0, b1, b2 := b[0] as int, if |b| > 1 then b[1] as int else 0, if |b| > 2 then b[2] as int else 0;
      SymbolsOf(b0, b1, b2);
      if |b| >= 3 {
        DecodeQuadsEncode(b[3..]);
        assert Encode(b)[4..] == Encode(b[3..]);
        DecodeFullQuantum(Encode(b), b, b0, b1, b2);
      } else {
        DecodePaddedQuantum(Encode(b), b, b0, b1);
      }
    }
  }

  /** Base64 loses nothing. */
  lemma DecodeEncode(b: Bytes)
    ensures Decode(Encode(b)) == Some(b)
  {
    EncodePlain(b);
    StripPlain(Encode(b));
    DecodeQuadsEncode(b);
  }

  // ----- The alphabet and the padding --------------------------------------------------------------

  /** Table 1 of RFC 4648. */
  const ALPHABET := "ABCDEFGHIJKLMNOPQRSTUVWXYZ" + "abcdefghijklmnopqrstuvwxyz" + "0123456789" + "+/"

  lemma TableOf(i: nat)
    requires i < 64
    ensures |ALPHABET| == 64 && ALPHABET[i] == Symbol(i)
  {
    var a, b, c := "ABCDEFGHIJKLMNOPQRSTUVWXYZ", "abcdefghijklmnopqrstuvwxyz", "0123456789";
    Pieces(a, b, c, "+/", i);
    if i < 26 {
      assert a[i] == ('A' as int + i) as char;
    } else if i < 52 {
      assert b[i - 26] == ('a' as int + (i - 26)) as char;
    } else if i < 62 {
      assert c[i - 52] == ('0' as int + (i - 52)) as char;
    }
  }

  lemma Pieces(a: string, b: string, c: string, d: string, i: nat)
    requires i < |a| + |b| + |c| + |d|
    ensures (a + b + c + d)[i] == if i < |a| then a[i] else if i < |a| + |b| then b[i - |a|]
                                  else if i < |a| + |b| + |c| then c[i - |a| - |b|] else d[i - |a| - |b| - |c|]
  {
  }

  /** A character stands for its place in the table, and no other character for anything. */
  lemma ValueIff(c: char, i: nat)
    ensures |ALPHABET| == 64
    ensures Value(c) == Some(i) <==> i < 64 && c == ALPHABET[i]
  {
    hide Value, Symbol;
    TableOf(if i < 64 then i else 0);
    SymbolIff(c, i);
  }

  lemma SymbolIff(c: char, i: nat)
    ensures Value(c) == Some(i) <==> i < 64 && c == Symbol(i)
  {
  }

  predicate InAlphabet(c: char) {
    exists i :: 0 <= i < |ALPHABET| && ALPHABET[i] == c
  }

  /** Groups of four characters of the table, with as many equals signs at the end. */
  predicate Padded(s: string, signs: nat) {
    && |s| % 4 == 0 && signs <= |s|
    && (forall i :: 0 <= i < |s| - signs ==> InAlphabet(s[i])) && (forall i :: |s| - signs <= i < |s| ==> s[i] == '=')
  }

  predicate LineBreak(c: char) {
    c as int == 10 || c as int == 13
  }

  function WithoutBreaks(t: string): string {
    if t == "" then "" else (if LineBreak(t[0]) then "" else [t[0]]) + WithoutBreaks(t[1..])
  }

  lemma {:induction false} StripIs(t: string)
    ensures Strip(t) == WithoutBreaks(t)
  {
    if t != "" {
      StripIs(t[1..]);
      assert "" + WithoutBreaks(t[1..]) == WithoutBreaks(t[1..]);
    }
  }

  /** Accepted are, line breaks aside, full groups with none, one or two equals signs at the end. */
  lemma DecodeIff(t: string)
    ensures var s := WithoutBreaks(t); Decode(t).Some? <==> Padded(s, 0) || Padded(s, 1) || Padded(s, 2)
  {
    hide DecodeQuads, Padded;
    StripIs(t);
    QuadsIff(Strip(t));
  }

  lemma InTable(c: char)
    ensures InAlphabet(c) <==> Value(c).Some?
    ensures InAlphabet(c) ==> c != '='
  {
    hide Value;
    if InAlphabet(c) {
      var i :| 0 <= i < |ALPHABET| && ALPHABET[i] == c;
      ValueIff(c, i);
    }
    if Value(c).Some? {
      ValueIff(c, Value(c).value);
    }
    NoEquals(c);
  }

  lemma NoEquals(c: char)
    ensures Value(c).Some? ==> c != '='
  {
  }

  lemma {:induction false} QuadsIff(s: string)
    ensures DecodeQuads(s).Some? <==> Padded(s, 0) || Padded(s, 1) || Padded(s, 2)
  {
    hide InAlphabet, Value, DecodeQuads, Padded;
    if |s| < 4 {
      FewAreNothing(s);
    } else {
      QuadsStep(s);
      if |s| == 4 {
        OneGroup(s);
      } else {
        QuadsIff(s[4..]);
        PaddedLater(s, 0);
        PaddedLater(s, 1);
        PaddedLater(s, 2);
      }
    }
  }

  lemma FewAreNothing(s: string)
    requires |s| < 4
    ensures DecodeQuads(s).Some? <==> s == ""
    ensures Padded(s, 0) || Padded(s, 1) || Padded(s, 2) <==> s == ""
  {
  }

  lemma QuadsStep(s: string)
    requires |s| >= 4
    ensures DecodeQuads(s).Some? <==>
              && InAlphabet(s[0]) && InAlphabet(s[1])
              && if |s| == 4 && s[3] == '=' then s[2] == '=' || InAlphabet(s[2])
                 else InAlphabet(s[2]) && InAlphabet(s[3]) && DecodeQuads(s[4..]).Some?
  {
    hide InAlphabet, Value;
    InTable(s[0]);
    InTable(s[1]);
    InTable(s[2]);
    InTable(s[3]);
  }

  lemma OneGroup(s: string)
    requires |s| == 4
    ensures DecodeQuads(s[4..]).Some?
    ensures Padded(s, 0) <==> InAlphabet(s[0]) && InAlphabet(s[1]) && InAlphabet(s[2]) && InAlphabet(s[3])
    ensures Padded(s, 1) <==> InAlphabet(s[0]) && InAlphabet(s[1]) && InAlphabet(s[2]) && s[3] == '='
    ensures Padded(s, 2) <==> InAlphabet(s[0]) && InAlphabet(s[1]) && s[2] == '=' && s[3] == '='
  {
    hide InAlphabet, Value;
    assert s[4..] == "";
  }

  lemma PaddedLater(s: string, signs: nat)
    requires |s| > 4 && signs <= 2
    ensures Padded(s, signs) <==> (forall i :: 0 <= i < 4 ==> InAlphabet(s[i])) && Padded(s[4..], signs)
  {
    hide InAlphabet;
    if Padded(s[4..], signs) && forall i :: 0 <= i < 4 ==> InAlphabet(s[i]) {
      forall i | 4 <= i < |s| - signs ensures InAlphabet(s[i]) {
        assert s[i] == s[4..][i - 4];
      }
      forall i | |s| - signs <= i < |s| ensures s[i] == '=' {
        assert s[i] == s[4..][i - 4];
      }
    }
  }
}
