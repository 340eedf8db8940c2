/** JSON text (RFC 8259) as encoding/json reads and writes it: the full grammar on the reading side,
    strings, byte slices and objects on the writing side. Text is a sequence of Unicode scalar values;
    Utf8 carries it to bytes and back. */
module Json {
  import opened Wrappers
  import opened Utf8
  import opened Decimal
  import Base64

  // ----- Reading ---------------------------------------------------------------------------------

  datatype Value =
    | Null
    | Bool(b: bool)
    | Number(literal: string)
    | String(text: string)
    | Array(items: Items)
    | Object(fields: Fields)

  datatype Items = NoItems | Item(head: Value, tail: Items)

  datatype Fields = NoFields | Field(key: string, value: Value, tail: Fields)

  /** The scanner refuses values nested deeper than this. */
  const MAX_DEPTH: nat := 10000

  predicate IsSpace(c: char) {
    c == ' ' || c == '\t' || c == '\r' || c == '\n'
  }

  function SkipSpace(s: string): (r: string)
    ensures |r| <= |s|
  {
    if s != "" && IsSpace(s[0]) then SkipSpace(s[1..]) else s
  }

  function HexValue(c: char): Option<nat> {
    if IsDigit(c) then Some(c as int - '0' as int)
    else if 'a' <= c <= 'f' then Some(c as int - 'a' as int + 10)
    else if 'A' <= c <= 'F' then Some(c as int - 'A' as int + 10)
    else None
  }

  /** The code unit written by the six characters \uXXXX at the front of s. */
  function CodeUnit(s: string): (r: Option<nat>)
    ensures r.Some? ==> |s| >= 6 && r.value < 0x10000
  {
    if |s| < 6 || s[0] != '\\' || s[1] != 'u' then None
    else match (HexValue(s[2]), HexValue(s[3]), HexValue(s[4]), HexValue(s[5]))
      case (Some(a), Some(b), Some(c), Some(d)) =>
        if a < 16 && b < 16 && c < 16 && d < 16 then Some(a * 4096 + b * 256 + c * 16 + d) else None
      case _ => None
  }

  /** The character written by the escape at the front of s, and the length of the escape. */
  function ReadEscape(s: string): (r: Option<(char, nat)>)
    requires s != "" && s[0] == '\\'
    ensures r.Some? ==> 1 <= r.value.1 <= |s|
  {
    if |s| < 2 then None
    else match s[1]
      case '"' => Some(('"', 2))
      case '\\' => Some(('\\', 2))
      case '/' => Some(('/', 2))
      case 'b' => Some((8 as char, 2))
      case 'f' => Some((12 as char, 2))
      case 'n' => Some(('\n', 2))
      case 'r' => Some(('\r', 2))
      case 't' => Some(('\t', 2))
      case _ =>
        (match CodeUnit(s)
         case None => None
         case Some(u) =>
           if u < 0xD800 || 0xE000 <= u then Some((u as char, 6))
           else match CodeUnit(s[6..])
             case Some(l) =>
               if u < 0xDC00 <= l < 0xE000 then
                 Some((((u - 0xD800) * 0x400 + (l - 0xDC00) + 0x10000) as char, 12))
               else Some((REPLACEMENT, 6))
             case None => Some((REPLACEMENT, 6)))
  }

  /** The body of a string literal up to its closing quote, and what follows. */
  function ReadString(s: string): (r: Option<(string, string)>)
    ensures r.Some? ==> |r.value.1| < |s|
    decreases |s|
  {
    if s == "" then None
    else if s[0] == '"' then Some(("", s[1..]))
    else if s[0] == '\\' then
      match ReadEscape(s)
      case None => None
      case Some((c, n)) => Prepend(c, ReadString(s[n..]))
    else if s[0] < ' ' then None
    else Prepend(s[0], ReadString(s[1..]))
  }

  function Prepend(c: char, r: Option<(string, string)>): Option<(string, string)> {
    match r
    case None => None
    case Some((t, rest)) => Some(([c] + t, rest))
  }

  /** The length of the number literal at the front of s. */
  function NumberLength(s: string): (r: Option<nat>)
    ensures r.Some? ==> 1 <= r.value <= |s|
  {
    var i0 := if s != "" && s[0] == '-' then 1 else 0;
    if i0 >= |s| || !IsDigit(s[i0]) then None
    else
      var i1 := if s[i0] == '0' then i0 + 1 else i0 + CountDigits(s[i0..]);
      var f := if i1 < |s| && s[i1] == '.' then 1 + CountDigits(s[i1 + 1..]) else 0;
      if f == 1 then None
      else
        var i2 := i1 + f;
        if i2 < |s| && (s[i2] == 'e' || s[i2] == 'E') then
          var i3 := if i2 + 1 < |s| && (s[i2 + 1] == '+' || s[i2 + 1] == '-') then i2 + 2 else i2 + 1;
          var e := CountDigits(s[i3..]);
          if e == 0 then None else Some(i3 + e)
        else if i2 == 0 then None else Some(i2)
  }

  /** The value at the front of s, and what follows; depth counts the open objects and arrays. */
  function ParseValue(s: string, depth: nat): (r: Option<(Value, string)>)
    ensures r.Some? ==> |r.value.1| < |s|
    decreases |s|, 1
  {
    var t := SkipSpace(s);
    if t == "" then None
    else if t[0] == '"' then
      match ReadString(t[1..])
      case None => None
      case Some((text, rest)) => Some((String(text), rest))
    else if t[0] == '{' then
      if depth >= MAX_DEPTH then None
      else
        var u := SkipSpace(t[1..]);
        if u != "" && u[0] == '}' then Some((Object(NoFields), u[1..]))
        else match ParseFields(u, depth + 1)
          case None => None
          case Some((fields, rest)) => Some((Object(fields), rest))
    else if t[0] == '[' then
      if depth >= MAX_DEPTH then None
      else
        var u := SkipSpace(t[1..]);
        if u != "" && u[0] == ']' then Some((Array(NoItems), u[1..]))
        else match ParseItems(u, depth + 1)
          case None => None
          case Some((items, rest)) => Some((Array(items), rest))
    else if "null" <= t then Some((Null, t[4..]))
    else if "true" <= t then Some((Bool(true), t[4..]))
    else if "false" <= t then Some((Bool(false), t[5..]))
    else match NumberLength(t)
      case None => None
      case Some(n) => Some((Number(t[..n]), t[n..]))
  }

  /** One or more members and the closing brace. */
  function ParseFields(s: string, depth: nat): (r: Option<(Fields, string)>)
    ensures r.Some? ==> |r.value.1| < |s|
    decreases |s|, 2
  {
    var t := SkipSpace(s);
    if t == "" || t[0] != '"' then None
    else match ReadString(t[1..])
      case None => None
      case Some((key, afterKey)) =>
        var u := SkipSpace(afterKey);
        if u == "" || u[0] != ':' then None
        else match ParseValue(u[1..], depth)
          case None => None
          case Some((value, afterValue)) =>
            var v := SkipSpace(afterValue);
            if v == "" then None
            else if v[0] == '}' then Some((Field(key, value, NoFields), v[1..]))
            else if v[0] != ',' then None
            else match ParseFields(v[1..], depth)
              case None => None
              case Some((tail, rest)) => Some((Field(key, value, tail), rest))
  }

  /** One or more elements and the closing bracket. */
  function ParseItems(s: string, depth: nat): (r: Option<(Items, string)>)
    ensures r.Some? ==> |r.value.1| < |s|
    decreases |s|, 2
  {
    match ParseValue(s, depth)
    case None => None
    case Some((head, afterHead)) =>
      var v := SkipSpace(afterHead);
      if v == "" then None
      else if v[0] == ']' then Some((Item(head, NoItems), v[1..]))
      else if v[0] != ',' then None
      else match ParseItems(v[1..], depth)
        case None => None
        case Some((tail, rest)) => Some((Item(head, tail), rest))
  }

  /** json.Unmarshal: one value and nothing but spaces after it. */
  function ParseWhole(s: string): Option<Value> {
    match ParseValue(s, 0)
    case Some((value, rest)) => if SkipSpace(rest) == "" then Some(value) else None
    case None => None
  }

  /** json.Decoder.Decode: the first value of a stream; what follows is not looked at. */
  function ParseFirst(s: string): Option<Value> {
    match ParseValue(s, 0)
    case Some((value, _)) => Some(value)
    case None => None
  }

  // ----- Writing ---------------------------------------------------------------------------------

  /** The documents this program writes. */
  datatype Doc = DNull | DString(s: Bytes) | DBytes(b: Bytes) | DObject(members: Members)

  datatype Members = NoMembers | Member(key: Bytes, value: Doc, tail: Members)

  function HexDigit(n: nat): char
    requires n < 16
  {
    if n < 10 then ('0' as int + n) as char else ('a' as int + (n - 10)) as char
  }

  /** What stands for one character of a Go string; a broken byte is written as an escape. */
  function EscapeChar(c: char, broken: bool): string {
    if broken then "\\ufffd"
    else if c == '"' || c == '\\' then ['\\', c]
    else if c == 8 as char then "\\b"
    else if c == 12 as char then "\\f"
    else if c == '\n' then "\\n"
    else if c == '\r' then "\\r"
    else if c == '\t' then "\\t"
    else if c < ' ' || c == '<' || c == '>' || c == '&' then
      ['\\', 'u', '0', '0', HexDigit(c as int / 16), HexDigit(c as int % 16)]
    else if c == 0x2028 as char || c == 0x2029 as char then
      ['\\', 'u', '2', '0', '2', HexDigit(c as int % 16)]
    else [c]
  }

  /** The escaped characters of s, then tail. */
  function EscapeTo(s: Bytes, tail: string): string {
    if s == [] then tail else
      var (c, n) := DecodeChar(s);
      EscapeChar(c, Broken(s)) + EscapeTo(s[n..], tail)
  }

  /** The text of d, then tail. */
  function PrintTo(d: Doc, tail: string): string {
    match d
    case DNull => "null" + tail
    case DString(s) => "\"" + EscapeTo(s, "\"" + tail)
    case DBytes(b) => "\"" + (Base64.Encode(b) + ("\"" + tail))
    case DObject(members) =>
      if members.NoMembers? then "{}" + tail else "{" + PrintMembersTo(members, tail)
  }

  /** The members, the closing brace, then tail. */
  function PrintMembersTo(m: Members, tail: string): string
    requires m.Member?
  {
    "\"" + EscapeTo(m.key, "\":" + PrintTo(m.value,
      if m.tail.NoMembers? then "}" + tail else "," + PrintMembersTo(m.tail, tail)))
  }

  function Print(d: Doc): string {
    PrintTo(d, "")
  }

  // ----- Reading back what was written -----------------------------------------------------------

  /** What a written document says. */
  function Meaning(d: Doc): Value {
    match d
    case DNull => Null
    case DString(s) => String(Decode(s))
    case DBytes(b) => String(Base64.Encode(b))
    case DObject(members) => Object(MembersMeaning(members))
  }

  function MembersMeaning(m: Members): Fields {
    match m
    case NoMembers => NoFields
    case Member(key, value, tail) => Field(Decode(key), Meaning(value), MembersMeaning(tail))
  }

  function Depth(d: Doc): nat {
    if d.DObject? then 1 + MembersDepth(d.members) else 0
  }

  function MembersDepth(m: Members): nat {
    match m
    case NoMembers => 0
    case Member(_, value, tail) =>
      var a, b := Depth(value), MembersDepth(tail);
      if a < b then b else a
  }

  lemma HexOfDigit(n: nat)
    requires n < 16
    ensures HexValue(HexDigit(n)) == Some(n)
  {
  }

  lemma ReadStringAtEscape(s: string, c: char, n: nat, tail: string)
    requires s != "" && s[0] == '\\' && ReadEscape(s) == Some((c, n)) && s[n..] == tail
    ensures ReadString(s) == Prepend(c, ReadString(tail))
  {
  }

  /** The code unit of a six-character escape. */
  lemma CodeUnitOfEscape(c: char, broken: bool, s: string)
    requires broken ==> c == REPLACEMENT
    requires |EscapeChar(c, broken)| == 6 && EscapeChar(c, broken) <= s
    ensures CodeUnit(s) == Some(c as int)
  {
    var e := EscapeChar(c, broken);
    var n := c as int;
    assert forall i :: 0 <= i < 6 ==> s[i] == e[i];
    if !broken {
      HexOfDigit(n % 16);
      if n < 256 { HexOfDigit(n / 16); }
    }
  }

  lemma ReadEscapeOfUnit(s: string, c: char)
    requires s != "" && s[0] == '\\' && CodeUnit(s) == Some(c as int)
    ensures ReadEscape(s) == Some((c, 6))
  {
  }

  lemma EscapeCharIsOneCharacter(c: char, broken: bool, tail: string)
    requires broken ==> c == REPLACEMENT
    ensures ReadString(EscapeChar(c, broken) + tail) == Prepend(c, ReadString(tail))
  {
    var e := EscapeChar(c, broken);
    var s := e + tail;
    assert s[|e|..] == tail;
    assert s[0] == e[0];
    if |e| == 6 {
      CodeUnitOfEscape(c, broken, s);
      ReadEscapeOfUnit(s, c);
      ReadStringAtEscape(s, c, 6, tail);
    } else if |e| == 2 {
      assert s[1] == e[1];
      ReadStringAtEscape(s, c, 2, tail);
    }
  }

  /** Reading an escaped string gives its characters, with broken bytes replaced. */
  lemma {:induction false} ReadEscaped(s: Bytes, tail: string)
    ensures ReadString(EscapeTo(s, "\"" + tail)) == Some((Decode(s), tail))
  {
    if s == [] {
      assert ("\"" + tail)[1..] == tail;
    } else {
      var (c, n) := DecodeChar(s);
      ReadEscaped(s[n..], tail);
      EscapeCharIsOneCharacter(c, Broken(s), EscapeTo(s[n..], "\"" + tail));
    }
  }

  lemma {:induction false} ReadPlain(t: string, tail: string)
    requires forall i :: 0 <= i < |t| ==> Base64.IsPlain(t[i])
    ensures ReadString(t + ("\"" + tail)) == Some((t, tail))
  {
    var s := t + ("\"" + tail);
    if t == "" {
      assert s[1..] == tail;
    } else {
      assert Base64.IsPlain(t[0]) && s[0] == t[0];
      assert s[1..] == t[1..] + ("\"" + tail);
      ReadPlain(t[1..], tail);
      assert [t[0]] + t[1..] == t;
    }
  }

  lemma ParseString(body: string, depth: nat)
    requires ReadString(body).Some?
    ensures ParseValue("\"" + body, depth) == Some((String(ReadString(body).value.0), ReadString(body).value.1))
  {
    assert ("\"" + body)[1..] == body;
  }

  lemma ParseNull(tail: string, depth: nat)
    ensures ParseValue("null" + tail, depth) == Some((Null, tail))
  {
    var s := "null" + tail;
    assert "null" <= s && s[4..] == tail;
  }

  lemma ParseEmptyObject(tail: string, depth: nat)
    requires depth < MAX_DEPTH
    ensures ParseValue("{}" + tail, depth) == Some((Object(NoFields), tail))
  {
    var s := "{}" + tail;
    assert s[1..] == "}" + tail && s[1..][1..] == tail;
  }

  lemma ParseObject(body: string, depth: nat)
    requires depth < MAX_DEPTH && body != "" && body[0] == '"' && ParseFields(body, depth + 1).Some?
    ensures ParseValue("{" + body, depth) == Some((Object(ParseFields(body, depth + 1).value.0), ParseFields(body, depth + 1).value.1))
  {
    assert ("{" + body)[1..] == body;
    assert SkipSpace(body) == body;
  }

  lemma ParseLeafString(text: Bytes, tail: string, depth: nat)
    ensures ParseValue(PrintTo(DString(text), tail), depth) == Some((String(Decode(text)), tail))
  {
    ReadEscaped(text, tail);
    ParseString(EscapeTo(text, "\"" + tail), depth);
  }

  lemma ParseLeafBytes(b: Bytes, tail: string, depth: nat)
    ensures ParseValue(PrintTo(DBytes(b), tail), depth) == Some((String(Base64.Encode(b)), tail))
  {
    Base64.EncodePlain(b);
    ReadPlain(Base64.Encode(b), tail);
    ParseString(Base64.Encode(b) + ("\"" + tail), depth);
  }

  /** Parsing inverts printing, in front of any text. */
  lemma {:induction false} ParsePrint(d: Doc, tail: string, depth: nat)
    requires depth + Depth(d) <= MAX_DEPTH
    ensures ParseValue(PrintTo(d, tail), depth) == Some((Meaning(d), tail))
    decreases d
  {
    match d
    case DNull => ParseNull(tail, depth);
    case DString(text) => ParseLeafString(text, tail, depth);
    case DBytes(b) => ParseLeafBytes(b, tail, depth);
    case DObject(members) =>
      if members.NoMembers? {
        ParseEmptyObject(tail, depth);
      } else {
        ParsePrintObject(members, tail, depth);
      }
  }

  lemma ParsePrintObject(members: Members, tail: string, depth: nat)
    requires members.Member? && depth + Depth(DObject(members)) <= MAX_DEPTH
    ensures ParseValue(PrintTo(DObject(members), tail), depth) == Some((Meaning(DObject(members)), tail))
    decreases members, 1
  {
    hide ParseValue, ParseFields;
    ParsePrintMembers(members, tail, depth + 1);
    ParseObject(PrintMembersTo(members, tail), depth);
  }

  /** One member whose key and value read back, followed by the brace or by more members. */
  lemma ParseMember(s: string, depth: nat, key: string, value: Value, printed: string, after: string)
    requires s != "" && s[0] == '"' && ReadString(s[1..]) == Some((key, ":" + printed))
    requires ParseValue(printed, depth) == Some((value, after))
    requires after != "" && (after[0] == '}' || after[0] == ',')
    ensures SkipSpace(s) == s
    ensures after[0] == '}' ==> ParseFields(s, depth) == Some((Field(key, value, NoFields), after[1..]))
    ensures after[0] == ',' && ParseFields(after[1..], depth).Some? ==>
              ParseFields(s, depth) == Some((Field(key, value, ParseFields(after[1..], depth).value.0), ParseFields(after[1..], depth).value.1))
  {
    hide ReadString, ParseValue;
    assert (":" + printed)[1..] == printed;
  }

  lemma {:induction false} ParsePrintMembers(m: Members, tail: string, depth: nat)
    requires m.Member? && depth + MembersDepth(m) <= MAX_DEPTH
    ensures SkipSpace(PrintMembersTo(m, tail)) == PrintMembersTo(m, tail)
    ensures ParseFields(PrintMembersTo(m, tail), depth) == Some((MembersMeaning(m), tail))
    decreases m, 0
  {
    var s := PrintMembersTo(m, tail);
    var after := AfterMember(m, tail);
    var printed := PrintTo(m.value, after);
    PrintMembersStep(m, tail);
    ReadEscaped(m.key, ":" + printed);
    ParsePrint(m.value, after, depth);
    if m.tail.Member? {
      ParsePrintMembers(m.tail, tail, depth);
    }
    ParseMember(s, depth, Decode(m.key), Meaning(m.value), printed, after);
  }

  function AfterMember(m: Members, tail: string): string
    requires m.Member?
  {
    if m.tail.NoMembers? then "}" + tail else "," + PrintMembersTo(m.tail, tail)
  }

  lemma PrintMembersStep(m: Members, tail: string)
    requires m.Member?
    ensures var s, after := PrintMembersTo(m, tail), AfterMember(m, tail);
            && s == "\"" + EscapeTo(m.key, "\"" + (":" + PrintTo(m.value, after)))
            && s[0] == '"' && s[1..] == EscapeTo(m.key, "\"" + (":" + PrintTo(m.value, after)))
            && after[1..] == if m.tail.NoMembers? then tail else PrintMembersTo(m.tail, tail)
  {
    var printed := PrintTo(m.value, AfterMember(m, tail));
    assert "\":" + printed == "\"" + (":" + printed);
  }

  /** Both readers get the document back: alone, and at the front of any stream. */
  lemma ReadPrinted(d: Doc, tail: string)
    requires Depth(d) <= MAX_DEPTH
    ensures ParseWhole(Print(d)) == Some(Meaning(d))
    ensures ParseFirst(PrintTo(d, tail)) == Some(Meaning(d))
  {
    ParsePrint(d, "", 0);
    ParsePrint(d, tail, 0);
  }

  // ----- The text itself -------------------------------------------------------------------------

  predicate PlainName(t: string) {
    forall i :: 0 <= i < |t| ==> Base64.IsPlain(t[i])
  }

  lemma PlainFront(c: char, s: Bytes)
    requires Base64.IsPlain(c) && s != [] && s[0] as int == c as int
    ensures DecodeChar(s) == (c, 1) && EscapeChar(c, Broken(s)) == [c]
  {
  }

  lemma {:induction false} EscapePlain(t: string, tail: string)
    requires PlainName(t)
    ensures EscapeTo(Ascii(t), tail) == t + tail
  {
    hide DecodeChar, EscapeChar, Broken;
    if t == "" {
      assert t + tail == tail;
    } else {
      PlainFront(t[0], Ascii(t));
      assert Ascii(t)[1..] == Ascii(t[1..]);
      EscapePlain(t[1..], tail);
      assert t + tail == [t[0]] + (t[1..] + tail);
    }
  }

  /** A member is its name in quotes, a colon, its value, and what follows. */
  lemma MemberText(name: string, d: Doc, rest: Members, tail: string)
    requires PlainName(name)
    ensures PrintMembersTo(Member(Ascii(name), d, rest), tail)
         == "\"" + (name + ("\":" + PrintTo(d, if rest.NoMembers? then "}" + tail else "," + PrintMembersTo(rest, tail))))
  {
    EscapePlain(name, "\":" + PrintTo(d, if rest.NoMembers? then "}" + tail else "," + PrintMembersTo(rest, tail)));
  }

  lemma NextText(name: string, d: Doc, rest: Members, tail: string)
    requires PlainName(name)
    ensures "," + PrintMembersTo(Member(Ascii(name), d, rest), tail)
         == (",\"" + name + "\":") + PrintTo(d, if rest.NoMembers? then "}" + tail else "," + PrintMembersTo(rest, tail))
  {
    hide EscapeTo, PrintMembersTo, PrintTo;
    MemberText(name, d, rest, tail);
  }

  lemma FirstText(name: string, d: Doc, rest: Members, tail: string)
    requires PlainName(name) && rest.Member?
    ensures PrintTo(DObject(Member(Ascii(name), d, rest)), tail)
         == ("{\"" + name + "\":") + PrintTo(d, "," + PrintMembersTo(rest, tail))
  {
    hide EscapeTo, PrintMembersTo;
    MemberText(name, d, rest, tail);
  }

  lemma QuotedText(t: string, tail: string)
    requires PlainName(t)
    ensures PrintTo(DString(Ascii(t)), tail) == ("\"" + t + "\"") + tail
  {
    EscapePlain(t, "\"" + tail);
  }

  /** What encoding/json writes for a character: a backslash before quote and backslash, five short escapes, six
      characters for the other control characters, for <, > and &, and for the two line separators. */
  function Escaped(c: char): string {
    var n := c as int;
    if n == 0x22 then "\\\"" else if n == 0x5C then "\\\\"
    else if n == 0x08 then "\\b" else if n == 0x09 then "\\t" else if n == 0x0A then "\\n"
    else if n == 0x0C then "\\f" else if n == 0x0D then "\\r"
    else if n == 0x3C then "\\u003c" else if n == 0x3E then "\\u003e" else if n == 0x26 then "\\u0026"
    else if n == 0x2028 then "\\u2028" else if n == 0x2029 then "\\u2029"
    else if n < 0x10 then "\\u000" + ["0123456789abcdef"[n]]
    else if n < 0x20 then "\\u001" + ["0123456789abcdef"[n - 0x10]]
    else [c]
  }

  lemma HexDigitIs(n: nat)
    requires n < 16
    ensures HexDigit(n) == "0123456789abcdef"[n]
  {
  }

  lemma Zeros()
    ensures HexDigit(0) == '0' && HexDigit(1) == '1'
  {
  }

  /** The other characters that take six. */
  lemma SixCharacters()
    ensures HexDigit(2) == '2' && HexDigit(3) == '3' && HexDigit(6) == '6' && HexDigit(8) == '8' && HexDigit(9) == '9'
    ensures HexDigit(12) == 'c' && HexDigit(14) == 'e'
  {
  }

  lemma EscapeCharIs(c: char)
    ensures EscapeChar(c, false) == Escaped(c)
  {
    hide HexDigit;
    var n := c as int;
    if n < 0x20 {
      HexDigitIs(n % 16);
      HexDigitIs(n / 16);
      Zeros();
    } else {
      SixCharacters();
    }
  }

  /** A character at the front of a Go string is written that way, and a byte that starts none as an escape. */
  lemma EscapeFront(c: char, s: Bytes, tail: string)
    ensures EscapeTo(EncodeChar(c) + s, tail) == Escaped(c) + EscapeTo(s, tail)
    ensures s != [] && Broken(s) ==> EscapeTo(s, tail) == "\\ufffd" + EscapeTo(s[1..], tail)
  {
    hide EncodeChar, DecodeChar, EscapeChar, Escaped;
    DecodeCharOfEncode(c, s);
    assert (EncodeChar(c) + s)[|EncodeChar(c)|..] == s;
    EscapeCharIs(c);
    BrokenEscape();
  }

  lemma BrokenEscape()
    ensures EscapeChar(REPLACEMENT, true) == "\\ufffd"
  {
  }
}
