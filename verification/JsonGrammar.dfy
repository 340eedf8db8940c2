/** The grammar of JSON (RFC 8259) as syntax trees that keep every blank and every spelling, and the proof that the
    reader of module Json accepts exactly the texts of these trees, with the meaning of the tree. */
module JsonGrammar {
  import opened Wrappers
  import opened Decimal
  import opened Json

  /** Space, tab, line feed and carriage return (section 2). */
  predicate White(s: string) {
    forall i :: 0 <= i < |s| ==> s[i] as int == 0x20 || s[i] as int == 0x09 || s[i] as int == 0x0A || s[i] as int == 0x0D
  }

  // ----- Strings (section 7) -----------------------------------------------------------------------

  /** One piece of a string as it is written: a character, a two-character escape, or four hexadecimal digits. */
  datatype Part = Plain(c: char) | Short(mark: char) | Code(digits: string, unit: nat)

  /** The code point of a two-character escape. */
  function ShortCode(mark: char): Option<nat> {
    match mark
    case '"' => Some(0x22)
    case '\\' => Some(0x5C)
    case '/' => Some(0x2F)
    case 'b' => Some(0x08)
    case 'f' => Some(0x0C)
    case 'n' => Some(0x0A)
    case 'r' => Some(0x0D)
    case 't' => Some(0x09)
    case _ => None
  }

  predicate HexDigitOf(c: char, n: nat) {
    n < 16 && (c == "0123456789abcdef"[n] || c == "0123456789ABCDEF"[n])
  }

  predicate GoodPart(p: Part) {
    match p
    case Plain(c) => c as int >= 0x20 && c as int != 0x22 && c as int != 0x5C
    case Short(mark) => ShortCode(mark).Some?
    case Code(h, n) => |h| == 4 && n < 0x10000 && HexDigitOf(h[0], n / 4096) && HexDigitOf(h[1], n / 256 % 16)
                       && HexDigitOf(h[2], n / 16 % 16) && HexDigitOf(h[3], n % 16)
  }

  predicate GoodParts(ps: seq<Part>) {
    forall i :: 0 <= i < |ps| ==> GoodPart(ps[i])
  }

  function PartText(p: Part): string {
    match p
    case Plain(c) => [c]
    case Short(mark) => ['\\', mark]
    case Code(h, _) => "\\u" + h
  }

  /** The parts, then the rest. */
  function PartsTo(ps: seq<Part>, rest: string): string {
    if ps == [] then rest else PartText(ps[0]) + PartsTo(ps[1..], rest)
  }

  /** Two code units that make one character. */
  predicate Pair(ps: seq<Part>) {
    |ps| >= 2 && ps[0].Code? && ps[1].Code? && 0xD800 <= ps[0].unit <= 0xDBFF && 0xDC00 <= ps[1].unit <= 0xDFFF
  }

  /** The characters that parts stand for; half of a pair is read as U+FFFD. */
  function Spelled(ps: seq<Part>): string
    requires GoodParts(ps)
  {
    if ps == [] then ""
    else if Pair(ps) then
      [(0x10000 + (ps[0].unit - 0xD800) * 0x400 + (ps[1].unit - 0xDC00)) as char] + Spelled(ps[2..])
    else
      assert GoodPart(ps[0]);
      var c := match ps[0]
               case Plain(c) => c
               case Short(mark) => ShortCode(mark).value as char
               case Code(_, n) => if 0xD800 <= n <= 0xDFFF then 0xFFFD as char else n as char;
      [c] + Spelled(ps[1..])
  }

  // ----- Values ------------------------------------------------------------------------------------

  datatype Tree =
    | TNull
    | TBool(b: bool)
    | TNumber(sign: string, whole: string, frac: string, exp: string)
    | TString(parts: seq<Part>)
    | TArray(gap: string, items: Trees)
    | TObject(gap: string, members: TreeMembers)

  datatype Trees = NoTrees | OneTree(before: string, value: Tree, after: string, tail: Trees)

  datatype TreeMembers =
    | NoMember
    | OneMember(before: string, name: seq<Part>, colon: string, between: string, value: Tree, after: string, tail: TreeMembers)

  /** Section 6: a minus or nothing, digits that start with a zero only if it is alone, a fraction and an exponent. */
  predicate GoodNumber(sign: string, whole: string, frac: string, exp: string) {
    && (sign == "" || sign == "-")
    && whole != "" && Digits(whole) && (whole[0] == '0' ==> |whole| == 1)
    && (frac == "" || (|frac| >= 2 && frac[0] == '.' && Digits(frac[1..])))
    && (exp == "" || GoodExponent(exp))
  }

  predicate GoodExponent(exp: string) {
    && |exp| >= 2 && (exp[0] == 'e' || exp[0] == 'E')
    && var digits := if exp[1] == '+' || exp[1] == '-' then exp[2..] else exp[1..]; digits != "" && Digits(digits)
  }

  predicate Good(t: Tree) {
    match t
    case TNull => true
    case TBool(_) => true
    case TNumber(sign, whole, frac, exp) => GoodNumber(sign, whole, frac, exp)
    case TString(parts) => GoodParts(parts)
    case TArray(gap, items) => White(gap) && GoodTrees(items)
    case TObject(gap, members) => White(gap) && GoodMembers(members)
  }

  predicate GoodTrees(items: Trees) {
    match items
    case NoTrees => true
    case OneTree(before, value, after, tail) => White(before) && Good(value) && White(after) && GoodTrees(tail)
  }

  predicate GoodMembers(members: TreeMembers) {
    match members
    case NoMember => true
    case OneMember(before, name, colon, between, value, after, tail) =>
      White(before) && GoodParts(name) && White(colon) && White(between) && Good(value) && White(after) && GoodMembers(tail)
  }

  /** The text of a tree, then the rest. */
  function TextTo(t: Tree, rest: string): string {
    match t
    case TNull => "null" + rest
    case TBool(b) => (if b then "true" else "false") + rest
    case TNumber(sign, whole, frac, exp) => sign + (whole + (frac + (exp + rest)))
    case TString(parts) => "\"" + PartsTo(parts, "\"" + rest)
    case TArray(gap, items) => "[" + (if items.NoTrees? then gap + ("]" + rest) else ItemsTo(items, rest))
    case TObject(gap, members) => "{" + (if members.NoMember? then gap + ("}" + rest) else MembersTo(members, rest))
  }

  /** Items with commas between them, the bracket, then the rest. */
  function ItemsTo(items: Trees, rest: string): string
    requires items.OneTree?
  {
    items.before + TextTo(items.value, items.after + (if items.tail.NoTrees? then "]" + rest else "," + ItemsTo(items.tail, rest)))
  }

  /** Members with commas between them, the brace, then the rest. */
  function MembersTo(m: TreeMembers, rest: string): string
    requires m.OneMember?
  {
    m.before + ("\"" + PartsTo(m.name, "\"" + (m.colon + (":" + (m.between +
      TextTo(m.value, m.after + (if m.tail.NoMember? then "}" + rest else "," + MembersTo(m.tail, rest))))))))
  }

  /** What a tree says: its values and names without their spelling. */
  function Denoted(t: Tree): Value
    requires Good(t)
  {
    match t
    case TNull => Null
    case TBool(b) => Bool(b)
    case TNumber(sign, whole, frac, exp) => Number(sign + whole + frac + exp)
    case TString(parts) => String(Spelled(parts))
    case TArray(_, items) => Array(ItemsDenoted(items))
    case TObject(_, members) => Object(MembersDenoted(members))
  }

  function ItemsDenoted(items: Trees): Items
    requires GoodTrees(items)
  {
    match items
    case NoTrees => NoItems
    case OneTree(_, value, _, tail) => Item(Denoted(value), ItemsDenoted(tail))
  }

  function MembersDenoted(m: TreeMembers): Fields
    requires GoodMembers(m)
  {
    match m
    case NoMember => NoFields
    case OneMember(_, name, _, _, value, _, tail) => Field(Spelled(name), Denoted(value), MembersDenoted(tail))
  }

  /** How deep arrays and objects are nested. */
  function Height(t: Tree): nat {
    if t.TArray? then 1 + ItemsHeight(t.items) else if t.TObject? then 1 + MembersHeight(t.members) else 0
  }

  function ItemsHeight(items: Trees): nat {
    match items
    case NoTrees => 0
    case OneTree(_, value, _, tail) => Max(Height(value), ItemsHeight(tail))
  }

  function MembersHeight(m: TreeMembers): nat {
    match m
    case NoMember => 0
    case OneMember(_, _, _, _, value, _, tail) => Max(Height(value), MembersHeight(tail))
  }

  function Max(a: nat, b: nat): nat {
    if a < b then b else a
  }

  // ----- Blanks ------------------------------------------------------------------------------------

  /** x starts with a token. */
  predicate Starts(x: string) {
    x != "" && !IsSpace(x[0])
  }

  lemma SpaceCodes(c: char)
    ensures IsSpace(c) <==> c as int == 0x20 || c as int == 0x09 || c as int == 0x0A || c as int == 0x0D
  {
  }

  lemma {:induction false} SkipWhite(lead: string, x: string)
    requires White(lead) && (x == "" || !IsSpace(x[0]))
    ensures SkipSpace(lead + x) == x
  {
    if lead == "" {
      assert lead + x == x;
    } else {
      assert (lead + x)[1..] == lead[1..] + x;
      SpaceCodes(lead[0]);
      SkipWhite(lead[1..], x);
    }
  }

  lemma {:induction false} SkippedParts(s: string) returns (lead: string)
    ensures White(lead) && s == lead + SkipSpace(s) && (SkipSpace(s) == "" || Starts(SkipSpace(s)))
  {
    if s != "" && IsSpace(s[0]) {
      SpaceCodes(s[0]);
      var l := SkippedParts(s[1..]);
      lead := [s[0]] + l;
    } else {
      lead := "";
    }
  }

  lemma ValueAfterBlanks(lead: string, x: string, depth: nat)
    requires White(lead) && Starts(x)
    ensures ParseValue(lead + x, depth) == ParseValue(x, depth)
  {
    SkipWhite(lead, x);
    SkipWhite("", x);
    assert "" + x == x;
  }

  // ----- Reading strings ---------------------------------------------------------------------------

  lemma HexValueIff(c: char, n: nat)
    ensures HexValue(c) == Some(n) <==> HexDigitOf(c, n)
  {
    if n < 16 {
      assert "0123456789abcdef"[n] == if n < 10 then ('0' as int + n) as char else ('a' as int + n - 10) as char;
      assert "0123456789ABCDEF"[n] == if n < 10 then ('0' as int + n) as char else ('A' as int + n - 10) as char;
    }
  }

  lemma HexDigits(a: nat, b: nat, c: nat, d: nat)
    requires a < 16 && b < 16 && c < 16 && d < 16
    ensures var n := a * 4096 + b * 256 + c * 16 + d;
            n < 0x10000 && n / 4096 == a && n / 256 % 16 == b && n / 16 % 16 == c && n % 16 == d
  {
    var n := a * 4096 + b * 256 + c * 16 + d;
    assert n / 16 == a * 256 + b * 16 + c;
    assert n / 256 == a * 16 + b;
  }

  lemma HexNumber(n: nat)
    requires n < 0x10000
    ensures n / 4096 < 16 && n / 4096 * 4096 + n / 256 % 16 * 256 + n / 16 % 16 * 16 + n % 16 == n
  {
    assert n / 256 == n / 16 / 16 && n / 4096 == n / 256 / 16;
  }

  /** The six characters of a code unit, and no other. */
  lemma CodeUnitOf(p: Part, rest: string)
    requires p.Code? && GoodPart(p)
    ensures CodeUnit(PartText(p) + rest) == Some(p.unit)
  {
    hide HexValue, HexDigitOf;
    var s, h, n := PartText(p) + rest, p.digits, p.unit;
    assert s[0] == '\\' && s[1] == 'u' && s[2] == h[0] && s[3] == h[1] && s[4] == h[2] && s[5] == h[3];
    HexNumber(n);
    HexValueIff(h[0], n / 4096);
    HexValueIff(h[1], n / 256 % 16);
    HexValueIff(h[2], n / 16 % 16);
    HexValueIff(h[3], n % 16);
  }

  lemma CodePart(s: string) returns (p: Part)
    requires CodeUnit(s).Some?
    ensures p.Code? && GoodPart(p) && p.unit == CodeUnit(s).value && |s| >= 6 && s == PartText(p) + s[6..]
  {
    hide HexValue, HexDigitOf;
    var a, b, c, d := HexValue(s[2]).value, HexValue(s[3]).value, HexValue(s[4]).value, HexValue(s[5]).value;
    p := Code(s[2..6], CodeUnit(s).value);
    HexDigits(a, b, c, d);
    HexValueIff(s[2], a);
    HexValueIff(s[3], b);
    HexValueIff(s[4], c);
    HexValueIff(s[5], d);
    assert s == "\\u" + s[2..6] + s[6..];
  }

  lemma ShortIs(mark: char, s: string)
    requires |s| >= 2 && s[0] == '\\' && s[1] == mark
    ensures ShortCode(mark).Some? ==> ReadEscape(s) == Some((ShortCode(mark).value as char, 2))
    ensures ReadEscape(s).Some? && ReadEscape(s).value.1 == 2 ==> ShortCode(mark).Some?
  {
  }

  /** Where no code unit is written, none is read. */
  lemma CodeUnitOfParts(ps: seq<Part>, rest: string)
    requires GoodParts(ps)
    ensures CodeUnit(PartsTo(ps, "\"" + rest)) == if ps != [] && ps[0].Code? then Some(ps[0].unit) else None
  {
    if ps != [] {
      assert GoodPart(ps[0]);
      if ps[0].Code? {
        CodeUnitOf(ps[0], PartsTo(ps[1..], "\"" + rest));
      }
    }
  }

  /** Reading goes part by part. */
  lemma ReadOnePart(ps: seq<Part>, rest: string, s: string)
    requires ps != [] && GoodParts(ps) && !Pair(ps) && s == PartsTo(ps, "\"" + rest)
    ensures GoodParts(ps[1..]) && ReadString(s) == Prepend(Spelled(ps)[0], ReadString(PartsTo(ps[1..], "\"" + rest)))
  {
    hide CodeUnit, HexDigitOf, ReadString, ReadEscape;
    var p, tail := ps[0], PartsTo(ps[1..], "\"" + rest);
    assert GoodPart(p) && s == PartText(p) + tail && s[|PartText(p)|..] == tail && s[0] == PartText(p)[0];
    if p.Short? {
      assert s[1] == p.mark;
      EscapedShort(s, p.mark);
    } else if p.Code? {
      CodeUnitOf(p, tail);
      CodeUnitOfParts(ps[1..], rest);
      EscapedUnit(s, tail, p.unit);
    } else {
      Unescaped(s);
    }
  }

  lemma Unescaped(s: string)
    requires s != "" && s[0] as int >= 0x20 && s[0] != '"' && s[0] != '\\'
    ensures ReadString(s) == Prepend(s[0], ReadString(s[1..]))
  {
  }

  lemma EscapedShort(s: string, mark: char)
    requires |s| >= 2 && s[0] == '\\' && s[1] == mark && ShortCode(mark).Some?
    ensures ReadString(s) == Prepend(ShortCode(mark).value as char, ReadString(s[2..]))
  {
    hide ReadEscape, ShortCode;
    ShortIs(mark, s);
  }

  lemma EscapedUnit(s: string, tail: string, u: nat)
    requires |s| >= 6 && s[0] == '\\' && s[1] == 'u' && s[6..] == tail && CodeUnit(s) == Some(u) && u < 0x10000
    requires 0xD800 <= u <= 0xDBFF ==> !LowUnit(tail)
    ensures ReadString(s) == Prepend(if 0xD800 <= u <= 0xDFFF then 0xFFFD as char else u as char, ReadString(tail))
  {
    hide CodeUnit;
  }

  lemma ReadPair(ps: seq<Part>, rest: string, s: string)
    requires GoodParts(ps) && Pair(ps) && s == PartsTo(ps, "\"" + rest)
    ensures GoodParts(ps[2..]) && ReadString(s) == Prepend(Spelled(ps)[0], ReadString(PartsTo(ps[2..], "\"" + rest)))
  {
    hide CodeUnit, HexDigitOf, ReadString, ReadEscape;
    var tail, last := PartsTo(ps[1..], "\"" + rest), PartsTo(ps[2..], "\"" + rest);
    assert GoodPart(ps[0]) && GoodPart(ps[1]) && ps[1..][1..] == ps[2..];
    assert s == PartText(ps[0]) + tail && tail == PartText(ps[1]) + last;
    CodeUnitOf(ps[0], tail);
    CodeUnitOf(ps[1], last);
    EscapedPair(s, tail, last, ps[0].unit, ps[1].unit);
  }

  lemma EscapedPair(s: string, tail: string, last: string, u: nat, l: nat)
    requires |s| >= 12 && s[0] == '\\' && s[1] == 'u' && s[6..] == tail && tail[6..] == last
    requires CodeUnit(s) == Some(u) && CodeUnit(tail) == Some(l) && 0xD800 <= u <= 0xDBFF && 0xDC00 <= l <= 0xDFFF
    ensures ReadString(s) == Prepend((0x10000 + (u - 0xD800) * 0x400 + (l - 0xDC00)) as char, ReadString(last))
  {
    hide CodeUnit;
    assert s[12..] == last;
  }

  /** A written string is read as what its parts spell. */
  lemma {:induction false} ReadParts(ps: seq<Part>, rest: string)
    requires GoodParts(ps)
    ensures ReadString(PartsTo(ps, "\"" + rest)) == Some((Spelled(ps), rest))
    decreases |ps|
  {
    hide ReadString;
    var s := PartsTo(ps, "\"" + rest);
    if ps == [] {
      ReadEnd(rest);
    } else if Pair(ps) {
      ReadPair(ps, rest, s);
      ReadParts(ps[2..], rest);
    } else {
      ReadOnePart(ps, rest, s);
      ReadParts(ps[1..], rest);
    }
  }

  lemma ReadEnd(rest: string)
    ensures ReadString("\"" + rest) == Some(("", rest))
  {
    assert ("\"" + rest)[1..] == rest;
  }

  /** Whatever is read as a string was written in parts. */
  lemma {:induction false} PartsOf(s: string) returns (ps: seq<Part>)
    requires ReadString(s).Some?
    ensures GoodParts(ps) && s == PartsTo(ps, "\"" + ReadString(s).value.1) && Spelled(ps) == ReadString(s).value.0
    decreases |s|
  {
    if s[0] == '"' {
      ps := [];
      assert s == "\"" + s[1..];
    } else {
      var n := if s[0] == '\\' then ReadEscape(s).value.1 else 1;
      var tail := PartsOf(s[n..]);
      var front := FrontParts(s);
      ps := front + tail;
      Joined(s, front, tail, ReadString(s[n..]).value.1);
    }
  }

  /** The part at the front of s, or the pair. */
  lemma FrontParts(s: string) returns (front: seq<Part>)
    requires ReadString(s).Some? && s[0] != '"'
    ensures var (c, n) := if s[0] == '\\' then ReadEscape(s).value else (s[0], 1);
            && GoodParts(front) && (|front| == 1 || (|front| == 2 && Pair(front)))
            && s == PartsTo(front, s[n..]) && Spelled(front) == [c]
            && (|front| == 1 && front[0].Code? ==> n == 6 && !(0xD800 <= front[0].unit <= 0xDBFF && LowUnit(s[6..])))
  {
    hide HexDigitOf, CodeUnit;
    if s[0] != '\\' {
      front := [Plain(s[0])];
      assert s == [s[0]] + s[1..];
    } else if ReadEscape(s).value.1 == 2 {
      front := [Short(s[1])];
      ShortIs(s[1], s);
      assert s == [s[0], s[1]] + s[2..];
    } else {
      var p := CodePart(s);
      if ReadEscape(s).value.1 == 12 {
        var q := CodePart(s[6..]);
        front := [p, q];
        assert s[6..][6..] == s[12..];
        TwoParts(p, q, s[12..]);
      } else {
        front := [p];
      }
    }
  }

  predicate LowUnit(s: string) {
    CodeUnit(s).Some? && 0xDC00 <= CodeUnit(s).value <= 0xDFFF
  }

  lemma TwoParts(p: Part, q: Part, rest: string)
    ensures PartsTo([p, q], rest) == PartText(p) + (PartText(q) + rest)
  {
    assert [p, q][1..] == [q] && [q][1..] == [];
    assert PartsTo([q], rest) == PartText(q) + PartsTo([], rest);
  }

  lemma Joined(s: string, front: seq<Part>, tail: seq<Part>, rest: string)
    requires GoodParts(front) && GoodParts(tail) && (|front| == 1 || (|front| == 2 && Pair(front)))
    requires s == PartsTo(front, PartsTo(tail, "\"" + rest))
    requires |front| == 1 && front[0].Code? && 0xD800 <= front[0].unit <= 0xDBFF ==> !LowUnit(PartsTo(tail, "\"" + rest))
    ensures GoodParts(front + tail) && s == PartsTo(front + tail, "\"" + rest) && Spelled(front + tail) == Spelled(front) + Spelled(tail)
  {
    hide CodeUnit, GoodPart, PartsTo, Spelled, PartText;
    CodeUnitOfParts(tail, rest);
    if |front| == 1 {
      assert front == [front[0]];
      JoinOne(front[0], tail, "\"" + rest);
    } else {
      assert front == [front[0], front[1]];
      JoinTwo(front[0], front[1], tail, "\"" + rest);
    }
  }

  lemma JoinOne(p: Part, tail: seq<Part>, rest: string)
    requires GoodPart(p) && GoodParts(tail) && !Pair([p] + tail)
    ensures GoodParts([p] + tail) && PartsTo([p], PartsTo(tail, rest)) == PartsTo([p] + tail, rest)
    ensures Spelled([p] + tail) == Spelled([p]) + Spelled(tail)
  {
    hide GoodPart;
    assert ([p] + tail)[1..] == tail && [p][1..] == [];
  }

  lemma JoinTwo(p: Part, q: Part, tail: seq<Part>, rest: string)
    requires GoodPart(p) && GoodPart(q) && GoodParts(tail) && Pair([p, q])
    ensures GoodParts([p, q] + tail) && PartsTo([p, q], PartsTo(tail, rest)) == PartsTo([p, q] + tail, rest)
    ensures Spelled([p, q] + tail) == Spelled([p, q]) + Spelled(tail)
  {
    hide GoodPart, PartsTo, Spelled;
    TwoParts(p, q, PartsTo(tail, rest));
    TwoMore(p, q, tail, rest);
    PairSpelled([p, q] + tail);
    PairSpelled([p, q]);
    assert ([p, q] + tail)[2..] == tail && [p, q][2..] == [];
    NothingSpelled();
  }

  lemma NothingSpelled()
    ensures Spelled([]) == ""
  {
  }

  lemma PairSpelled(ps: seq<Part>)
    requires GoodParts(ps) && Pair(ps)
    ensures GoodPart(ps[0]) && GoodPart(ps[1])
    ensures Spelled(ps) == [(0x10000 + (ps[0].unit - 0xD800) * 0x400 + (ps[1].unit - 0xDC00)) as char] + Spelled(ps[2..])
  {
  }

  lemma TwoMore(p: Part, q: Part, tail: seq<Part>, rest: string)
    ensures PartsTo([p, q] + tail, rest) == PartText(p) + (PartText(q) + PartsTo(tail, rest))
  {
    hide PartText;
    assert ([p, q] + tail)[1..] == [q] + tail && ([q] + tail)[1..] == tail;
    assert PartsTo([q] + tail, rest) == PartText(q) + PartsTo(tail, rest);
  }

  // ----- Reading numbers ---------------------------------------------------------------------------

  /** What may follow a number without changing it. */
  predicate EndsNumber(rest: string) {
    rest == "" || (!IsDigit(rest[0]) && rest[0] != '.' && rest[0] != 'e' && rest[0] != 'E')
  }

  // The stages of NumberLength: sign, digits, fraction and exponent end at i0, i1, i2 and n.

  predicate WholeAt(s: string, i0: nat, i1: nat) {
    i0 < i1 <= |s| && IsDigit(s[i0]) && i1 == (if s[i0] == '0' then i0 + 1 else i0 + CountDigits(s[i0..]))
  }

  predicate FractionAt(s: string, i1: nat, i2: nat) {
    i1 <= i2 <= |s| && if i1 < |s| && s[i1] == '.' then i2 > i1 + 1 && i2 == i1 + 1 + CountDigits(s[i1 + 1..]) else i2 == i1
  }

  predicate ExponentAt(s: string, i2: nat, n: nat) {
    i2 <= n <= |s| &&
    if i2 < |s| && (s[i2] == 'e' || s[i2] == 'E') then
      var j := if i2 + 1 < |s| && (s[i2 + 1] == '+' || s[i2 + 1] == '-') then i2 + 2 else i2 + 1;
      j < n == j + CountDigits(s[j..])
    else n == i2
  }

  lemma StagedLength(s: string, i0: nat, i1: nat, i2: nat, n: nat)
    requires s != "" && i0 == (if s[0] == '-' then 1 else 0) && WholeAt(s, i0, i1) && FractionAt(s, i1, i2) && ExponentAt(s, i2, n)
    ensures NumberLength(s) == Some(n)
  {
    hide CountDigits;
    var f := if i1 < |s| && s[i1] == '.' then 1 + CountDigits(s[i1 + 1..]) else 0;
    assert i1 + f == i2 && f != 1;
  }

  lemma LengthStaged(s: string) returns (i0: nat, i1: nat, i2: nat)
    requires NumberLength(s).Some?
    ensures s != "" && i0 == if s[0] == '-' then 1 else 0
    ensures WholeAt(s, i0, i1) && FractionAt(s, i1, i2) && ExponentAt(s, i2, NumberLength(s).value)
  {
    hide CountDigits;
    i0 := if s[0] == '-' then 1 else 0;
    i1 := if s[i0] == '0' then i0 + 1 else i0 + CountDigits(s[i0..]);
    i2 := if i1 < |s| && s[i1] == '.' then i1 + 1 + CountDigits(s[i1 + 1..]) else i1;
    CountsOne(s[i0..]);
  }

  lemma CountsOne(s: string)
    ensures s != "" && IsDigit(s[0]) ==> CountDigits(s) > 0
  {
  }

  lemma ReadNumber(sign: string, whole: string, frac: string, exp: string, rest: string)
    requires GoodNumber(sign, whole, frac, exp) && EndsNumber(rest)
    ensures NumberLength(sign + (whole + (frac + (exp + rest)))) == Some(|sign| + |whole| + |frac| + |exp|)
  {
    hide NumberLength, GoodExponent, WholeAt, FractionAt, ExponentAt;
    var tail := whole + (frac + (exp + rest));
    var s := sign + tail;
    assert s[|sign|..] == tail && tail[0] == whole[0];
    ReadWhole(s, |sign|, whole, frac, exp, rest);
    assert IsDigit(whole[0]);
    StagedLength(s, |sign|, |sign| + |whole|, |sign| + |whole| + |frac|, |sign| + |whole| + |frac| + |exp|);
  }

  lemma ReadWhole(s: string, i: nat, whole: string, frac: string, exp: string, rest: string)
    requires i <= |s| && s[i..] == whole + (frac + (exp + rest)) && GoodNumber("", whole, frac, exp) && EndsNumber(rest)
    ensures WholeAt(s, i, i + |whole|) && FractionAt(s, i + |whole|, i + |whole| + |frac|)
    ensures ExponentAt(s, i + |whole| + |frac|, i + |whole| + |frac| + |exp|)
  {
    hide GoodExponent, FractionAt, ExponentAt, CountDigits;
    var tail := frac + (exp + rest);
    assert s[i + |whole|..] == tail;
    ReadFraction(s, i + |whole|, frac, exp, rest);
    TailStarts(frac, exp, rest);
    CountDigitsAt(whole, tail);
    assert s[i] == whole[0];
  }

  lemma TailStarts(frac: string, exp: string, rest: string)
    requires GoodNumber("", "0", frac, exp) && EndsNumber(rest)
    ensures var t2 := exp + rest; t2 == "" || (!IsDigit(t2[0]) && t2[0] != '.')
    ensures var t1 := frac + (exp + rest); t1 == "" || !IsDigit(t1[0])
  {
  }

  lemma ReadFraction(s: string, i: nat, frac: string, exp: string, rest: string)
    requires i <= |s| && s[i..] == frac + (exp + rest) && GoodNumber("", "0", frac, exp) && EndsNumber(rest)
    ensures FractionAt(s, i, i + |frac|) && ExponentAt(s, i + |frac|, i + |frac| + |exp|)
  {
    hide GoodExponent, ExponentAt, CountDigits;
    var tail := exp + rest;
    assert s[i + |frac|..] == tail;
    ReadExponent(s, i + |frac|, exp, rest);
    TailStarts(frac, exp, rest);
    assert i < |s| ==> s[i] == s[i..][0];
    if frac != "" {
      Deeper(s, i, frac, tail, 1);
      CountDigitsAt(frac[1..], tail);
    }
  }

  lemma Deeper(s: string, i: nat, a: string, b: string, k: nat)
    requires i <= |s| && s[i..] == a + b && k <= |a|
    ensures i + k <= |s| && s[i + k..] == a[k..] + b
  {
    assert s[i..][k..] == s[i + k..];
  }

  lemma ReadExponent(s: string, i: nat, exp: string, rest: string)
    requires i <= |s| && s[i..] == exp + rest && (exp == "" || GoodExponent(exp)) && EndsNumber(rest)
    ensures ExponentAt(s, i, i + |exp|)
  {
    hide CountDigits;
    assert i < |s| ==> s[i] == s[i..][0];
    if exp != "" {
      assert s[i + 1] == s[i..][1] == exp[1];
      var j := if s[i + 1] == '+' || s[i + 1] == '-' then i + 2 else i + 1;
      Deeper(s, i, exp, rest, j - i);
      CountDigitsAt(exp[j - i..], rest);
    }
  }

  /** Whatever is read as a number has the shape of one. */
  lemma NumberOf(s: string) returns (sign: string, whole: string, frac: string, exp: string)
    requires NumberLength(s).Some?
    ensures var n := NumberLength(s).value;
            GoodNumber(sign, whole, frac, exp) && s[..n] == sign + whole + frac + exp && s == sign + (whole + (frac + (exp + s[n..])))
  {
    hide CountDigits, Digits, GoodExponent, WholeAt, FractionAt, ExponentAt;
    var n := NumberLength(s).value;
    var i0, i1, i2 := LengthStaged(s);
    WholeSlice(s, i0, i1);
    FractionSlice(s, i1, i2);
    ExponentSlice(s, i2, n);
    sign, whole, frac, exp := s[..i0], s[i0..i1], s[i1..i2], s[i2..n];
    Slices(s, i0, i1, i2, n);
  }

  lemma Slices(s: string, i0: nat, i1: nat, i2: nat, n: nat)
    requires i0 <= i1 <= i2 <= n <= |s|
    ensures s[..n] == s[..i0] + s[i0..i1] + s[i1..i2] + s[i2..n]
    ensures s == s[..i0] + (s[i0..i1] + (s[i1..i2] + (s[i2..n] + s[n..])))
  {
  }

  lemma WholeSlice(s: string, i0: nat, i1: nat)
    requires WholeAt(s, i0, i1)
    ensures i0 < i1 <= |s| && Digits(s[i0..i1]) && (s[i0] == '0' ==> i1 == i0 + 1)
  {
    CountedDigits(s[i0..]);
    assert s[i0..i1] == s[i0..][..i1 - i0];
  }

  lemma FractionSlice(s: string, i1: nat, i2: nat)
    requires FractionAt(s, i1, i2)
    ensures i1 <= i2 <= |s| && (i1 == i2 || (i2 >= i1 + 2 && s[i1] == '.' && Digits(s[i1..i2][1..])))
  {
    if i1 < i2 {
      CountedDigits(s[i1 + 1..]);
      assert s[i1..i2][1..] == s[i1 + 1..][..i2 - i1 - 1];
    }
  }

  lemma ExponentSlice(s: string, i2: nat, n: nat)
    requires ExponentAt(s, i2, n)
    ensures i2 <= n <= |s| && (i2 == n || GoodExponent(s[i2..n]))
  {
    if i2 < n {
      var exp := s[i2..n];
      var j := if i2 + 1 < |s| && (s[i2 + 1] == '+' || s[i2 + 1] == '-') then i2 + 2 else i2 + 1;
      CountedDigits(s[j..]);
      assert exp[j - i2..] == s[j..][..n - j];
      assert exp[1] == s[i2 + 1];
    }
  }

  // ----- Every text of a tree is read --------------------------------------------------------------

  lemma TextStarts(t: Tree, rest: string)
    requires Good(t)
    ensures var x := TextTo(t, rest); Starts(x) && x[0] != ']' && x[0] != '}'
  {
    if t.TNumber? {
      var x := TextTo(t, rest);
      assert IsDigit(t.whole[0]) && x[0] == if t.sign == "" then t.whole[0] else t.sign[0];
    }
  }

  lemma ParseNumberTree(t: Tree, rest: string, depth: nat)
    requires t.TNumber? && Good(t) && EndsNumber(rest)
    ensures ParseValue(TextTo(t, rest), depth) == Some((Denoted(t), rest))
  {
    hide NumberLength, GoodExponent;
    var x := TextTo(t, rest);
    ReadNumber(t.sign, t.whole, t.frac, t.exp, rest);
    var n := |t.sign| + |t.whole| + |t.frac| + |t.exp|;
    NumberPieces(t.sign, t.whole, t.frac, t.exp, rest);
    assert IsDigit(t.whole[0]) && x[0] == if t.sign == "" then t.whole[0] else t.sign[0];
    NumberFront(x, n, depth);
  }

  lemma NumberFront(x: string, n: nat, depth: nat)
    requires x != "" && (IsDigit(x[0]) || x[0] == '-') && NumberLength(x) == Some(n)
    ensures ParseValue(x, depth) == Some((Number(x[..n]), x[n..]))
  {
    hide NumberLength;
  }

  lemma NumberPieces(sign: string, whole: string, frac: string, exp: string, rest: string)
    ensures var x, n := sign + (whole + (frac + (exp + rest))), |sign| + |whole| + |frac| + |exp|;
            n <= |x| && x[..n] == sign + whole + frac + exp && x[n..] == rest
  {
  }

  lemma WordFront(word: string, rest: string, depth: nat)
    requires word == "null" || word == "true" || word == "false"
    ensures ParseValue(word + rest, depth) == Some((if word == "null" then Null else Bool(word == "true"), rest))
  {
    var s := word + rest;
    assert word <= s && s[|word|..] == rest && s[0] == word[0];
  }

  lemma StringFront(body: string, depth: nat)
    requires ReadString(body).Some?
    ensures ParseValue("\"" + body, depth) == Some((String(ReadString(body).value.0), ReadString(body).value.1))
  {
    ParseString(body, depth);
  }

  lemma ArrayFront(y: string, depth: nat)
    requires depth < 10000 && SkipSpace(y) != ""
    ensures var u := SkipSpace(y);
            ParseValue("[" + y, depth) ==
              if u[0] == ']' then Some((Array(NoItems), u[1..]))
              else match ParseItems(u, depth + 1) case None => None case Some((items, rest)) => Some((Array(items), rest))
  {
    hide ParseItems;
    assert ("[" + y)[1..] == y;
  }

  lemma ObjectFront(y: string, depth: nat)
    requires depth < 10000 && SkipSpace(y) != ""
    ensures var u := SkipSpace(y);
            ParseValue("{" + y, depth) ==
              if u[0] == '}' then Some((Object(NoFields), u[1..]))
              else match ParseFields(u, depth + 1) case None => None case Some((fields, rest)) => Some((Object(fields), rest))
  {
    hide ParseFields;
    assert ("{" + y)[1..] == y;
  }

  function AfterItem(items: Trees, rest: string): string
    requires items.OneTree?
  {
    if items.tail.NoTrees? then "]" + rest else "," + ItemsTo(items.tail, rest)
  }

  function AfterValue(m: TreeMembers, rest: string): string
    requires m.OneMember?
  {
    if m.tail.NoMember? then "}" + rest else "," + MembersTo(m.tail, rest)
  }

  lemma {:induction false} ParseTree(t: Tree, rest: string, depth: nat)
    requires Good(t) && depth + Height(t) <= 10000 && (t.TNumber? ==> EndsNumber(rest))
    ensures ParseValue(TextTo(t, rest), depth) == Some((Denoted(t), rest))
    decreases t
  {
    hide ParseValue, ParseItems, ParseFields, SkipSpace, IsSpace;
    match t
    case TNull => WordFront("null", rest, depth);
    case TBool(b) => WordFront(if b then "true" else "false", rest, depth);
    case TNumber(_, _, _, _) => ParseNumberTree(t, rest, depth);
    case TString(parts) =>
      ReadParts(parts, rest);
      StringFront(PartsTo(parts, "\"" + rest), depth);
    case TArray(gap, items) =>
      if items.NoTrees? {
        Closes(gap, ']', rest);
        ArrayFront(gap + ("]" + rest), depth);
      } else {
        TextStarts(items.value, items.after + AfterItem(items, rest));
        SkipWhite(items.before, TextTo(items.value, items.after + AfterItem(items, rest)));
        ParseTrees(items, rest, depth + 1);
        ArrayFront(ItemsTo(items, rest), depth);
      }
    case TObject(gap, members) =>
      if members.NoMember? {
        Closes(gap, '}', rest);
        ObjectFront(gap + ("}" + rest), depth);
      } else {
        Quoted(members.before, NameTo(members, rest));
        ParseTreeMembers(members, rest, depth + 1);
        ObjectFront(MembersTo(members, rest), depth);
      }
  }

  lemma Closes(gap: string, c: char, rest: string)
    requires White(gap) && (c == ']' || c == '}' || c == ':')
    ensures SkipSpace(gap + ([c] + rest)) == [c] + rest && ([c] + rest)[0] == c && ([c] + rest)[1..] == rest
  {
    SkipWhite(gap, [c] + rest);
  }

  lemma Quoted(before: string, body: string)
    requires White(before)
    ensures SkipSpace(before + ("\"" + body)) == "\"" + body && ("\"" + body)[0] == '"'
  {
    SkipWhite(before, "\"" + body);
  }

  /** A name without its first quote, and all that follows. */
  function NameTo(m: TreeMembers, rest: string): string
    requires m.OneMember?
  {
    PartsTo(m.name, "\"" + (m.colon + (":" + (m.between + TextTo(m.value, m.after + AfterValue(m, rest))))))
  }

  lemma {:induction false} ParseTrees(items: Trees, rest: string, depth: nat)
    requires items.OneTree? && GoodTrees(items) && depth + ItemsHeight(items) <= 10000
    ensures ParseItems(TextTo(items.value, items.after + AfterItem(items, rest)), depth) == Some((ItemsDenoted(items), rest))
    ensures ParseItems(ItemsTo(items, rest), depth) == Some((ItemsDenoted(items), rest))
    decreases items
  {
    hide ParseValue, ParseItems, ParseFields, SkipSpace, IsSpace;
    var next := AfterItem(items, rest);
    var x := TextTo(items.value, items.after + next);
    Separates(items.after, next);
    ParseTree(items.value, items.after + next, depth);
    if items.tail.OneTree? {
      ParseTrees(items.tail, rest, depth);
    }
    TextStarts(items.value, items.after + next);
    ItemsAfterBlanks(items.before, x, depth);
    ItemsStep(x, Denoted(items.value), items.after, next, depth);
  }

  /** What follows a value is no part of a number. */
  lemma Separates(after: string, next: string)
    requires White(after) && next != "" && (next[0] == ']' || next[0] == '}' || next[0] == ',')
    ensures EndsNumber(after + next)
  {
  }

  lemma ItemsAfterBlanks(lead: string, x: string, depth: nat)
    requires White(lead) && Starts(x)
    ensures ParseItems(lead + x, depth) == ParseItems(x, depth)
  {
    hide ParseValue;
    ValueAfterBlanks(lead, x, depth);
  }

  lemma ItemsStep(x: string, v: Value, after: string, next: string, depth: nat)
    requires ParseValue(x, depth) == Some((v, after + next)) && White(after) && next != ""
    requires next[0] == ']' || (next[0] == ',' && ParseItems(next[1..], depth).Some?)
    ensures next[0] == ']' ==> ParseItems(x, depth) == Some((Item(v, NoItems), next[1..]))
    ensures next[0] == ',' ==>
              ParseItems(x, depth) == Some((Item(v, ParseItems(next[1..], depth).value.0), ParseItems(next[1..], depth).value.1))
  {
    hide ParseValue;
    SkipWhite(after, next);
  }

  lemma {:induction false} ParseTreeMembers(m: TreeMembers, rest: string, depth: nat)
    requires m.OneMember? && GoodMembers(m) && depth + MembersHeight(m) <= 10000
    ensures ParseFields("\"" + NameTo(m, rest), depth) == Some((MembersDenoted(m), rest))
    ensures ParseFields(MembersTo(m, rest), depth) == Some((MembersDenoted(m), rest))
    decreases m
  {
    hide ParseValue, ParseItems, ParseFields, SkipSpace, IsSpace;
    var next := AfterValue(m, rest);
    var x := TextTo(m.value, m.after + next);
    Separates(m.after, next);
    ParseTree(m.value, m.after + next, depth);
    if m.tail.OneMember? {
      ParseTreeMembers(m.tail, rest, depth);
    }
    TextStarts(m.value, m.after + next);
    ValueAfterBlanks(m.between, x, depth);
    ReadParts(m.name, m.colon + (":" + (m.between + x)));
    FieldsAfterBlanks(m.before, NameTo(m, rest), depth);
    FieldsStep(NameTo(m, rest), Spelled(m.name), m.colon, m.between + x, Denoted(m.value), m.after, next, depth);
  }

  lemma FieldsAfterBlanks(lead: string, body: string, depth: nat)
    requires White(lead)
    ensures ParseFields(lead + ("\"" + body), depth) == ParseFields("\"" + body, depth)
  {
    hide ParseValue, ReadString;
    var x := "\"" + body;
    SkipWhite(lead, x);
    SkipWhite("", x);
    assert "" + x == x;
  }

  lemma FieldsStep(body: string, key: string, colon: string, x: string, v: Value, after: string, next: string, depth: nat)
    requires ReadString(body) == Some((key, colon + (":" + x))) && White(colon)
    requires ParseValue(x, depth) == Some((v, after + next)) && White(after) && next != ""
    requires next[0] == '}' || (next[0] == ',' && ParseFields(next[1..], depth).Some?)
    ensures next[0] == '}' ==> ParseFields("\"" + body, depth) == Some((Field(key, v, NoFields), next[1..]))
    ensures next[0] == ',' ==>
              ParseFields("\"" + body, depth) == Some((Field(key, v, ParseFields(next[1..], depth).value.0), ParseFields(next[1..], depth).value.1))
  {
    hide ParseValue, ReadString;
    SkipWhite(after, next);
    Closes(colon, ':', x);
    assert ("\"" + body)[1..] == body;
  }

  // ----- Whatever is read is the text of a tree ----------------------------------------------------

  /** A value that was read, as a tree behind blanks. */
  lemma {:induction false} TreeOf(s: string, depth: nat) returns (lead: string, t: Tree)
    requires depth <= 10000 && ParseValue(s, depth).Some?
    ensures White(lead) && Good(t) && depth + Height(t) <= 10000
    ensures s == lead + TextTo(t, ParseValue(s, depth).value.1) && Denoted(t) == ParseValue(s, depth).value.0
    decreases |s|, 2
  {
    hide ParseValue, IsSpace;
    lead := SkippedParts(s);
    var x := SkipSpace(s);
    ValueStarts(s, depth);
    ValueAfterBlanks(lead, x, depth);
    if x[0] == '"' {
      t := StringOf(x, depth);
    } else if x[0] == '[' {
      t := ArrayOf(x, depth);
    } else if x[0] == '{' {
      t := ObjectOf(x, depth);
    } else {
      t := LeafOf(x, depth);
    }
  }

  lemma ValueStarts(s: string, depth: nat)
    requires ParseValue(s, depth).Some?
    ensures SkipSpace(s) != ""
  {
    hide ReadString, NumberLength, ParseItems, ParseFields, IsSpace, SkipSpace;
  }

  lemma StringOf(x: string, depth: nat) returns (t: Tree)
    requires ParseValue(x, depth).Some? && Starts(x) && x[0] == '"'
    ensures Good(t) && Height(t) == 0 && x == TextTo(t, ParseValue(x, depth).value.1) && Denoted(t) == ParseValue(x, depth).value.0
  {
    hide ReadString, NumberLength, ParseItems, ParseFields;
    var parts := PartsOf(x[1..]);
    t := TString(parts);
    assert x == "\"" + x[1..];
  }

  lemma ArrayOf(x: string, depth: nat) returns (t: Tree)
    requires depth <= 10000 && ParseValue(x, depth).Some? && Starts(x) && x[0] == '['
    ensures Good(t) && depth + Height(t) <= 10000
    ensures x == TextTo(t, ParseValue(x, depth).value.1) && Denoted(t) == ParseValue(x, depth).value.0
    decreases |x|, 1
  {
    hide *;
    OpenIsShallow(x, depth);
    var gap := SkippedParts(x[1..]);
    var u := SkipSpace(x[1..]);
    HeadTail(x);
    HeadTail(u);
    ArrayFront(x[1..], depth);
    if u[0] == ']' {
      t := TArray(gap, NoTrees);
      EmptyArray(gap, u[1..]);
    } else {
      var items := TreesOf(u, depth + 1);
      var rest := ParseItems(u, depth + 1).value.1;
      var wider := items.(before := gap + items.before);
      t := TArray("", wider);
      ItemsWithGap(gap, items, rest);
      FullArray(wider, rest);
    }
  }

  lemma HeadTail(s: string)
    ensures s != "" ==> s == [s[0]] + s[1..]
  {
  }

  lemma EmptyArray(gap: string, rest: string)
    requires White(gap)
    ensures var t := TArray(gap, NoTrees);
            Good(t) && Height(t) == 1 && TextTo(t, rest) == "[" + (gap + ("]" + rest)) && Denoted(t) == Array(NoItems)
  {
  }

  lemma FullArray(items: Trees, rest: string)
    requires items.OneTree? && GoodTrees(items)
    ensures var t := TArray("", items);
            && Good(t) && Height(t) == 1 + ItemsHeight(items) && TextTo(t, rest) == "[" + ItemsTo(items, rest)
            && Denoted(t) == Array(ItemsDenoted(items))
  {
    hide ItemsTo, GoodTrees, ItemsDenoted, ItemsHeight;
  }

  lemma EmptyObject(gap: string, rest: string)
    requires White(gap)
    ensures var t := TObject(gap, NoMember);
            Good(t) && Height(t) == 1 && TextTo(t, rest) == "{" + (gap + ("}" + rest)) && Denoted(t) == Object(NoFields)
  {
  }

  lemma FullObject(members: TreeMembers, rest: string)
    requires members.OneMember? && GoodMembers(members)
    ensures var t := TObject("", members);
            && Good(t) && Height(t) == 1 + MembersHeight(members) && TextTo(t, rest) == "{" + MembersTo(members, rest)
            && Denoted(t) == Object(MembersDenoted(members))
  {
    hide MembersTo, GoodMembers, MembersDenoted, MembersHeight;
  }

  /** Nothing opens below the limit, and nothing ends there. */
  lemma OpenIsShallow(x: string, depth: nat)
    requires ParseValue(x, depth).Some? && Starts(x) && (x[0] == '[' || x[0] == '{')
    ensures depth < 10000 && SkipSpace(x[1..]) != ""
  {
    hide ReadString, NumberLength, IsSpace;
    SkipWhite("", x);
    assert "" + x == x;
  }

  lemma ObjectOf(x: string, depth: nat) returns (t: Tree)
    requires depth <= 10000 && ParseValue(x, depth).Some? && Starts(x) && x[0] == '{'
    ensures Good(t) && depth + Height(t) <= 10000
    ensures x == TextTo(t, ParseValue(x, depth).value.1) && Denoted(t) == ParseValue(x, depth).value.0
    decreases |x|, 1
  {
    hide *;
    OpenIsShallow(x, depth);
    var gap := SkippedParts(x[1..]);
    var u := SkipSpace(x[1..]);
    HeadTail(x);
    HeadTail(u);
    ObjectFront(x[1..], depth);
    if u[0] == '}' {
      t := TObject(gap, NoMember);
      EmptyObject(gap, u[1..]);
    } else {
      var members := MembersOf(u, depth + 1);
      var rest := ParseFields(u, depth + 1).value.1;
      var wider := members.(before := gap + members.before);
      t := TObject("", wider);
      MembersWithGap(gap, members, rest);
      FullObject(wider, rest);
    }
  }

  lemma LeafOf(x: string, depth: nat) returns (t: Tree)
    requires ParseValue(x, depth).Some? && SkipSpace(x) == x && x != "" && x[0] != '"' && x[0] != '[' && x[0] != '{'
    ensures Good(t) && Height(t) == 0 && x == TextTo(t, ParseValue(x, depth).value.1) && Denoted(t) == ParseValue(x, depth).value.0
  {
    hide NumberLength;
    if "null" <= x {
      t := TNull;
      assert x == "null" + x[4..];
    } else if "true" <= x {
      t := TBool(true);
      assert x == "true" + x[4..];
    } else if "false" <= x {
      t := TBool(false);
      assert x == "false" + x[5..];
    } else {
      var sign, whole, frac, exp := NumberOf(x);
      t := TNumber(sign, whole, frac, exp);
    }
  }

  lemma ItemsWithGap(gap: string, items: Trees, rest: string)
    requires White(gap) && items.OneTree? && GoodTrees(items)
    ensures var wider := items.(before := gap + items.before);
            && GoodTrees(wider) && ItemsTo(wider, rest) == gap + ItemsTo(items, rest)
            && ItemsDenoted(wider) == ItemsDenoted(items) && ItemsHeight(wider) == ItemsHeight(items)
  {
    Regroup(gap, items.before, TextTo(items.value, items.after + AfterItem(items, rest)));
  }

  lemma MembersWithGap(gap: string, m: TreeMembers, rest: string)
    requires White(gap) && m.OneMember? && GoodMembers(m)
    ensures var wider := m.(before := gap + m.before);
            && GoodMembers(wider) && MembersTo(wider, rest) == gap + MembersTo(m, rest)
            && MembersDenoted(wider) == MembersDenoted(m) && MembersHeight(wider) == MembersHeight(m)
  {
    Regroup(gap, m.before, "\"" + NameTo(m, rest));
  }

  lemma Regroup(a: string, b: string, c: string)
    ensures (a + b) + c == a + (b + c)
  {
  }

  lemma {:induction false} TreesOf(s: string, depth: nat) returns (items: Trees)
    requires depth <= 10000 && ParseItems(s, depth).Some?
    ensures items.OneTree? && GoodTrees(items) && depth + ItemsHeight(items) <= 10000
    ensures s == ItemsTo(items, ParseItems(s, depth).value.1) && ItemsDenoted(items) == ParseItems(s, depth).value.0
    decreases |s|, 3
  {
    hide ParseValue, SkipSpace, IsSpace;
    var before, value := TreeOf(s, depth);
    var rest := ParseValue(s, depth).value.1;
    var after := SkippedParts(rest);
    var v := SkipSpace(rest);
    assert v == [v[0]] + v[1..];
    if v[0] == ']' {
      items := OneTree(before, value, after, NoTrees);
    } else {
      var tail := TreesOf(v[1..], depth);
      items := OneTree(before, value, after, tail);
    }
  }

  lemma {:induction false} MembersOf(s: string, depth: nat) returns (m: TreeMembers)
    requires depth <= 10000 && ParseFields(s, depth).Some?
    ensures m.OneMember? && GoodMembers(m) && depth + MembersHeight(m) <= 10000
    ensures s == MembersTo(m, ParseFields(s, depth).value.1) && MembersDenoted(m) == ParseFields(s, depth).value.0
    decreases |s|, 3
  {
    hide ParseValue, ReadString, SkipSpace, IsSpace;
    var before := SkippedParts(s);
    var t := SkipSpace(s);
    var name := PartsOf(t[1..]);
    var afterName := ReadString(t[1..]).value.1;
    var colon := SkippedParts(afterName);
    var u := SkipSpace(afterName);
    var between, value := TreeOf(u[1..], depth);
    var rest := ParseValue(u[1..], depth).value.1;
    var after := SkippedParts(rest);
    var v := SkipSpace(rest);
    assert t == "\"" + t[1..] && u == ":" + u[1..] && v == [v[0]] + v[1..];
    if v[0] == '}' {
      m := OneMember(before, name, colon, between, value, after, NoMember);
    } else {
      var tail := MembersOf(v[1..], depth);
      m := OneMember(before, name, colon, between, value, after, tail);
    }
  }

  // ----- The reader is the grammar -----------------------------------------------------------------

  /** s is blanks, the text of a tree that says v, nested at most ten thousand deep, and the rest. */
  ghost predicate Writes(s: string, lead: string, t: Tree, rest: string, v: Value) {
    White(lead) && Good(t) && Height(t) <= 10000 && Denoted(t) == v && s == lead + TextTo(t, rest)
  }

  /** json.Unmarshal reads v exactly from the texts of v, with blanks around them. */
  lemma WholeIff(s: string, v: Value)
    ensures ParseWhole(s) == Some(v) <==> exists lead, t, trail :: Writes(s, lead, t, trail, v) && White(trail)
  {
    hide ParseValue, SkipSpace;
    if ParseWhole(s) == Some(v) {
      var lead, t := TreeOf(s, 0);
      var rest := ParseValue(s, 0).value.1;
      var trail := SkippedParts(rest);
      assert rest == trail;
      assert Writes(s, lead, t, rest, v);
    }
    if lead, t, trail :| Writes(s, lead, t, trail, v) && White(trail) {
      WhiteEnds(trail);
      FirstRead(s, lead, t, trail, v);
      SkipWhite(trail, "");
      assert trail + "" == trail;
    }
  }

  lemma WhiteEnds(trail: string)
    requires White(trail)
    ensures EndsNumber(trail)
  {
  }

  lemma FirstRead(s: string, lead: string, t: Tree, rest: string, v: Value)
    requires Writes(s, lead, t, rest, v) && (t.TNumber? ==> EndsNumber(rest))
    ensures ParseValue(s, 0) == Some((v, rest))
  {
    hide ParseValue;
    TextStarts(t, rest);
    ValueAfterBlanks(lead, TextTo(t, rest), 0);
    ParseTree(t, rest, 0);
  }

  /** json.Decoder reads v, if it is no number, exactly from the streams that start with a text of v. */
  lemma FirstIff(s: string, v: Value)
    requires !v.Number?
    ensures ParseFirst(s) == Some(v) <==> exists lead, t, rest :: Writes(s, lead, t, rest, v)
  {
    hide ParseValue;
    if ParseFirst(s) == Some(v) {
      var lead, t := TreeOf(s, 0);
      assert Writes(s, lead, t, ParseValue(s, 0).value.1, v);
    }
    if lead, t, rest :| Writes(s, lead, t, rest, v) {
      FirstRead(s, lead, t, rest, v);
    }
  }

  /** A number as well, when what follows does not continue it. */
  lemma FirstNumber(s: string, lead: string, t: Tree, rest: string, v: Value)
    requires Writes(s, lead, t, rest, v) && EndsNumber(rest)
    ensures ParseFirst(s) == Some(v)
  {
    hide ParseValue;
    FirstRead(s, lead, t, rest, v);
  }
}
