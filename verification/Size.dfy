/** Sizes as configuration files write them: a decimal numeral, spaces, and a binary unit in any case. */
module Size {
  import opened Wrappers
  import opened Decimal

  // ----- Text --------------------------------------------------------------------------------------

  /** unicode.IsSpace. */
  predicate IsSpace(c: char) {
    c in {'\t', '\n', '\U{B}', '\U{C}', '\r', ' ', '\U{85}', '\U{A0}', '\U{1680}', '\U{2028}', '\U{2029}', '\U{202F}', '\U{205F}', '\U{3000}'}
    || '\U{2000}' <= c <= '\U{200A}'
  }

  predicate Spaces(s: string) {
    forall i :: 0 <= i < |s| ==> IsSpace(s[i])
  }

  function TrimLeft(s: string): string {
    if s != "" && IsSpace(s[0]) then TrimLeft(s[1..]) else s
  }

  function TrimRight(s: string): string {
    if s != "" && IsSpace(s[|s| - 1]) then TrimRight(s[..|s| - 1]) else s
  }

  /** strings.TrimSpace. */
  function Trim(s: string): string {
    TrimRight(TrimLeft(s))
  }

  predicate Trimmed(s: string) {
    s != "" ==> !IsSpace(s[0]) && !IsSpace(s[|s| - 1])
  }

  lemma {:induction false} TrimLeftOf(lead: string, s: string)
    requires Spaces(lead) && (s != "" ==> !IsSpace(s[0]))
    ensures TrimLeft(lead + s) == s
  {
    if lead == "" {
      assert lead + s == s;
    } else {
      assert (lead + s)[1..] == lead[1..] + s;
      TrimLeftOf(lead[1..], s);
    }
  }

  lemma {:induction false} TrimRightOf(s: string, trail: string)
    requires Spaces(trail) && (s != "" ==> !IsSpace(s[|s| - 1]))
    ensures TrimRight(s + trail) == s
  {
    if trail == "" {
      assert s + trail == s;
    } else {
      assert (s + trail)[..|s + trail| - 1] == s + trail[..|trail| - 1];
      TrimRightOf(s, trail[..|trail| - 1]);
    }
  }

  lemma {:induction false} TrimSpaces(s: string)
    requires Spaces(s)
    ensures Trim(s) == ""
  {
    if s != "" {
      TrimSpaces(s[1..]);
    }
  }

  lemma TrimOf(lead: string, s: string, trail: string)
    requires Spaces(lead) && Spaces(trail) && Trimmed(s)
    ensures Trim(lead + s + trail) == s
  {
    if s == "" {
      TrimSpaces(lead + s + trail);
    } else {
      assert lead + s + trail == lead + (s + trail);
      TrimLeftOf(lead, s + trail);
      TrimRightOf(s, trail);
    }
  }

  lemma {:induction false} TrimLeftParts(s: string)
    ensures |TrimLeft(s)| <= |s| && s == s[..|s| - |TrimLeft(s)|] + TrimLeft(s)
    ensures Spaces(s[..|s| - |TrimLeft(s)|]) && (TrimLeft(s) != "" ==> !IsSpace(TrimLeft(s)[0]))
  {
    if s != "" && IsSpace(s[0]) {
      TrimLeftParts(s[1..]);
      var k := |s| - |TrimLeft(s)|;
      assert s[..k] == [s[0]] + s[1..][..k - 1];
    }
  }

  lemma {:induction false} TrimRightParts(s: string)
    ensures |TrimRight(s)| <= |s| && s == TrimRight(s) + s[|TrimRight(s)|..]
    ensures Spaces(s[|TrimRight(s)|..]) && (TrimRight(s) != "" ==> !IsSpace(TrimRight(s)[|TrimRight(s)| - 1]))
  {
    if s != "" && IsSpace(s[|s| - 1]) {
      var r := s[..|s| - 1];
      TrimRightParts(r);
      assert s[|TrimRight(s)|..] == r[|TrimRight(s)|..] + [s[|s| - 1]];
    }
  }

  /** Trimming takes spaces off both ends, and nothing else. */
  lemma TrimParts(s: string) returns (lead: string, trail: string)
    ensures Spaces(lead) && Spaces(trail) && Trimmed(Trim(s)) && s == lead + Trim(s) + trail
  {
    var l := TrimLeft(s);
    TrimLeftParts(s);
    TrimRightParts(l);
    lead, trail := s[..|s| - |l|], l[|Trim(s)|..];
    assert l == Trim(s) + trail;
    assert Trim(s) != "" ==> Trim(s)[0] == l[0];
  }

  /** unicode.ToUpper, as far as it leads to ASCII; other characters match no unit in either case. */
  function UpperChar(c: char): char {
    if 'a' <= c <= 'z' then (c as int - 32) as char
    else if c == '\U{131}' then 'I'
    else if c == '\U{17F}' then 'S'
    else c
  }

  function Upper(s: string): string {
    seq(|s|, i requires 0 <= i < |s| => UpperChar(s[i]))
  }

  // ----- parseSize ---------------------------------------------------------------------------------

  const UNITS: map<string, nat> := map[
    "" := 0, "B" := 0,
    "K" := 1, "KB" := 1, "KIB" := 1,
    "M" := 2, "MB" := 2, "MIB" := 2,
    "G" := 3, "GB" := 3, "GIB" := 3,
    "T" := 4, "TB" := 4, "TIB" := 4
  ]

  function Pow1024(k: nat): (p: nat)
    ensures p > 0
  {
    if k == 0 then 1 else 1024 * Pow1024(k - 1)
  }

  /** The unit a suffix names, in any case. */
  function Multiplier(suffix: string): Option<nat> {
    if Upper(suffix) in UNITS then Some(Pow1024(UNITS[Upper(suffix)])) else None
  }

  /** The characters that the scan takes for the numeral. */
  predicate Numeric(c: char) {
    IsDigit(c) || c in {'.', '-', '+'}
  }

  predicate AllNumeric(s: string) {
    forall i :: 0 <= i < |s| ==> Numeric(s[i])
  }

  /** What a numeral and a suffix denote. */
  function SizeOf(num: string, suffix: string): Result<Amount, string> {
    match ParseNumber(num)
    case None => Err("parse size")
    case Some(x) =>
      match Multiplier(suffix)
      case None => Err("unknown size suffix")
      case Some(m) => Ok(InRange(Truncated(x, m)))
  }

  function NumericEnd(s: string): (i: nat)
    ensures i <= |s|
  {
    if s != "" && Numeric(s[0]) then 1 + NumericEnd(s[1..]) else 0
  }

  function Parsed(text: string): Result<Amount, string> {
    var s := Trim(text);
    if s == "" then Err("empty size") else SizeOf(s[..NumericEnd(s)], Trim(s[NumericEnd(s)..]))
  }

  lemma {:induction false} NumericEndAt(num: string, rest: string)
    requires AllNumeric(num) && (rest != "" ==> !Numeric(rest[0]))
    ensures NumericEnd(num + rest) == |num|
  {
    if num == "" {
      assert num + rest == rest;
    } else {
      assert (num + rest)[1..] == num[1..] + rest;
      NumericEndAt(num[1..], rest);
    }
  }

  method ParseSize(text: string) returns (r: Result<Amount, string>)
    ensures r == Parsed(text)
  {
    var s := Trim(text);
    if s == "" {
      return Err("empty size");
    }
    var i := 0;
    while i < |s| && Numeric(s[i])
      invariant i <= |s| && AllNumeric(s[..i])
    {
      i := i + 1;
    }
    NumericEndAt(s[..i], s[i..]);
    assert s[..i] + s[i..] == s;
    var x := ParseNumber(s[..i]);
    if x.None? {
      return Err("parse size");
    }
    var m := Multiplier(Trim(s[i..]));
    if m.None? {
      return Err("unknown size suffix");
    }
    return Ok(InRange(Truncated(x.value, m.value)));
  }

  // ----- The units by name -------------------------------------------------------------------------

  /** s is a name, given in capitals, in any letter case. The dotless i, code point 305, counts as an i. */
  predicate Spells(s: string, name: string) {
    |s| == |name| && forall i :: 0 <= i < |s| ==>
      s[i] == name[i] || ('A' <= name[i] <= 'Z' && s[i] as int == name[i] as int + 32) || (name[i] == 'I' && s[i] as int == 305)
  }

  predicate SpellsOne(s: string, a: string, b: string, c: string) {
    Spells(s, a) || Spells(s, b) || Spells(s, c)
  }

  /** The fourteen names and their factors. */
  function Factor(s: string): Option<nat> {
    if s == "" || Spells(s, "B") then Some(1)
    else if SpellsOne(s, "K", "KB", "KIB") then Some(1024)
    else if SpellsOne(s, "M", "MB", "MIB") then Some(1048576)
    else if SpellsOne(s, "G", "GB", "GIB") then Some(1073741824)
    else if SpellsOne(s, "T", "TB", "TIB") then Some(1099511627776)
    else None
  }

  lemma UpperSpells(s: string, name: string)
    requires name in UNITS
    ensures Upper(s) == name <==> Spells(s, name)
  {
    hide UpperChar;
    assert |Upper(s)| == |s|;
    NamesAreCapitals(name);
    if |s| == |name| {
      forall i | 0 <= i < |s|
        ensures Upper(s)[i] == name[i] <==>
          s[i] == name[i] || ('A' <= name[i] <= 'Z' && s[i] as int == name[i] as int + 32) || (name[i] == 'I' && s[i] as int == 305)
      {
        UpperIs(s[i], name[i]);
      }
    }
  }

  lemma NamesAreCapitals(name: string)
    requires name in UNITS
    ensures forall i :: 0 <= i < |name| ==> 'A' <= name[i] <= 'Z' && name[i] != 'S'
  {
  }

  lemma UpperIs(c: char, letter: char)
    requires 'A' <= letter <= 'Z' && letter != 'S'
    ensures UpperChar(c) == letter <==> c == letter || c as int == letter as int + 32 || (letter == 'I' && c as int == 305)
  {
  }

  /** These are the units that parseSize knows, and there is no other. */
  lemma UnitNames(suffix: string)
    ensures Multiplier(suffix) == Factor(suffix)
  {
    hide Spells, Upper;
    Powers();
    forall name | name in UNITS ensures Upper(suffix) == name <==> Spells(suffix, name) {
      UpperSpells(suffix, name);
    }
    EmptyName(suffix);
  }

  lemma EmptyName(s: string)
    ensures Spells(s, "") <==> s == ""
  {
  }

  lemma Powers()
    ensures Pow1024(0) == 1 && Pow1024(1) == 1024 && Pow1024(2) == 1048576
    ensures Pow1024(3) == 1073741824 && Pow1024(4) == 1099511627776
  {
    assert Pow1024(1) == 1024 * Pow1024(0) && Pow1024(2) == 1024 * Pow1024(1);
    assert Pow1024(3) == 1024 * Pow1024(2) && Pow1024(4) == 1024 * Pow1024(3);
  }

  // ----- The one way to split a size ---------------------------------------------------------------

  /** The white space of Unicode, by code points. */
  predicate WhiteCode(n: int) {
    9 <= n <= 13 || n == 32 || n == 0x85 || n == 0xA0 || n == 0x1680 || 0x2000 <= n <= 0x200A
    || n == 0x2028 || n == 0x2029 || n == 0x202F || n == 0x205F || n == 0x3000
  }

  lemma SpaceCodes(c: char)
    ensures IsSpace(c) <==> WhiteCode(c as int)
  {
  }

  lemma NumeralCodes(c: char)
    ensures Numeric(c) <==> c in "+-.0123456789"
  {
    if IsDigit(c) {
      assert "0123456789"[c as int - 48] == c;
      assert "+-.0123456789" == "+-." + "0123456789";
    }
  }

  predicate Pieces(lead: string, num: string, gap: string, suffix: string, trail: string) {
    && Spaces(lead) && Spaces(gap) && Spaces(trail)
    && AllNumeric(num) && Trimmed(suffix) && num + suffix != ""
    && (num == "" ==> gap == "")
    && (gap == "" && suffix != "" ==> !Numeric(suffix[0]))
  }

  predicate White(s: string) {
    forall i :: 0 <= i < |s| ==> WhiteCode(s[i] as int)
  }

  /** Signs, points and digits. */
  predicate NumeralMarks(s: string) {
    forall i :: 0 <= i < |s| ==> s[i] in "+-.0123456789"
  }

  /** White space, numeral, white space, suffix and white space; the numeral is not continued, and the suffix starts
      and ends with something else than white space. */
  predicate Layout(lead: string, num: string, gap: string, suffix: string, trail: string) {
    && White(lead) && White(gap) && White(trail) && NumeralMarks(num) && num + suffix != "" && (num == "" ==> gap == "")
    && (suffix != "" ==> !WhiteCode(suffix[0] as int) && !WhiteCode(suffix[|suffix| - 1] as int)
                         && (gap == "" ==> suffix[0] !in "+-.0123456789"))
  }

  ghost predicate Written(text: string, num: string, suffix: string) {
    exists lead, gap, trail :: Layout(lead, num, gap, suffix, trail) && text == lead + (num + gap + suffix) + trail
  }

  lemma WhiteIsSpaces(s: string)
    ensures White(s) <==> Spaces(s)
  {
    hide IsSpace, WhiteCode;
    forall c: char ensures IsSpace(c) <==> WhiteCode(c as int) {
      SpaceCodes(c);
    }
  }

  lemma MarksAreNumeric(s: string)
    ensures NumeralMarks(s) <==> AllNumeric(s)
  {
    hide Numeric;
    forall c: char ensures Numeric(c) <==> c in "+-.0123456789" {
      NumeralCodes(c);
    }
  }

  lemma LayoutIsPieces(lead: string, num: string, gap: string, suffix: string, trail: string)
    ensures Layout(lead, num, gap, suffix, trail) <==> Pieces(lead, num, gap, suffix, trail)
  {
    hide IsSpace, WhiteCode, White, Spaces, Numeric, AllNumeric, NumeralMarks;
    WhiteIsSpaces(lead);
    WhiteIsSpaces(gap);
    WhiteIsSpaces(trail);
    MarksAreNumeric(num);
    if suffix != "" {
      SpaceCodes(suffix[0]);
      SpaceCodes(suffix[|suffix| - 1]);
      NumeralCodes(suffix[0]);
    }
  }

  lemma SplitIs(lead: string, num: string, gap: string, suffix: string, trail: string)
    requires Pieces(lead, num, gap, suffix, trail)
    ensures var s := Trim(lead + (num + gap + suffix) + trail);
            s != "" && s[..NumericEnd(s)] == num && Trim(s[NumericEnd(s)..]) == suffix
  {
    if suffix == "" {
      assert lead + (num + gap + suffix) + trail == lead + num + (gap + trail);
      TrimOf(lead, num, gap + trail);
      NumericEndAt(num, "");
      assert num + "" == num;
    } else {
      TrimOf(lead, num + gap + suffix, trail);
      assert num + gap + suffix == num + (gap + suffix);
      NumericEndAt(num, gap + suffix);
      TrimOf(gap, suffix, "");
      assert gap + suffix + "" == gap + suffix;
    }
  }

  /** The scan finds the split, and there is no other. */
  lemma SplitUnique(text: string, num: string, suffix: string)
    requires Written(text, num, suffix)
    ensures var s := Trim(text);
            s != "" && num == s[..NumericEnd(s)] && suffix == Trim(s[NumericEnd(s)..])
  {
    hide Layout, Pieces;
    var lead, gap, trail :| Layout(lead, num, gap, suffix, trail) && text == lead + (num + gap + suffix) + trail;
    LayoutIsPieces(lead, num, gap, suffix, trail);
    SplitIs(lead, num, gap, suffix, trail);
  }

  lemma {:induction false} NumericEndStops(s: string)
    ensures AllNumeric(s[..NumericEnd(s)]) && (NumericEnd(s) < |s| ==> !Numeric(s[NumericEnd(s)]))
  {
    if s != "" && Numeric(s[0]) {
      NumericEndStops(s[1..]);
      assert s[..NumericEnd(s)] == [s[0]] + s[1..][..NumericEnd(s) - 1];
    }
  }

  lemma SplitExists(text: string)
    requires Trim(text) != ""
    ensures var s := Trim(text); Written(text, s[..NumericEnd(s)], Trim(s[NumericEnd(s)..]))
  {
    var s := Trim(text);
    var i := NumericEnd(s);
    NumericEndStops(s);
    var lead, trail := TrimParts(text);
    var gap, end := TrimParts(s[i..]);
    assert s == s[..i] + s[i..];
    EndsAreFound(s, s[..i], gap, Trim(s[i..]), end);
    Rejoin(lead, s[..i], gap, Trim(s[i..]), end, trail);
  }

  lemma Rejoin(lead: string, num: string, gap: string, suffix: string, end: string, trail: string)
    requires Pieces(lead, num, gap, suffix, end) && Spaces(trail)
    ensures Written(lead + (num + (gap + suffix + end)) + trail, num, suffix)
  {
    var text := lead + (num + (gap + suffix + end)) + trail;
    assert text == lead + (num + gap + suffix) + (end + trail);
    assert Pieces(lead, num, gap, suffix, end + trail);
    LayoutIsPieces(lead, num, gap, suffix, end + trail);
  }

  lemma EndsAreFound(s: string, num: string, gap: string, suffix: string, end: string)
    requires s == num + (gap + suffix + end) && s != "" && Trimmed(s) && Spaces(gap) && Spaces(end)
    requires gap + suffix + end != "" ==> !Numeric((gap + suffix + end)[0])
    ensures num + suffix != "" && (num == "" ==> gap == "") && (gap == "" && suffix != "" ==> !Numeric(suffix[0]))
  {
    if num == "" {
      assert s[0] == (gap + suffix + end)[0];
    }
    if gap == "" && suffix != "" {
      assert (gap + suffix + end)[0] == suffix[0];
    }
  }

  /** A number of bytes, if it has 64 bits with the sign. */
  function In64(n: int): Amount {
    if -9223372036854775808 <= n <= 9223372036854775807 then Exactly(n) else OutOfRange
  }

  /** Truncation, without division: the magnitude is the last whole number of bytes that is not beyond the value. */
  lemma SizeMeans(num: string, sign: string, whole: string, point: bool, frac: string, suffix: string, m: nat) returns (t: nat)
    requires Numeral(num, sign, whole, point, frac) && Factor(suffix) == Some(m)
    ensures SizeOf(num, suffix) == Ok(In64(if sign == "-" then -(t as int) else t))
    ensures t * Pow10(|frac|) <= DecimalValue(whole + frac) * m < (t + 1) * Pow10(|frac|)
  {
    hide Multiplier, Factor, ParseNumber, Truncated;
    UnitNames(suffix);
    PlainNumeral(sign, whole, point, frac);
    t := TruncatedIs(Quantity(sign == "-", DecimalValue(whole + frac), |frac|), m);
    SizeOfNumber(num, suffix, m);
  }

  lemma SizeOfNumber(num: string, suffix: string, m: nat)
    requires ParseNumber(num).Some? && Multiplier(suffix) == Some(m)
    ensures SizeOf(num, suffix) == Ok(InRange(Truncated(ParseNumber(num).value, m)))
  {
  }

  /** What a numeral and the name of a unit denote: the numeral times the unit, truncated toward zero. */
  ghost predicate Denotes(num: string, suffix: string, n: Amount) {
    exists sign, whole, point, frac, t: nat :: NumeralTimes(num, suffix, n, sign, whole, point, frac, t)
  }

  ghost predicate NumeralTimes(num: string, suffix: string, n: Amount, sign: string, whole: string, point: bool, frac: string, t: nat) {
    && Numeral(num, sign, whole, point, frac) && Factor(suffix).Some?
    && t * Pow10(|frac|) <= DecimalValue(whole + frac) * Factor(suffix).value < (t + 1) * Pow10(|frac|)
    && n == In64(if sign == "-" then -(t as int) else t)
  }

  lemma FloorUnique(a: nat, p: nat, t: nat, u: nat)
    requires p > 0 && t * p <= a < (t + 1) * p && u * p <= a < (u + 1) * p
    ensures t == u
  {
    MultiplyLe(p, t + 1, u);
    MultiplyLe(p, u + 1, t);
  }

  lemma DenotesIff(num: string, suffix: string, n: Amount)
    requires AllNumeric(num)
    ensures SizeOf(num, suffix) == Ok(n) <==> Denotes(num, suffix, n)
  {
    hide SizeOf, NumeralTimes;
    if SizeOf(num, suffix) == Ok(n) {
      SizeDenotes(num, suffix, n);
    }
    if sign, whole, point, frac, t: nat :| NumeralTimes(num, suffix, n, sign, whole, point, frac, t) {
      DenotedSize(num, suffix, n, sign, whole, point, frac, t);
    }
  }

  lemma SizeDenotes(num: string, suffix: string, n: Amount)
    requires AllNumeric(num) && SizeOf(num, suffix) == Ok(n)
    ensures Denotes(num, suffix, n)
  {
    hide Multiplier, Factor, ParseNumber, Truncated;
    UnitNames(suffix);
    NumeralIff(num);
    var sign, whole, point, frac :| Numeral(num, sign, whole, point, frac);
    var t := SizeMeans(num, sign, whole, point, frac, suffix, Factor(suffix).value);
    assert NumeralTimes(num, suffix, n, sign, whole, point, frac, t);
  }

  lemma DenotedSize(num: string, suffix: string, n: Amount, sign: string, whole: string, point: bool, frac: string, t: nat)
    requires NumeralTimes(num, suffix, n, sign, whole, point, frac, t)
    ensures SizeOf(num, suffix) == Ok(n)
  {
    hide Factor, SizeOf;
    var m := Factor(suffix).value;
    var u := SizeMeans(num, sign, whole, point, frac, suffix, m);
    FloorUnique(DecimalValue(whole + frac) * m, Pow10(|frac|), t, u);
  }

  /** parseSize accepts exactly the texts that split into a plain numeral and the name of a unit, and answers the
      numeral times the unit, truncated toward zero. */
  lemma ParsedIff(text: string, n: Amount)
    ensures Parsed(text) == Ok(n) <==> exists num, suffix :: Written(text, num, suffix) && Denotes(num, suffix, n)
  {
    hide SizeOf, Denotes, Trim;
    if num, suffix :| Written(text, num, suffix) && Denotes(num, suffix, n) {
      SplitUnique(text, num, suffix);
      NumeralPart(text, num, suffix);
      DenotesIff(num, suffix, n);
    }
    if Parsed(text) == Ok(n) {
      SplitExists(text);
      var s := Trim(text);
      NumeralPart(text, s[..NumericEnd(s)], Trim(s[NumericEnd(s)..]));
      DenotesIff(s[..NumericEnd(s)], Trim(s[NumericEnd(s)..]), n);
    }
  }

  lemma NumeralPart(text: string, num: string, suffix: string)
    requires Written(text, num, suffix)
    ensures AllNumeric(num)
  {
  }

  // ----- Writing and reading back ------------------------------------------------------------------

  /** A size of k units, as a whole number and the name of the unit. */
  function PrintSize(k: int, suffix: string): string {
    (if k < 0 then "-" + NatText(-k) else NatText(k)) + suffix
  }

  function Magnitude(k: int): nat {
    if k < 0 then -k else k
  }

  /** Reading it back gives k units, for every name of every unit. */
  lemma PrintParse(k: int, suffix: string, m: nat)
    requires Factor(suffix) == Some(m)
    ensures Parsed(PrintSize(k, suffix)) == Ok(In64(k * m))
  {
    UnitNames(suffix);
    PrintedSize(k, suffix, m);
    WholeTimes(k, m);
  }

  lemma PrintedSize(k: int, suffix: string, m: nat)
    requires Multiplier(suffix) == Some(m)
    ensures Parsed(PrintSize(k, suffix)) == Ok(InRange(Truncated(Quantity(k < 0, Magnitude(k), 0), m)))
  {
    var sign := if k < 0 then "-" else "";
    var num := sign + NatText(Magnitude(k));
    PrintedNumeral(sign, Magnitude(k));
    UnitParts(num, suffix);
    assert PrintSize(k, suffix) == num + suffix;
    WholeText(num, suffix);
    SizeOfNumber(num, suffix, m);
  }

  lemma WholeText(num: string, suffix: string)
    requires Pieces("", num, "", suffix, "")
    ensures Parsed(num + suffix) == SizeOf(num, suffix)
  {
    assert "" + (num + "" + suffix) + "" == num + suffix;
    SplitUnique(num + suffix, num, suffix);
  }

  lemma PrintedNumeral(sign: string, q: nat)
    requires sign in {"", "-"}
    ensures ParseNumber(sign + NatText(q)) == Some(Quantity(sign == "-", q, 0)) && AllNumeric(sign + NatText(q))
  {
    PlainNumeral(sign, NatText(q), false, "");
    NatTextValue(q);
    assert NatText(q) + "" == NatText(q) && NatText(q) + "" + "" == NatText(q);
  }

  lemma WholeTimes(k: int, m: nat)
    ensures Truncated(Quantity(k < 0, Magnitude(k), 0), m) == k * m
  {
    var p := Product(Magnitude(k), m);
    assert Pow10(0) == 1 && Over(p, 1) == p;
    assert k < 0 ==> k * m == -(Magnitude(k) * m);
  }

  /** The name of a unit is no part of a numeral and has no spaces. */
  lemma UnitParts(num: string, suffix: string)
    requires AllNumeric(num) && num != "" && Multiplier(suffix).Some?
    ensures Pieces("", num, "", suffix, "")
  {
    var u := Upper(suffix);
    assert |u| == |suffix| && |u| <= 3;
    if suffix != "" {
      assert u[0] == UpperChar(suffix[0]) && u[|u| - 1] == UpperChar(suffix[|u| - 1]);
    }
  }

  // ----- Megabytes ---------------------------------------------------------------------------------

  /** Go's division truncates toward zero. */
  function GoDiv(a: int, b: nat): int
    requires b > 0
  {
    if a < 0 then -(-a / b) else a / b
  }

  function Megabytes(size: int): (mb: int)
    ensures size >= 0 ==> mb * 1048576 <= size < (mb + 1) * 1048576
    ensures size < 0 ==> (mb - 1) * 1048576 < size <= mb * 1048576
  {
    GoDiv(size, 1048576)
  }

  /** Writing whole megabytes and reading them back through Megabytes gives their number. */
  lemma MegabytesOfPrinted(k: int, suffix: string)
    requires SpellsOne(suffix, "M", "MB", "MIB")
    ensures Parsed(PrintSize(k, suffix)) == Ok(In64(k * 1048576)) && Megabytes(k * 1048576) == k
  {
    MegabyteNames(suffix);
    PrintParse(k, suffix, 1048576);
  }

  lemma FirstLetters(s: string, a: string, b: string, c: string)
    requires a != "" && b != "" && c != "" && a[0] == b[0] == c[0] && a[0] != 'I'
    ensures SpellsOne(s, a, b, c) ==> s != "" && (s[0] == a[0] || s[0] as int == a[0] as int + 32)
  {
  }

  lemma MegabyteNames(suffix: string)
    requires SpellsOne(suffix, "M", "MB", "MIB")
    ensures Factor(suffix) == Some(1048576)
  {
    hide Spells;
    FirstLetters(suffix, "B", "B", "B");
    FirstLetters(suffix, "K", "KB", "KIB");
    FirstLetters(suffix, "M", "MB", "MIB");
  }
}
