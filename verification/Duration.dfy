/** Durations as configuration files write them. Day units are rewritten to hours in the text, and what comes
    out is read by time.ParseDuration; a text it refuses is read as a number of seconds. */
module Duration {
  import opened Wrappers
  import opened Decimal

  // ----- Rewriting days to hours -------------------------------------------------------------------

  /** \s of the pattern. */
  predicate IsBlank(c: char) {
    c == '\t' || c == '\n' || c == '\U{C}' || c == '\r' || c == ' '
  }

  predicate Blank(s: string) {
    forall i :: 0 <= i < |s| ==> IsBlank(s[i])
  }

  function CountBlanks(s: string): (n: nat)
    ensures n <= |s|
  {
    if s != "" && IsBlank(s[0]) then 1 + CountBlanks(s[1..]) else 0
  }

  /** A pattern letter in any case; the long s folds to s. */
  predicate Letter(s: string, i: nat, lower: char) {
    i < |s| && (s[i] == lower || (s[i] as int == lower as int - 32 && 'a' <= lower <= 'z') || (lower == 's' && s[i] == '\U{17F}'))
  }

  /** The length of the day unit at the front: days before day before d. */
  function DayUnit(s: string): (n: nat)
    ensures n <= |s|
  {
    if !Letter(s, 0, 'd') then 0
    else if !(Letter(s, 1, 'a') && Letter(s, 2, 'y')) then 1
    else if !Letter(s, 3, 's') then 3
    else 4
  }

  /** The numeral, the blanks and the unit of a match at the front of a text. */
  datatype Match = Match(whole: string, frac: string, length: nat)

  /** Blanks and a unit after a numeral of n characters. */
  function MatchUnit(whole: string, frac: string, n: nat, tail: string): (m: Option<Match>)
    ensures m.Some? ==> n < m.value.length <= n + |tail| && m.value.whole == whole && m.value.frac == frac
  {
    var k := CountBlanks(tail);
    var u := DayUnit(tail[k..]);
    if u == 0 then None else Some(Match(whole, frac, n + k + u))
  }

  function MatchDay(s: string): (m: Option<Match>)
    ensures m.Some? ==> 0 < m.value.length <= |s| && Digits(m.value.whole) && Digits(m.value.frac)
  {
    var p := Split(s);
    if p.whole == "" then None
    else
      var n := if p.frac == "" then |p.whole| else |p.whole| + 1 + |p.frac|;
      MatchUnit(p.whole, p.frac, n, s[n..])
  }

  /** strconv.FormatFloat with as few digits as the value needs, for mant / 10^places. */
  function Shortest(mant: nat, places: nat): string {
    var (m, p) := Strip(mant, places);
    NatText(Over(m, Pow10(p))) + (if p > 0 then "." else "") + Padded(m % Pow10(p), p)
  }

  /** The hours that a match is replaced by. */
  function Hours(m: Match): string
    requires Digits(m.whole) && Digits(m.frac)
  {
    ValueConcat(m.whole, m.frac);
    Shortest(DecimalValue(m.whole + m.frac) * 24, |m.frac|) + "h"
  }

  /** All matches from the left are replaced. */
  function Rewrite(s: string): string {
    if s == "" then "" else
      var m := MatchDay(s);
      if m.Some? then Hours(m.value) + Rewrite(s[m.value.length..]) else [s[0]] + Rewrite(s[1..])
  }

  // ----- time.ParseDuration ------------------------------------------------------------------------

  const SECOND: nat := 1_000_000_000
  const HOUR: nat := 3600 * SECOND
  const LIMIT: nat := 0x8000_0000_0000_0000

  /** ns, us (also with the micro sign or a mu), ms, s, m and h. */
  function UnitNs(u: string): Option<nat> {
    if |u| == 1 then
      if u[0] == 's' then Some(SECOND) else if u[0] == 'm' then Some(60 * SECOND) else if u[0] == 'h' then Some(HOUR) else None
    else if |u| == 2 && u[1] == 's' then
      if u[0] == 'n' then Some(1)
      else if u[0] == 'u' || u[0] == '\U{B5}' || u[0] == '\U{3BC}' then Some(1000)
      else if u[0] == 'm' then Some(1000_000)
      else None
    else None
  }

  /** The length of a unit: up to the next digit or point. */
  function CountUnit(s: string): (n: nat)
    ensures n <= |s|
  {
    if s != "" && s[0] != '.' && !IsDigit(s[0]) then 1 + CountUnit(s[1..]) else 0
  }

  /** One term: a numeral, a unit in nanoseconds, and the text after it. */
  datatype Token = Token(whole: string, frac: string, unit: nat, rest: string)

  function FirstToken(s: string): (t: Option<Token>)
    ensures t.Some? ==> |t.value.rest| < |s| && Digits(t.value.whole) && Digits(t.value.frac)
  {
    var p := Split(s);
    if p.whole + p.frac == "" then None
    else
      var u := CountUnit(p.rest);
      if u == 0 then None
      else match UnitNs(p.rest[..u])
        case None => None
        case Some(unit) => Some(Token(p.whole, p.frac, unit, p.rest[u..]))
  }

  /** Nanoseconds of the whole part and of the fraction, which is truncated. */
  function WholeNs(t: Token): nat
    requires Digits(t.whole)
  {
    Product(DecimalValue(t.whole), t.unit)
  }

  function FracNs(t: Token): nat
    requires Digits(t.frac)
  {
    Over(Product(DecimalValue(t.frac), t.unit), Pow10(|t.frac|))
  }

  /** The loop over terms, with its overflow checks; d is the sum so far. */
  function Terms(s: string, d: nat): Option<nat>
    decreases |s|
  {
    if s == "" then Some(d)
    else match FirstToken(s)
      case None => None
      case Some(t) =>
        if DecimalValue(t.whole) > LIMIT || WholeNs(t) > LIMIT || WholeNs(t) + FracNs(t) > LIMIT then None
        else if d + WholeNs(t) + FracNs(t) > LIMIT then None
        else Terms(t.rest, d + WholeNs(t) + FracNs(t))
  }

  predicate Sign(s: string) {
    s == "" || s == "+" || s == "-"
  }

  predicate HasSign(s: string) {
    s != "" && (s[0] == '-' || s[0] == '+')
  }

  function ParseStandard(s: string): Option<int> {
    var body := if HasSign(s) then s[1..] else s;
    if body == "0" then Some(0)
    else if body == "" then None
    else match Terms(body, 0)
      case None => None
      case Some(d) =>
        var n: int := d;
        if HasSign(s) && s[0] == '-' then Some(-n) else if d >= LIMIT then None else Some(n)
  }

  function ParseDuration(s: string): Option<int> {
    ParseStandard(Rewrite(s))
  }

  // ----- Terms -------------------------------------------------------------------------------------

  datatype Unit = Standard(name: string) | Day(blanks: string, name: string)

  /** Tab, line feed, form feed, carriage return and space. */
  predicate WhiteSpace(s: string) {
    forall i :: 0 <= i < |s| ==> s[i] as int == 9 || s[i] as int == 10 || s[i] as int == 12 || s[i] as int == 13 || s[i] as int == 32
  }

  /** The names of the day: d, day and days, each letter in either case. The long s counts as an s. */
  predicate IsDayName(s: string) {
    || (|s| == 1 && IsD(s[0]))
    || (|s| == 3 && IsD(s[0]) && (s[1] == 'a' || s[1] == 'A') && (s[2] == 'y' || s[2] == 'Y'))
    || (|s| == 4 && IsD(s[0]) && (s[1] == 'a' || s[1] == 'A') && (s[2] == 'y' || s[2] == 'Y')
        && (s[3] == 's' || s[3] == 'S' || s[3] as int == 0x17F))
  }

  predicate IsD(c: char) {
    c == 'd' || c == 'D'
  }

  /** The standard units by name, in nanoseconds; microseconds with a u, a micro sign or a mu. */
  function NsOf(name: string): Option<nat> {
    if name == "ns" then Some(1)
    else if name == "us" || name == "\U{B5}s" || name == "\U{3BC}s" then Some(1_000)
    else if name == "ms" then Some(1_000_000)
    else if name == "s" then Some(1_000_000_000)
    else if name == "m" then Some(60_000_000_000)
    else if name == "h" then Some(3_600_000_000_000)
    else None
  }

  /** These are the units that ParseDuration knows. */
  lemma UnitNames(u: string)
    ensures UnitNs(u) == NsOf(u)
  {
    assert HOUR == 3_600_000_000_000 && SECOND == 1_000_000_000;
    if |u| == 1 {
      assert u == [u[0]];
    } else if |u| == 2 {
      assert u == [u[0], u[1]];
    }
  }

  /** These are the day units of the pattern, and it knows no other. */
  lemma DayNames(s: string)
    ensures s != "" && DayUnit(s) == |s| <==> IsDayName(s)
  {
  }

  lemma WhiteSpaceIsBlank(s: string)
    ensures Blank(s) <==> WhiteSpace(s)
  {
    hide IsBlank;
    forall c: char ensures IsBlank(c) <==> c as int == 9 || c as int == 10 || c as int == 12 || c as int == 13 || c as int == 32 {
      BlankCodes(c);
    }
  }

  lemma BlankCodes(c: char)
    ensures IsBlank(c) <==> c as int == 9 || c as int == 10 || c as int == 12 || c as int == 13 || c as int == 32
  {
  }

  /** A numeral that starts with a digit, and its unit. */
  datatype Term = Term(whole: string, point: bool, frac: string, unit: Unit)

  predicate Valid(t: Term) {
    && t.whole != "" && Digits(t.whole) && Digits(t.frac) && (!t.point ==> t.frac == "")
    && match t.unit
       case Standard(name) => NsOf(name).Some?
       case Day(blanks, name) => (t.point ==> t.frac != "") && WhiteSpace(blanks) && IsDayName(name)
  }

  predicate AllValid(ts: seq<Term>) {
    forall i :: 0 <= i < |ts| ==> Valid(ts[i])
  }

  function UnitText(u: Unit): string {
    if u.Standard? then u.name else u.blanks + u.name
  }

  function TermText(t: Term): string {
    t.whole + (if t.point then "." else "") + t.frac + UnitText(t.unit)
  }

  function Text(ts: seq<Term>): string {
    if ts == [] then "" else TermText(ts[0]) + Text(ts[1..])
  }

  /** A day has 24 hours. */
  function NsPerUnit(u: Unit): nat {
    match u
    case Standard(name) => if NsOf(name).Some? then NsOf(name).value else 0
    case Day(_, _) => 86_400_000_000_000
  }

  /** Numeral times unit, truncated to whole nanoseconds. */
  function TermNs(t: Term): nat
    requires Digits(t.whole) && Digits(t.frac)
  {
    ValueConcat(t.whole, t.frac);
    Over(Product(DecimalValue(t.whole + t.frac), NsPerUnit(t.unit)), Pow10(|t.frac|))
  }

  function Sum(ts: seq<Term>): nat
    requires AllValid(ts)
  {
    if ts == [] then 0 else
      assert AllValid(ts[1..]);
      TermNs(ts[0]) + Sum(ts[1..])
  }

  /** The same term in hours. */
  function InHours(t: Term): Term
    requires Digits(t.whole) && Digits(t.frac)
  {
    if t.unit.Standard? then t else
      ValueConcat(t.whole, t.frac);
      var (m, p) := Strip(DecimalValue(t.whole + t.frac) * 24, |t.frac|);
      Term(NatText(Over(m, Pow10(p))), p > 0, Padded(m % Pow10(p), p), Standard("h"))
  }

  function AllInHours(ts: seq<Term>): seq<Term>
    requires AllValid(ts)
  {
    if ts == [] then [] else
      assert AllValid(ts[1..]);
      [InHours(ts[0])] + AllInHours(ts[1..])
  }

  // ----- What rewriting does to terms --------------------------------------------------------------

  /** What follows a term: nothing, or another term. */
  predicate Follow(rest: string) {
    rest == "" || IsDigit(rest[0])
  }

  lemma {:induction false} CountBlanksAt(b: string, rest: string)
    requires Blank(b) && (rest == "" || !IsBlank(rest[0]))
    ensures CountBlanks(b + rest) == |b|
  {
    if b == "" {
      assert b + rest == rest;
    } else {
      assert (b + rest)[1..] == b[1..] + rest;
      CountBlanksAt(b[1..], rest);
    }
  }

  /** A day unit in front of nothing or of a digit ends where it ends. */
  lemma DayUnitAt(name: string, rest: string)
    requires IsDayName(name) && Follow(rest)
    ensures DayUnit(name + rest) == |name| && !IsBlank(name[0]) && !IsDigit(name[0]) && name[0] != '.'
  {
    var s := name + rest;
    assert forall i :: 0 <= i < |name| ==> s[i] == name[i];
    assert |name| < |s| ==> s[|name|] == rest[0];
  }

  lemma MatchUnitAt(whole: string, frac: string, n: nat, blanks: string, name: string, rest: string)
    requires Blank(blanks) && IsDayName(name) && Follow(rest)
    ensures MatchUnit(whole, frac, n, blanks + (name + rest)) == Some(Match(whole, frac, n + |blanks| + |name|))
  {
    DayUnitAt(name, rest);
    CountBlanksAt(blanks, name + rest);
    assert (blanks + (name + rest))[|blanks|..] == name + rest;
  }

  lemma MatchTerm(t: Term, rest: string)
    requires Valid(t) && t.unit.Day? && Follow(rest)
    ensures MatchDay(TermText(t) + rest) == Some(Match(t.whole, t.frac, |TermText(t)|))
  {
    hide Split, MatchUnit, CountBlanks, DayUnit;
    var numeral := t.whole + (if t.point then "." else "") + t.frac;
    var tail := t.unit.blanks + (t.unit.name + rest);
    assert TermText(t) + rest == numeral + tail;
    assert (numeral + tail)[|numeral|..] == tail;
    DayUnitAt(t.unit.name, rest);
    assert tail[0] == if t.unit.blanks == "" then t.unit.name[0] else t.unit.blanks[0];
    SplitOf(t.whole, t.point, t.frac, tail);
    MatchUnitAt(t.whole, t.frac, |numeral|, t.unit.blanks, t.unit.name, rest);
  }

  /** A text that starts with no digit, or whose numeral is followed by no day unit, has no match at its front. */
  lemma NoMatchFront(whole: string, point: bool, frac: string, rest: string)
    requires Digits(whole) && Digits(frac) && (!point ==> frac == "")
    requires rest != "" && !IsDigit(rest[0]) && rest[0] != '.' && !IsBlank(rest[0]) && !Letter(rest, 0, 'd')
    ensures MatchDay(whole + (if point then "." else "") + frac + rest) == None
  {
    var s := whole + (if point then "." else "") + frac + rest;
    SplitOf(whole, point, frac, rest);
    if frac == "" && point {
      assert s[|whole|..][0] == '.';
    } else {
      assert s[|whole| + (if point then 1 else 0) + |frac|..] == rest;
    }
  }

  lemma UnitStart(name: string, rest: string)
    requires UnitNs(name).Some?
    ensures name != "" && |name| <= 2
    ensures forall i :: 0 <= i < |name| ==> !IsDigit(name[i]) && name[i] != '.' && !IsBlank(name[i]) && !Letter(name, i, 'd')
    ensures forall i :: 0 <= i < |name| ==> name[i] != 'e' && name[i] != 'E' && name[i] != '+' && name[i] != '-'
  {
  }

  lemma RewriteStep(s: string)
    requires s != "" && MatchDay(s) == None
    ensures Rewrite(s) == [s[0]] + Rewrite(s[1..])
  {
  }

  /** Text in which no match starts stays. */
  lemma {:induction false} RewriteSkips(s: string, j: nat, k: nat)
    requires j <= k <= |s| && forall i :: j <= i < k ==> MatchDay(s[i..]) == None
    ensures Rewrite(s[j..]) == s[j..k] + Rewrite(s[k..])
    decreases k - j
  {
    hide MatchDay, Rewrite;
    if j < k {
      RewriteStep(s[j..]);
      assert s[j..][1..] == s[j + 1..];
      RewriteSkips(s, j + 1, k);
      assert s[j..k] == [s[j]] + s[j + 1..k];
    }
  }

  lemma RewriteSkipsFront(p: string, rest: string)
    requires forall i :: 0 <= i < |p| ==> MatchDay((p + rest)[i..]) == None
    ensures Rewrite(p + rest) == p + Rewrite(rest)
  {
    RewriteSkips(p + rest, 0, |p|);
    assert (p + rest)[0..] == p + rest && (p + rest)[|p|..] == rest && (p + rest)[0..|p|] == p;
  }

  /** No match starts inside a term with a standard unit. */
  lemma NoMatchInside(t: Term, rest: string, i: nat)
    requires Valid(t) && t.unit.Standard? && i < |TermText(t)|
    ensures MatchDay((TermText(t) + rest)[i..]) == None
  {
    var name := t.unit.name;
    UnitStart(name, rest);
    var s := (TermText(t) + rest)[i..];
    var w := |t.whole|;
    var n := w + (if t.point then 1 else 0) + |t.frac|;
    if i < w {
      assert s == t.whole[i..] + (if t.point then "." else "") + t.frac + (name + rest);
      NoMatchFront(t.whole[i..], t.point, t.frac, name + rest);
    } else if t.point && i == w {
      assert s[0] == '.';
    } else if i < n {
      var j := i - w - 1;
      assert s == t.frac[j..] + "" + "" + (name + rest);
      NoMatchFront(t.frac[j..], false, "", name + rest);
    } else {
      assert s[0] == name[i - n];
    }
  }

  lemma RewriteTerm(t: Term, rest: string)
    requires Valid(t) && Follow(rest)
    ensures Rewrite(TermText(t) + rest) == TermText(InHours(t)) + Rewrite(rest)
  {
    if t.unit.Standard? {
      forall i | 0 <= i < |TermText(t)| ensures MatchDay((TermText(t) + rest)[i..]) == None {
        NoMatchInside(t, rest, i);
      }
      RewriteSkipsFront(TermText(t), rest);
    } else {
      MatchTerm(t, rest);
      var s := TermText(t) + rest;
      assert s[|TermText(t)|..] == rest;
      HoursText(t, |TermText(t)|);
    }
  }

  lemma HoursText(t: Term, length: nat)
    requires Valid(t) && t.unit.Day?
    ensures Hours(Match(t.whole, t.frac, length)) == TermText(InHours(t))
  {
  }

  lemma TextFollows(ts: seq<Term>)
    requires AllValid(ts)
    ensures Follow(Text(ts))
  {
    if ts != [] {
      assert Valid(ts[0]);
      assert Text(ts)[0] == ts[0].whole[0];
    }
  }

  /** Rewriting works term by term: boundaries stay where they are, and only day terms change. */
  lemma {:induction false} RewriteTerms(ts: seq<Term>)
    requires AllValid(ts)
    ensures Rewrite(Text(ts)) == Text(AllInHours(ts))
  {
    if ts != [] {
      assert AllValid(ts[1..]) && Valid(ts[0]);
      TextFollows(ts[1..]);
      RewriteTerm(ts[0], Text(ts[1..]));
      RewriteTerms(ts[1..]);
      assert AllInHours(ts)[0] == InHours(ts[0]) && AllInHours(ts)[1..] == AllInHours(ts[1..]);
    }
  }

  /** A term in hours lasts as long as it did. */
  lemma HoursKeepTime(t: Term)
    requires Valid(t)
    ensures Valid(InHours(t)) && TermNs(InHours(t)) == TermNs(t)
  {
    if t.unit.Day? {
      ValueConcat(t.whole, t.frac);
      var mant := DecimalValue(t.whole + t.frac);
      var (m, p) := Strip(mant * 24, |t.frac|);
      StripKeepsValue(mant * 24, |t.frac|, HOUR);
      HoursValue(m, p);
      DayIsHours(mant);
    }
  }

  lemma DayIsHours(mant: nat)
    ensures Product(mant * 24, HOUR) == Product(mant, 24 * HOUR)
  {
  }

  lemma HoursValue(m: nat, p: nat)
    ensures var w, f := NatText(Over(m, Pow10(p))), Padded(m % Pow10(p), p);
            Digits(w + f) && DecimalValue(w + f) == m
  {
    var w, f := NatText(Over(m, Pow10(p))), Padded(m % Pow10(p), p);
    NatTextValue(Over(m, Pow10(p)));
    PaddedValue(m % Pow10(p), p);
    ValueConcat(w, f);
    Recombine(m, Pow10(p));
  }

  lemma Recombine(m: nat, p: nat)
    requires p > 0
    ensures Over(m, p) * p + m % p == m
  {
  }

  lemma {:induction false} EachInHours(ts: seq<Term>)
    requires AllValid(ts)
    ensures |AllInHours(ts)| == |ts| && forall i :: 0 <= i < |ts| ==> AllInHours(ts)[i] == InHours(ts[i])
  {
    if ts != [] {
      assert AllValid(ts[1..]);
      EachInHours(ts[1..]);
    }
  }

  lemma HoursAreStandard(ts: seq<Term>)
    requires AllValid(ts)
    ensures AllValid(AllInHours(ts)) && forall i :: 0 <= i < |ts| ==> i < |AllInHours(ts)| && AllInHours(ts)[i].unit.Standard?
    ensures |AllInHours(ts)| == |ts|
  {
    EachInHours(ts);
    forall i | 0 <= i < |ts| ensures Valid(AllInHours(ts)[i]) && AllInHours(ts)[i].unit.Standard? {
      HoursKeepTime(ts[i]);
    }
  }

  lemma {:induction false} HoursKeepSum(ts: seq<Term>)
    requires AllValid(ts)
    ensures AllValid(AllInHours(ts)) && Sum(AllInHours(ts)) == Sum(ts)
  {
    HoursAreStandard(ts);
    if ts != [] {
      assert AllValid(ts[1..]) && Valid(ts[0]);
      HoursKeepTime(ts[0]);
      HoursKeepSum(ts[1..]);
      assert AllInHours(ts)[1..] == AllInHours(ts[1..]);
    }
  }

  // ----- What ParseDuration reads ------------------------------------------------------------------

  lemma {:induction false} CountUnitAt(name: string, rest: string)
    requires (forall i :: 0 <= i < |name| ==> !IsDigit(name[i]) && name[i] != '.') && Follow(rest)
    ensures CountUnit(name + rest) == |name|
  {
    if name == "" {
      assert name + rest == rest;
    } else {
      assert (name + rest)[1..] == name[1..] + rest;
      CountUnitAt(name[1..], rest);
    }
  }

  lemma ReadTerm(t: Term, rest: string)
    requires Valid(t) && t.unit.Standard? && Follow(rest)
    ensures FirstToken(TermText(t) + rest) == Some(Token(t.whole, t.frac, NsPerUnit(t.unit), rest))
  {
    var name := t.unit.name;
    hide Split, CountUnit, UnitNs, NsOf;
    UnitNames(name);
    UnitStart(name, rest);
    assert TermText(t) + rest == t.whole + (if t.point then "." else "") + t.frac + (name + rest);
    SplitOf(t.whole, t.point, t.frac, name + rest);
    CountUnitAt(name, rest);
    assert (name + rest)[..|name|] == name && (name + rest)[|name|..] == rest;
  }

  /** Whole part and fraction of a term make up its time. */
  lemma TokenTime(t: Term, rest: string)
    requires Valid(t)
    ensures var k := Token(t.whole, t.frac, NsPerUnit(t.unit), rest); WholeNs(k) + FracNs(k) == TermNs(t)
    ensures NsPerUnit(t.unit) > 0 && DecimalValue(t.whole) <= WholeNs(Token(t.whole, t.frac, NsPerUnit(t.unit), rest))
  {
    ValueConcat(t.whole, t.frac);
    PartsTimes(DecimalValue(t.whole), DecimalValue(t.frac), NsPerUnit(t.unit), Pow10(|t.frac|));
    AtLeast(DecimalValue(t.whole), NsPerUnit(t.unit));
  }

  lemma AtLeast(a: nat, k: nat)
    requires k > 0
    ensures a <= Product(a, k)
  {
  }

  lemma TermsStep(s: string, d: nat, t: Token, n: nat)
    requires s != "" && FirstToken(s) == Some(t) && WholeNs(t) + FracNs(t) == n && DecimalValue(t.whole) <= n
    ensures Terms(s, d) == if d + n <= LIMIT then Terms(t.rest, d + n) else None
  {
    hide FirstToken, WholeNs, FracNs;
  }

  predicate AllStandard(ts: seq<Term>) {
    forall i :: 0 <= i < |ts| ==> ts[i].unit.Standard?
  }

  /** The loop adds the terms up, and gives up exactly when the sum leaves the range. */
  lemma {:induction false} ReadTerms(ts: seq<Term>, d: nat)
    requires AllValid(ts) && d <= LIMIT && AllStandard(ts)
    ensures Terms(Text(ts), d) == if d + Sum(ts) <= LIMIT then Some(d + Sum(ts)) else None
    decreases |ts|
  {
    hide FirstToken, TermNs, TermText;
    if ts != [] {
      assert AllValid(ts[1..]) && AllStandard(ts[1..]) && Valid(ts[0]);
      TextFollows(ts[1..]);
      ReadFirst(ts[0], Text(ts[1..]), d);
      if d + TermNs(ts[0]) <= LIMIT {
        ReadTerms(ts[1..], d + TermNs(ts[0]));
      }
    }
  }

  lemma ReadFirst(t: Term, rest: string, d: nat)
    requires Valid(t) && t.unit.Standard? && Follow(rest)
    ensures Terms(TermText(t) + rest, d) == if d + TermNs(t) <= LIMIT then Terms(rest, d + TermNs(t)) else None
  {
    ReadTerm(t, rest);
    TokenTime(t, rest);
    TermsStep(TermText(t) + rest, d, Token(t.whole, t.frac, NsPerUnit(t.unit), rest), TermNs(t));
  }

  /** A number of nanoseconds with a sign, if the 64 bits of a time.Duration can hold it. */
  function WithSign(sign: string, n: nat): Option<int> {
    var i: int := n;
    if sign == "-" then (if n <= 9223372036854775808 then Some(-i) else None) else if n <= 9223372036854775807 then Some(i) else None
  }

  lemma ReadSigned(sign: string, body: string, n: nat)
    requires Sign(sign) && |body| >= 2 && !HasSign(body)
    requires Terms(body, 0) == if n <= LIMIT then Some(n) else None
    ensures ParseStandard(sign + body) == WithSign(sign, n)
  {
    hide Terms;
    if sign == "" {
      assert sign + body == body;
    } else {
      assert (sign + body)[1..] == body;
    }
  }

  lemma ReadStandard(sign: string, ts: seq<Term>)
    requires Sign(sign) && ts != [] && AllValid(ts) && AllStandard(ts)
    ensures ParseStandard(sign + Text(ts)) == WithSign(sign, Sum(ts))
  {
    hide *;
    TextStarts(ts);
    ReadTerms(ts, 0);
    ReadSigned(sign, Text(ts), Sum(ts));
  }

  lemma TextStarts(ts: seq<Term>)
    requires ts != [] && AllValid(ts)
    ensures |Text(ts)| >= 2 && !HasSign(Text(ts))
  {
    var t := ts[0];
    assert Valid(t) && Text(ts)[0] == t.whole[0];
    if t.unit.Standard? {
      UnitStart(t.unit.name, "");
    }
    assert |TermText(t)| >= 2;
  }

  /** Any sequence of terms, days among them, in front of a sign or none: parseDuration answers the sum of its
      terms with 24 hours to the day, or an error when the sum does not fit. */
  lemma DaysAreHours(sign: string, ts: seq<Term>)
    requires sign in {"", "+", "-"} && ts != [] && AllValid(ts)
    ensures ParseDuration(sign + Text(ts)) == WithSign(sign, Sum(ts))
  {
    HoursKeepSum(ts);
    HoursAreStandard(ts);
    RewriteTerms(ts);
    ReadStandard(sign, AllInHours(ts));
    if sign == "" {
      assert sign + Text(ts) == Text(ts) && sign + Text(AllInHours(ts)) == Text(AllInHours(ts));
    } else {
      forall i | 0 <= i < |sign| ensures MatchDay((sign + Text(ts))[i..]) == None {
        assert (sign + Text(ts))[0..] == sign + Text(ts);
        NoMatchSign(sign + Text(ts));
      }
      RewriteSkipsFront(sign, Text(ts));
    }
  }

  lemma NoMatchSign(s: string)
    requires s == "" || !IsDigit(s[0])
    ensures MatchDay(s) == None
  {
  }

  // ----- One numeral and any unit ------------------------------------------------------------------

  /** Neither digits nor points, so a unit to its end. */
  predicate UnitOnly(u: string) {
    forall i :: 0 <= i < |u| ==> !IsDigit(u[i]) && u[i] != '.'
  }

  /** A day in this text: blanks, and one of its names. */
  predicate DayText(u: string) {
    exists k :: 0 <= k <= |u| && WhiteSpace(u[..k]) && IsDayName(u[k..])
  }

  /** How long a unit lasts behind a numeral; a point right in front of it keeps a day from being one. */
  predicate Lasts(u: string, barePoint: bool, ns: nat) {
    NsOf(u) == Some(ns) || (!barePoint && DayText(u) && ns == 86_400_000_000_000)
  }

  function NumeralText(whole: string, point: bool, frac: string): string {
    whole + (if point then "." else "") + frac
  }

  predicate IsNumeral(whole: string, point: bool, frac: string) {
    whole != "" && Digits(whole) && Digits(frac) && (!point ==> frac == "")
  }

  /** A numeral and a unit: the truncated product, if a time.Duration can hold it. */
  lemma KnownUnit(sign: string, whole: string, point: bool, frac: string, u: string, ns: nat) returns (t: nat)
    requires sign in {"", "+", "-"} && IsNumeral(whole, point, frac) && Lasts(u, point && frac == "", ns)
    ensures Digits(whole + frac) && t * Pow10(|frac|) <= DecimalValue(whole + frac) * ns < (t + 1) * Pow10(|frac|)
    ensures ParseDuration(sign + (NumeralText(whole, point, frac) + u)) == WithSign(sign, t)
  {
    hide ParseDuration, WithSign;
    var unit := UnitOf(u, point && frac == "", ns);
    var one := Term(whole, point, frac, unit);
    ValueConcat(whole, frac);
    t := TermNs(one);
    FloorIs(DecimalValue(whole + frac) * ns, Pow10(|frac|));
    OneTerm(one);
    DaysAreHours(sign, [one]);
    assert NumeralText(whole, point, frac) + u == TermText(one);
  }

  lemma UnitOf(u: string, barePoint: bool, ns: nat) returns (unit: Unit)
    requires Lasts(u, barePoint, ns)
    ensures UnitText(unit) == u && NsPerUnit(unit) == ns
    ensures match unit
            case Standard(name) => NsOf(name).Some?
            case Day(blanks, name) => !barePoint && WhiteSpace(blanks) && IsDayName(name)
  {
    if NsOf(u) == Some(ns) {
      unit := Standard(u);
    } else {
      var k :| 0 <= k <= |u| && WhiteSpace(u[..k]) && IsDayName(u[k..]);
      unit := Day(u[..k], u[k..]);
      assert u[..k] + u[k..] == u;
    }
  }

  lemma OneTerm(t: Term)
    requires Valid(t)
    ensures AllValid([t]) && Text([t]) == TermText(t) && Sum([t]) == TermNs(t)
  {
    assert [t][1..] == [];
    assert TermText(t) + "" == TermText(t);
  }

  /** Behind a numeral nothing else is a unit. */
  lemma UnknownUnit(sign: string, whole: string, point: bool, frac: string, u: string)
    requires sign in {"", "+", "-"} && IsNumeral(whole, point, frac) && u != "" && UnitOnly(u)
    requires NsOf(u) == None && (DayText(u) ==> point && frac == "")
    ensures ParseDuration(sign + (NumeralText(whole, point, frac) + u)) == None
  {
    hide Rewrite, MatchDay, Terms;
    var s := NumeralText(whole, point, frac) + u;
    var body := Rewrite(s);
    RewriteAnyUnit(whole, point, frac, u);
    SignStays(sign, s);
    if sign != "" {
      assert (sign + body)[1..] == body;
    } else {
      assert sign + body == body;
    }
  }

  lemma SignStays(sign: string, s: string)
    requires Sign(sign)
    ensures Rewrite(sign + s) == sign + Rewrite(s)
  {
    hide Rewrite, MatchDay;
    if sign == "" {
      assert sign + s == s && sign + Rewrite(s) == Rewrite(s);
    } else {
      forall i | 0 <= i < |sign| ensures MatchDay((sign + s)[i..]) == None {
        assert (sign + s)[0..] == sign + s;
        NoMatchSign(sign + s);
      }
      RewriteSkipsFront(sign, s);
    }
  }

  /** What comes out of the rewriting is refused. */
  lemma RewriteAnyUnit(whole: string, point: bool, frac: string, u: string)
    requires IsNumeral(whole, point, frac) && u != "" && UnitOnly(u)
    requires NsOf(u) == None && (DayText(u) ==> point && frac == "")
    ensures var body := Rewrite(NumeralText(whole, point, frac) + u); Terms(body, 0) == None && |body| >= 2 && !HasSign(body)
  {
    hide *;
    var s := NumeralText(whole, point, frac) + u;
    var k := CountBlanks(u);
    var d := DayUnit(u[k..]);
    if d == 0 || (point && frac == "") {
      forall i | 0 <= i < |s| ensures MatchDay(s[i..]) == None {
        NoMatchAt(whole, point, frac, u, i);
      }
      RewriteUnchangedIff(s);
      assert Rewrite(s) == s;
      UnknownToken(whole, point, frac, u);
    } else {
      var rest := u[k + d..];
      assert u[k..][d..] == rest;
      DayEndsBefore(u);
      LaterUnit(u, k + d);
      MatchAnyUnit(whole, point, frac, u);
      var m := Match(whole, frac, |NumeralText(whole, point, frac)| + k + d);
      assert s[m.length..] == rest;
      NoDigitsStay(rest);
      RewriteMatch(s, m);
      HoursBefore(m, rest);
    }
  }

  lemma RewriteMatch(s: string, m: Match)
    requires MatchDay(s) == Some(m)
    ensures Rewrite(s) == Hours(m) + Rewrite(s[m.length..])
  {
  }

  lemma NoDigitsStay(s: string)
    requires UnitOnly(s)
    ensures Rewrite(s) == s
  {
    hide MatchDay;
    forall i | 0 <= i < |s| ensures MatchDay(s[i..]) == None {
      NoMatchSign(s[i..]);
    }
    RewriteUnchangedIff(s);
  }

  lemma {:induction false} CountedBlanks(s: string)
    ensures Blank(s[..CountBlanks(s)])
  {
    if s != "" && IsBlank(s[0]) {
      CountedBlanks(s[1..]);
      assert s[..CountBlanks(s)] == [s[0]] + s[1..][..CountBlanks(s) - 1];
    }
  }

  /** If the pattern takes all of u, u is the text of a day. */
  lemma DayEndsBefore(u: string)
    requires var k := CountBlanks(u); DayUnit(u[k..]) > 0 && !DayText(u)
    ensures CountBlanks(u) + DayUnit(u[CountBlanks(u)..]) < |u|
  {
    hide CountBlanks, DayUnit;
    var k := CountBlanks(u);
    if k + DayUnit(u[k..]) == |u| {
      CountedBlanks(u);
      WhiteSpaceIsBlank(u[..k]);
      DayNames(u[k..]);
      assert false;
    }
  }

  lemma LaterUnit(u: string, k: nat)
    requires UnitOnly(u) && k <= |u|
    ensures UnitOnly(u[k..])
  {
  }

  lemma MatchAnyUnit(whole: string, point: bool, frac: string, u: string)
    requires IsNumeral(whole, point, frac) && UnitOnly(u) && (point ==> frac != "")
    requires var k := CountBlanks(u); DayUnit(u[k..]) > 0
    ensures var k := CountBlanks(u);
            MatchDay(NumeralText(whole, point, frac) + u) == Some(Match(whole, frac, |NumeralText(whole, point, frac)| + k + DayUnit(u[k..])))
  {
    hide CountBlanks, DayUnit, Split;
    var n := NumeralText(whole, point, frac);
    SplitOf(whole, point, frac, u);
    assert (n + u)[|n|..] == u;
  }

  /** No match starts anywhere in a numeral with a unit that is no day. */
  lemma NoMatchAt(whole: string, point: bool, frac: string, u: string, i: nat)
    requires IsNumeral(whole, point, frac) && UnitOnly(u)
    requires DayUnit(u[CountBlanks(u)..]) == 0 || (point && frac == "")
    requires i < |NumeralText(whole, point, frac) + u|
    ensures MatchDay((NumeralText(whole, point, frac) + u)[i..]) == None
  {
    hide CountBlanks, DayUnit, Split, MatchDay;
    var s := (NumeralText(whole, point, frac) + u)[i..];
    var w := |whole|;
    var n := |NumeralText(whole, point, frac)|;
    if i < w {
      assert s == NumeralText(whole[i..], point, frac) + u;
      NoMatchHere(whole[i..], point, frac, u);
    } else if i >= n {
      assert s[0] == u[i - n];
      NoMatchSign(s);
    } else if i == w {
      assert s[0] == '.';
      NoMatchSign(s);
    } else {
      var f := frac[i - w - 1..];
      assert s == NumeralText(f, false, "") + u;
      NoMatchHere(f, false, "", u);
    }
  }

  lemma NoMatchHere(whole: string, point: bool, frac: string, u: string)
    requires Digits(whole) && Digits(frac) && (!point ==> frac == "") && UnitOnly(u)
    requires DayUnit(u[CountBlanks(u)..]) == 0 || (point && frac == "")
    ensures MatchDay(NumeralText(whole, point, frac) + u) == None
  {
    hide Split;
    var n := NumeralText(whole, point, frac);
    SplitOf(whole, point, frac, u);
    if point && frac == "" {
      assert (n + u)[|whole|..][0] == '.';
    } else {
      assert (n + u)[|n|..] == u;
    }
  }

  lemma {:induction false} CountUnitAll(u: string)
    requires UnitOnly(u)
    ensures CountUnit(u) == |u|
  {
    if u != "" {
      CountUnitAll(u[1..]);
    }
  }

  lemma UnknownToken(whole: string, point: bool, frac: string, u: string)
    requires IsNumeral(whole, point, frac) && u != "" && UnitOnly(u) && NsOf(u) == None
    ensures var s := NumeralText(whole, point, frac) + u; Terms(s, 0) == None && |s| >= 2 && !HasSign(s)
  {
    hide Split, UnitNs, NsOf;
    SplitOf(whole, point, frac, u);
    CountUnitAll(u);
    UnitNames(u);
    assert u[..|u|] == u;
    assert (NumeralText(whole, point, frac) + u)[0] == whole[0];
  }

  /** Hours with something behind their h are no unit. */
  lemma HoursBefore(m: Match, rest: string)
    requires Digits(m.whole) && Digits(m.frac) && rest != "" && UnitOnly(rest)
    ensures var s := Hours(m) + rest; Terms(s, 0) == None && |s| >= 2 && !HasSign(s)
  {
    hide Terms, Strip, NatText, Padded, DecimalValue;
    ValueConcat(m.whole, m.frac);
    var (v, p) := Strip(DecimalValue(m.whole + m.frac) * 24, |m.frac|);
    var u := "h" + rest;
    assert Hours(m) + rest == NumeralText(NatText(Over(v, Pow10(p))), p > 0, Padded(v % Pow10(p), p)) + u;
    assert UnitOnly(u) && u[0] == 'h';
    UnknownToken(NatText(Over(v, Pow10(p))), p > 0, Padded(v % Pow10(p), p), u);
  }

  // ----- Texts without days ------------------------------------------------------------------------

  function CountD(s: string): nat {
    if s == "" then 0 else (if IsD(s[0]) then 1 else 0) + CountD(s[1..])
  }

  lemma {:induction false} CountDConcat(a: string, b: string)
    ensures CountD(a + b) == CountD(a) + CountD(b)
  {
    if a == "" {
      assert a + b == b;
    } else {
      assert (a + b)[1..] == a[1..] + b;
      CountDConcat(a[1..], b);
    }
  }

  lemma {:induction false} CountDAt(s: string, i: nat)
    requires i < |s|
    ensures IsD(s[i]) ==> CountD(s) > 0
  {
    if i > 0 {
      CountDAt(s[1..], i - 1);
    }
  }

  lemma {:induction false} CountDNone(s: string)
    requires forall i :: 0 <= i < |s| ==> !IsD(s[i])
    ensures CountD(s) == 0
  {
    if s != "" {
      CountDNone(s[1..]);
    }
  }

  lemma MatchHasD(s: string)
    requires MatchDay(s).Some?
    ensures CountD(s[..MatchDay(s).value.length]) > 0
  {
    hide Split, CountBlanks;
    var p := Split(s);
    var n := if p.frac == "" then |p.whole| else |p.whole| + 1 + |p.frac|;
    var k := CountBlanks(s[n..]);
    assert s[n..][k..] == s[n + k..];
    assert IsD(s[n + k]);
    var front := s[..MatchDay(s).value.length];
    assert front[n + k] == s[n + k];
    CountDAt(front, n + k);
  }

  lemma HoursHaveNoD(m: Match)
    requires Digits(m.whole) && Digits(m.frac)
    ensures CountD(Hours(m)) == 0
  {
    hide Strip, NatText, Padded, DecimalValue;
    var text := Hours(m);
    assert forall i :: 0 <= i < |text| ==> IsDigit(text[i]) || text[i] == '.' || text[i] == 'h';
    CountDNone(text);
  }

  /** Rewriting takes a d out of the text for every match. */
  lemma {:induction false} RewriteLosesD(s: string)
    ensures CountD(Rewrite(s)) <= CountD(s)
    ensures CountD(Rewrite(s)) == CountD(s) ==> forall i :: 0 <= i < |s| ==> MatchDay(s[i..]) == None
    decreases |s|
  {
    hide MatchDay, Hours;
    if s != "" {
      var m := MatchDay(s);
      if m.Some? {
        var n := m.value.length;
        RewriteLosesD(s[n..]);
        MatchHasD(s);
        HoursHaveNoD(m.value);
        CountDConcat(Hours(m.value), Rewrite(s[n..]));
        CountDConcat(s[..n], s[n..]);
        assert s[..n] + s[n..] == s;
      } else {
        RewriteLosesD(s[1..]);
        CountDConcat([s[0]], Rewrite(s[1..]));
        assert [s[0]] + s[1..] == s;
        CountDConcat([s[0]], s[1..]);
        RestMatches(s);
      }
    }
  }

  lemma RestMatches(s: string)
    requires s != "" && MatchDay(s) == None
    ensures (forall i :: 0 <= i < |s[1..]| ==> MatchDay(s[1..][i..]) == None) ==> forall i :: 0 <= i < |s| ==> MatchDay(s[i..]) == None
  {
    hide MatchDay;
    if forall i :: 0 <= i < |s[1..]| ==> MatchDay(s[1..][i..]) == None {
      forall i | 0 <= i < |s| ensures MatchDay(s[i..]) == None {
        if i == 0 {
          assert s[0..] == s;
        } else {
          assert s[1..][i - 1..] == s[i..];
        }
      }
    }
  }

  /** A text stays as it is exactly when no day term starts anywhere in it. */
  lemma RewriteUnchangedIff(s: string)
    ensures Rewrite(s) == s <==> forall i :: 0 <= i < |s| ==> MatchDay(s[i..]) == None
  {
    hide MatchDay;
    RewriteLosesD(s);
    if forall i :: 0 <= i < |s| ==> MatchDay(s[i..]) == None {
      RewriteSkips(s, 0, |s|);
      assert s[0..] == s == s[0..|s|] && s[|s|..] == "";
    }
  }

  lemma NoDUnchanged(s: string)
    requires forall i :: 0 <= i < |s| ==> !IsD(s[i])
    ensures Rewrite(s) == s
  {
    CountDNone(s);
    RewriteLosesD(s);
    RewriteUnchangedIff(s);
  }

  // ----- Numerals that start with a point ----------------------------------------------------------

  lemma HourNs()
    ensures HOUR == 3_600_000_000_000
  {
  }

  lemma OverBounds(a: nat, p: nat, k: nat)
    requires p > 0
    ensures a >= p * k ==> Over(a, p) >= k
    ensures a < p * k ==> Over(a, p) < k
  {
    MultiplyLe(p, Over(a, p) + 1, k);
    MultiplyLe(p, k, Over(a, p));
  }

  /** What parseDuration makes of a point, digits and a d: the digits become hours by themselves. */
  lemma PointDays(frac: string)
    requires Digits(frac) && frac != ""
    ensures var hours := DecimalValue(frac) * 24;
            ParseDuration("." + frac + "d") == Some(Over(Product(hours, 3_600_000_000_000), Pow10(|NatText(hours)|)))
  {
    var hours := DecimalValue(frac) * 24;
    PointRewritten(frac);
    PointHours(NatText(hours));
    NatTextValue(hours);
  }

  lemma PointRewritten(frac: string)
    requires Digits(frac) && frac != ""
    ensures Rewrite("." + frac + "d") == "." + (NatText(DecimalValue(frac) * 24) + "h")
  {
    hide *;
    var t := Term(frac, false, "", Day("", "d"));
    var s := "." + frac + "d";
    PlainDay(frac);
    assert s[1..] == TermText(t) + "" && s[0] == '.';
    NoMatchPoint(s);
    RewriteStep(s);
    RewriteTerm(t, "");
    RewriteEmpty();
  }

  lemma NoMatchPoint(s: string)
    requires s != "" && s[0] == '.'
    ensures MatchDay(s) == None
  {
    NoMatchSign(s);
  }

  lemma RewriteEmpty()
    ensures Rewrite("") == "" && Follow("")
  {
  }

  lemma PlainDay(frac: string)
    requires Digits(frac) && frac != ""
    ensures var t := Term(frac, false, "", Day("", "d"));
            Valid(t) && TermText(t) == frac + "d" && TermText(InHours(t)) == NatText(DecimalValue(frac) * 24) + "h"
  {
    hide NatText, DecimalValue;
    assert frac + "" == frac;
    OverOne(DecimalValue(frac) * 24);
  }

  lemma OverOne(m: nat)
    ensures Over(m, Pow10(0)) == m
  {
  }

  lemma PointHours(f: string)
    requires Digits(f) && f != ""
    ensures ParseStandard("." + (f + "h")) == Some(Over(Product(DecimalValue(f), HOUR), Pow10(|f|)))
  {
    hide *;
    var s := "." + (f + "h");
    var n := Over(Product(DecimalValue(f), HOUR), Pow10(|f|));
    PointToken(f);
    PointTime(f);
    TermsStep(s, 0, Token("", f, HOUR, ""), n);
    TermsEnd(n);
    assert "" + s == s;
    NotSigned(s);
    ReadSigned("", s, n);
    WithinRange(n);
  }

  lemma PointToken(f: string)
    requires Digits(f) && f != ""
    ensures FirstToken("." + (f + "h")) == Some(Token("", f, HOUR, ""))
  {
    hide Split;
    assert "." + (f + "h") == "" + "." + f + "h";
    SplitOf("", true, f, "h");
    assert "h"[..1] == "h" && "h"[1..] == "";
  }

  lemma PointTime(f: string)
    requires Digits(f)
    ensures var t := Token("", f, HOUR, "");
            && WholeNs(t) + FracNs(t) == Over(Product(DecimalValue(f), HOUR), Pow10(|f|)) < HOUR
            && DecimalValue(t.whole) == 0
  {
    ValueBound(f);
    FractionOfHour(DecimalValue(f), Pow10(|f|));
  }

  lemma TermsEnd(n: nat)
    ensures Terms("", n) == Some(n)
  {
  }

  lemma NotSigned(s: string)
    requires s != "" && s[0] == '.'
    ensures !HasSign(s) && Sign("")
  {
  }

  lemma WithinRange(n: nat)
    requires n < HOUR
    ensures n <= LIMIT && WithSign("", n) == Some(n)
  {
  }

  lemma FractionOfHour(f: nat, p: nat)
    requires f < p
    ensures Over(Product(f, HOUR), p) < HOUR
  {
    assert Product(f, HOUR) < p * HOUR;
    OverBounds(Product(f, HOUR), p, HOUR);
  }

  /** Such a text means what it says exactly when the digits are zero or hours have as many digits as days. */
  lemma PointDaysIff(frac: string)
    requires Digits(frac) && frac != ""
    ensures ParseDuration("." + frac + "d") == Some(Over(Product(DecimalValue(frac), 86_400_000_000_000), Pow10(|frac|)))
        <==> DecimalValue(frac) == 0 || |NatText(DecimalValue(frac) * 24)| == |frac|
  {
    hide *;
    HourNs();
    var days := DecimalValue(frac);
    var hours := days * 24;
    PointDays(frac);
    DayIsHours(days);
    NatTextValue(hours);
    ValueBound(NatText(hours));
    if days == 0 {
      NothingOver(HOUR, |frac|);
      NothingOver(HOUR, |NatText(hours)|);
    } else {
      ScalesDiffer(hours, |NatText(hours)|, |frac|);
    }
  }

  lemma NothingOver(k: nat, places: nat)
    ensures Over(Product(0, k), Pow10(places)) == 0
  {
  }

  /** Read as a fraction of its own length, a number is at least a tenth; with fewer places it is at least one,
      with more it is less than a tenth. */
  lemma ScalesDiffer(h: nat, n: nat, places: nat)
    requires n > 0 && Pow10(n - 1) <= h < Pow10(n)
    ensures Over(Product(h, HOUR), Pow10(n)) == Over(Product(h, HOUR), Pow10(places)) <==> n == places
  {
    var x := Product(h, HOUR);
    var tenth := HOUR / 10;
    Scaled(h, Pow10(n - 1));
    OverBounds(x, Pow10(n), tenth);
    OverBounds(x, Pow10(n), HOUR);
    if places < n {
      Pow10Le(places, n - 1);
      MultiplyLe(HOUR, Pow10(places), Pow10(n - 1));
      OverBounds(x, Pow10(places), HOUR);
    } else if places > n {
      Pow10Le(n + 1, places);
      MultiplyLe(tenth, Pow10(n + 1), Pow10(places));
      OverBounds(x, Pow10(places), tenth);
    }
  }

  lemma Scaled(h: nat, p: nat)
    requires p <= h < 10 * p
    ensures 10 * p * (HOUR / 10) <= Product(h, HOUR) < 10 * p * HOUR
    ensures p * HOUR <= Product(h, HOUR) < 10 * (10 * p) * (HOUR / 10)
  {
    assert HOUR == 3_600_000_000_000 && HOUR / 10 == 360_000_000_000;
    assert Product(h, HOUR) == h * 3_600_000_000_000;
    assert 10 * p * (HOUR / 10) == p * 3_600_000_000_000 == p * HOUR;
    assert 10 * (10 * p) * (HOUR / 10) == 10 * p * HOUR == p * 36_000_000_000_000;
  }

  lemma {:induction false} Pow10Le(a: nat, b: nat)
    requires a <= b
    ensures Pow10(a) <= Pow10(b)
    decreases b
  {
    if a < b {
      Pow10Le(a, b - 1);
    }
  }

  // ----- Duration.UnmarshalYAML --------------------------------------------------------------------

  /** A duration first, a number of seconds second. */
  function Decode(s: string): Option<Amount> {
    match ParseDuration(s)
    case Some(d) => Some(Exactly(d))
    case None =>
      match ParseNumber(s)
      case None => None
      case Some(x) => Some(InRange(Truncated(x, SECOND)))
  }

  lemma NumeralHasNoUnit(body: string)
    requires body != "" && forall i :: 0 <= i < |body| ==> NumeralChar(body[i])
    ensures Terms(body, 0) == None
  {
    hide Split, CountUnit, UnitNs;
    var p := Split(body);
    var u := CountUnit(p.rest);
    NumeralRest(body);
    assert u > 0 ==> p.rest[..u][0] == p.rest[0];
    UnitNoNumeral(p.rest[..u]);
  }

  lemma NumeralRest(body: string)
    requires forall i :: 0 <= i < |body| ==> NumeralChar(body[i])
    ensures Split(body).rest != "" ==> NumeralChar(Split(body).rest[0])
  {
    hide Split, NumeralChar;
    SplitRebuilds(body);
    var p := Split(body);
    assert p.rest != "" ==> body[|body| - |p.rest|] == p.rest[0];
  }

  lemma UnitNoNumeral(u: string)
    ensures UnitNs(u).Some? ==> u != "" && (NumeralChar(u[0]) ==> false)
  {
  }

  /** A text that is both a numeral and a duration denotes zero either way. */
  lemma BothAreZero(s: string)
    requires ParseNumber(s).Some? && ParseDuration(s).Some?
    ensures ParseDuration(s) == Some(0) && ParseNumber(s).value.mant == 0
  {
    hide ParseNumber, Rewrite, Terms;
    NumberChars(s);
    NumeralsHaveNoD(s);
    NoDUnchanged(s);
    var sign, body := if HasSign(s) then s[..1] else "", if HasSign(s) then s[1..] else s;
    assert s == sign + body;
    if body != "" {
      NumeralHasNoUnit(body);
    }
    assert body == "0";
    ZeroNumeral(sign);
  }

  lemma NumeralsHaveNoD(s: string)
    requires forall i :: 0 <= i < |s| ==> NumeralChar(s[i])
    ensures forall i :: 0 <= i < |s| ==> !IsD(s[i])
  {
  }

  lemma ZeroNumeral(sign: string)
    requires Sign(sign)
    ensures ParseNumber(sign + "0") == Some(Quantity(sign == "-", 0, 0))
  {
    PlainNumeral(sign, "0", false, "");
    assert "0" + "" + "" == "0";
    assert "0"[..0] == "";
  }

  /** So the order of the two attempts never matters, and a bare numeral is a number of seconds. */
  lemma NumeralsAreSeconds(s: string)
    requires ParseNumber(s).Some?
    ensures Decode(s) == Some(InRange(Truncated(ParseNumber(s).value, 1_000_000_000)))
  {
    if ParseDuration(s).Some? {
      BothAreZero(s);
      ZeroTimes(ParseNumber(s).value, SECOND);
    }
  }

  lemma ZeroTimes(x: Quantity, m: nat)
    requires x.mant == 0
    ensures Truncated(x, m) == 0
  {
  }
}
