/** The replicated log entry and its wire form: a JSON object whose empty members are left out. */
module Codec {
  import opened Wrappers
  import opened Utf8
  import opened Json
  import opened Decimal
  import Base64
  import JsonGrammar

  /** Strings are Go strings, so nothing here promises that they are valid UTF-8. */
  datatype Command = Command(op: Bytes, key: Bytes, value: Bytes, peerId: Bytes, peerAddr: Bytes, peerHttp: Bytes)

  const ZERO_COMMAND := Command([], [], [], [], [], [])

  // The four operations of a log entry; any other op is legal on the wire and ignored by the machine.
  const OP_PUT: Bytes := Ascii("put")
  const OP_DELETE: Bytes := Ascii("delete")
  const OP_ADD_PEER: Bytes := Ascii("addPeer")
  const OP_REMOVE_PEER: Bytes := Ascii("removePeer")

  function PutCommand(key: Bytes, value: Bytes): Command {
    ZERO_COMMAND.(op := OP_PUT, key := key, value := value)
  }

  function DeleteCommand(key: Bytes): Command {
    ZERO_COMMAND.(op := OP_DELETE, key := key)
  }

  function AddPeerCommand(id: Bytes, addr: Bytes, http: Bytes): Command {
    ZERO_COMMAND.(op := OP_ADD_PEER, peerId := id, peerAddr := addr, peerHttp := http)
  }

  function RemovePeerCommand(id: Bytes): Command {
    ZERO_COMMAND.(op := OP_REMOVE_PEER, peerId := id)
  }

  // ----- Encoding --------------------------------------------------------------------------------

  /** The members of the object, by their Go fields. */
  datatype Slot = OpSlot | KeySlot | ValueSlot | PeerIdSlot | PeerAddrSlot | PeerHttpSlot | NoSlot

  function SlotName(slot: Slot): string
    requires slot != NoSlot
  {
    match slot
    case OpSlot => "op"
    case KeySlot => "key"
    case ValueSlot => "value"
    case PeerIdSlot => "peerId"
    case PeerAddrSlot => "peerAddr"
    case PeerHttpSlot => "peerHttp"
  }

  /** A member named after its slot, then the rest. */
  function Named(slot: Slot, d: Doc, tail: Members): Members
    requires slot != NoSlot
  {
    Member(Ascii(SlotName(slot)), d, tail)
  }

  /** A string member with omitempty, then the rest. */
  function Optional(slot: Slot, s: Bytes, tail: Members): Members
    requires slot != NoSlot
  {
    if s == [] then tail else Named(slot, DString(s), tail)
  }

  function PeerMembers(c: Command): Members {
    Optional(PeerIdSlot, c.peerId, Optional(PeerAddrSlot, c.peerAddr, Optional(PeerHttpSlot, c.peerHttp, NoMembers)))
  }

  function ValueMembers(c: Command): Members {
    if c.value == [] then PeerMembers(c) else Named(ValueSlot, DBytes(c.value), PeerMembers(c))
  }

  function KeyMembers(c: Command): Members {
    Optional(KeySlot, c.key, ValueMembers(c))
  }

  function CommandDoc(c: Command): Doc {
    DObject(Named(OpSlot, DString(c.op), KeyMembers(c)))
  }

  function EncodeCommand(c: Command): Bytes {
    Utf8.Encode(Print(CommandDoc(c)))
  }

  // ----- Decoding --------------------------------------------------------------------------------

  /** Member names are compared without regard to case, in the folding of encoding/json. */
  function FoldChar(c: char): char {
    if 'a' <= c <= 'z' then (c as int - 32) as char
    else if c == 0x17F as char then 'S'
    else if c == 0x212A as char then 'K'
    else c
  }

  predicate Folds(a: string, b: string) {
    |a| == |b| && forall i :: 0 <= i < |a| ==> FoldChar(a[i]) == FoldChar(b[i])
  }

  function SlotOf(name: string): Slot {
    if |name| == 2 then (if Folds(name, "op") then OpSlot else NoSlot)
    else if |name| == 3 then (if Folds(name, "key") then KeySlot else NoSlot)
    else if |name| == 5 then (if Folds(name, "value") then ValueSlot else NoSlot)
    else if |name| == 6 then (if Folds(name, "peerId") then PeerIdSlot else NoSlot)
    else if |name| == 8 then
      (if Folds(name, "peerAddr") then PeerAddrSlot else if Folds(name, "peerHttp") then PeerHttpSlot else NoSlot)
    else NoSlot
  }

  /** A string target: null leaves it alone, other kinds are refused. */
  function StringValue(v: Value, current: Bytes): Result<Bytes, string> {
    match v
    case Null => Ok(current)
    case String(text) => Ok(Utf8.Encode(text))
    case _ => Err("cannot unmarshal into string")
  }

  /** A []byte target: null clears it, a string is base64, an array lists the bytes. */
  function BytesValue(v: Value): Result<Bytes, string> {
    match v
    case Null => Ok([])
    case String(text) =>
      (match Base64.Decode(text)
       case Some(b) => Ok(b)
       case None => Err("illegal base64 data"))
    case Array(items) => ItemBytes(items)
    case _ => Err("cannot unmarshal into []byte")
  }

  function ItemBytes(items: Items): Result<Bytes, string> {
    match items
    case NoItems => Ok([])
    case Item(head, tail) =>
      (match (ByteValue(head), ItemBytes(tail))
       case (Some(b), Ok(rest)) => Ok([b] + rest)
       case _ => Err("cannot unmarshal into uint8"))
  }

  function ByteValue(v: Value): Option<Byte> {
    match v
    case Null => Some(0)
    case Number(n) =>
      if 1 <= |n| <= 3 && Digits(n) then
        var d := DecimalValue(n);
        if d < 256 then Some(d as Byte) else None
      else None
    case _ => None
  }

  function SetSlot(c: Command, slot: Slot, v: Value): Result<Command, string> {
    match slot
    case OpSlot => (match StringValue(v, c.op) case Ok(s) => Ok(c.(op := s)) case Err(e) => Err(e))
    case KeySlot => (match StringValue(v, c.key) case Ok(s) => Ok(c.(key := s)) case Err(e) => Err(e))
    case ValueSlot => (match BytesValue(v) case Ok(s) => Ok(c.(value := s)) case Err(e) => Err(e))
    case PeerIdSlot => (match StringValue(v, c.peerId) case Ok(s) => Ok(c.(peerId := s)) case Err(e) => Err(e))
    case PeerAddrSlot => (match StringValue(v, c.peerAddr) case Ok(s) => Ok(c.(peerAddr := s)) case Err(e) => Err(e))
    case PeerHttpSlot => (match StringValue(v, c.peerHttp) case Ok(s) => Ok(c.(peerHttp := s)) case Err(e) => Err(e))
    case NoSlot => Ok(c)
  }

  /** Members are taken in order, so a later duplicate wins. */
  function ReadFields(fields: Fields, c: Command): Result<Command, string> {
    match fields
    case NoFields => Ok(c)
    case Field(name, v, tail) =>
      var r := SetSlot(c, SlotOf(name), v);
      if r.Err? then r else ReadFields(tail, r.value)
  }

  function ReadCommand(v: Value): Result<Command, string> {
    match v
    case Null => Ok(ZERO_COMMAND)
    case Object(fields) => ReadFields(fields, ZERO_COMMAND)
    case _ => Err("cannot unmarshal into Command")
  }

  /** Total on arbitrary log bytes. */
  function DecodeCommand(data: Bytes): Result<Command, string> {
    match ParseWhole(Utf8.Decode(data))
    case None => Err("decode command: syntax")
    case Some(v) => ReadCommand(v)
  }

  // ----- Round trip ------------------------------------------------------------------------------

  predicate ValidStrings(c: Command) {
    Valid(c.op) && Valid(c.key) && Valid(c.peerId) && Valid(c.peerAddr) && Valid(c.peerHttp)
  }

  /** The command that arrives when c is sent. */
  function Clean(c: Command): Command {
    Command(Sanitize(c.op), Sanitize(c.key), c.value, Sanitize(c.peerId), Sanitize(c.peerAddr), Sanitize(c.peerHttp))
  }

  lemma SlotOfName(slot: Slot)
    requires slot != NoSlot
    ensures SlotOf(SlotName(slot)) == slot
  {
    if slot == PeerHttpSlot {
      var a, h := SlotName(slot), "peerAddr";
      assert FoldChar(a[4]) != FoldChar(h[4]);
    }
  }

  /** A named member sets its slot. */
  lemma ReadNamed(slot: Slot, d: Doc, tail: Members, c: Command)
    requires slot != NoSlot && SetSlot(c, slot, Meaning(d)).Ok?
    ensures ReadFields(MembersMeaning(Named(slot, d, tail)), c) == ReadFields(MembersMeaning(tail), SetSlot(c, slot, Meaning(d)).value)
  {
    hide SlotOf, SetSlot, ReadFields;
    DecodeAscii(SlotName(slot));
    SlotOfName(slot);
    ReadField(SlotName(slot), slot, Meaning(d), MembersMeaning(tail), c);
  }

  lemma ReadField(name: string, slot: Slot, v: Value, tail: Fields, c: Command)
    requires SlotOf(name) == slot && SetSlot(c, slot, v).Ok?
    ensures ReadFields(Field(name, v, tail), c) == ReadFields(tail, SetSlot(c, slot, v).value)
  {
  }

  lemma ReadPeerMembers(c: Command, x: Command)
    requires x.peerId == x.peerAddr == x.peerHttp == []
    ensures ReadFields(MembersMeaning(PeerMembers(c)), x)
         == Ok(x.(peerId := Sanitize(c.peerId), peerAddr := Sanitize(c.peerAddr), peerHttp := Sanitize(c.peerHttp)))
  {
    var m5 := Optional(PeerHttpSlot, c.peerHttp, NoMembers);
    var m4 := Optional(PeerAddrSlot, c.peerAddr, m5);
    var x3 := x.(peerId := Sanitize(c.peerId));
    var x4 := x3.(peerAddr := Sanitize(c.peerAddr));
    if c.peerId != [] { ReadNamed(PeerIdSlot, DString(c.peerId), m4, x); }
    if c.peerAddr != [] { ReadNamed(PeerAddrSlot, DString(c.peerAddr), m5, x3); }
    if c.peerHttp != [] { ReadNamed(PeerHttpSlot, DString(c.peerHttp), NoMembers, x4); }
  }

  lemma ReadKeyMembers(c: Command, x: Command)
    requires x == ZERO_COMMAND.(op := x.op)
    ensures ReadFields(MembersMeaning(KeyMembers(c)), x) == Ok(Clean(c).(op := x.op))
  {
    var x1 := x.(key := Sanitize(c.key));
    if c.key != [] { ReadNamed(KeySlot, DString(c.key), ValueMembers(c), x); }
    Base64.DecodeEncode(c.value);
    if c.value != [] { ReadNamed(ValueSlot, DBytes(c.value), PeerMembers(c), x1); }
    ReadPeerMembers(c, x1.(value := c.value));
  }

  lemma ReadCommandDoc(c: Command)
    ensures ReadCommand(Meaning(CommandDoc(c))) == Ok(Clean(c))
  {
    ReadNamed(OpSlot, DString(c.op), KeyMembers(c), ZERO_COMMAND);
    ReadKeyMembers(c, ZERO_COMMAND.(op := Sanitize(c.op)));
  }

  /** Members hold strings and byte slices only. */
  predicate Flat(m: Members) {
    m.NoMembers? || (!m.value.DObject? && Flat(m.tail))
  }

  lemma {:induction false} FlatDepth(m: Members)
    requires Flat(m)
    ensures MembersDepth(m) == 0
  {
    if m.Member? { FlatDepth(m.tail); }
  }

  lemma CommandDocDepth(c: Command)
    ensures Depth(CommandDoc(c)) == 1
  {
    var m5 := Optional(PeerHttpSlot, c.peerHttp, NoMembers);
    assert Flat(m5);
    assert Flat(Optional(PeerAddrSlot, c.peerAddr, m5));
    assert Flat(PeerMembers(c));
    assert Flat(ValueMembers(c));
    assert Flat(KeyMembers(c));
    FlatDepth(CommandDoc(c).members);
  }

  /** What is decoded is the command with every broken byte of its strings replaced, value bytes intact. */
  lemma DecodeEncodeCommand(c: Command)
    ensures DecodeCommand(EncodeCommand(c)) == Ok(Clean(c))
  {
    CommandDocDepth(c);
    ReadPrinted(CommandDoc(c), "");
    DecodeEncode(Print(CommandDoc(c)));
    ReadCommandDoc(c);
  }

  /** The codec loses nothing exactly when the strings are valid UTF-8. */
  lemma RoundTripIff(c: Command)
    ensures DecodeCommand(EncodeCommand(c)) == Ok(c) <==> ValidStrings(c)
  {
    DecodeEncodeCommand(c);
    SanitizeIdentity(c.op);
    SanitizeIdentity(c.key);
    SanitizeIdentity(c.peerId);
    SanitizeIdentity(c.peerAddr);
    SanitizeIdentity(c.peerHttp);
  }

  /** Different commands with valid strings never share an encoding. */
  lemma EncodeInjectiveOnValid(a: Command, b: Command)
    requires ValidStrings(a) && ValidStrings(b) && EncodeCommand(a) == EncodeCommand(b)
    ensures a == b
  {
    RoundTripIff(a);
    RoundTripIff(b);
  }

  /** Outside valid UTF-8 they can: two different keys of one broken byte are written alike. */
  lemma BrokenKeysCollide(value: Bytes)
    ensures PutCommand([0xFF], value) != PutCommand([0xFE], value)
    ensures EncodeCommand(PutCommand([0xFF], value)) == EncodeCommand(PutCommand([0xFE], value))
  {
    var a, b := PutCommand([0xFF], value), PutCommand([0xFE], value);
    assert KeyMembers(a) == Named(KeySlot, DString([0xFF]), ValueMembers(a));
    assert KeyMembers(b) == Named(KeySlot, DString([0xFE]), ValueMembers(a));
    PrintMembersAlike([0xFF], [0xFE], ValueMembers(a));
    assert PrintMembersTo(CommandDoc(a).members, "") == PrintMembersTo(CommandDoc(b).members, "");
  }

  lemma EscapeBrokenByte(b: Byte, tail: string)
    requires b == 0xFF || b == 0xFE
    ensures EscapeTo([b], tail) == "\\ufffd" + tail
  {
    assert DecodeChar([b]) == (REPLACEMENT, 1);
    assert [b][1..] == [];
  }

  lemma PrintMembersAlike(k: Bytes, l: Bytes, tail: Members)
    requires k == [0xFF] && l == [0xFE]
    ensures PrintMembersTo(Named(KeySlot, DString(k), tail), "") == PrintMembersTo(Named(KeySlot, DString(l), tail), "")
  {
    var after := if tail.NoMembers? then "}" + "" else "," + PrintMembersTo(tail, "");
    EscapeBrokenByte(0xFF, "\"" + after);
    EscapeBrokenByte(0xFE, "\"" + after);
    assert PrintTo(DString(k), after) == PrintTo(DString(l), after);
  }

  /** Every decoded string is valid UTF-8, whatever the bytes were. */
  lemma DecodedStringsValid(data: Bytes)
    requires DecodeCommand(data).Ok?
    ensures ValidStrings(DecodeCommand(data).value)
  {
    var v := ParseWhole(Utf8.Decode(data)).value;
    if v.Object? {
      ReadFieldsValid(v.fields, ZERO_COMMAND);
    }
  }

  lemma SetSlotValid(c: Command, slot: Slot, v: Value)
    requires ValidStrings(c) && SetSlot(c, slot, v).Ok?
    ensures ValidStrings(SetSlot(c, slot, v).value)
  {
    if v.String? {
      DecodeEncode(v.text);
    }
  }

  lemma {:induction false} ReadFieldsValid(fields: Fields, c: Command)
    requires ValidStrings(c) && ReadFields(fields, c).Ok?
    ensures ValidStrings(ReadFields(fields, c).value)
  {
    if fields.Field? {
      var slot := SlotOf(fields.key);
      SetSlotValid(c, slot, fields.value);
      ReadFieldsValid(fields.tail, SetSlot(c, slot, fields.value).value);
    }
  }

  // ----- The text of an entry --------------------------------------------------------------------

  /** A put of a key and a value that are not empty. */
  lemma PutText(key: Bytes, value: Bytes)
    requires key != [] && value != []
    ensures Print(CommandDoc(PutCommand(key, value)))
         == "{\"op\":" + ("\"put\"" + (",\"key\":" + PrintTo(DString(key), ",\"value\":" + PrintTo(DBytes(value), "}"))))
  {
    hide PrintMembersTo, PrintTo;
    var v := Named(ValueSlot, DBytes(value), NoMembers);
    var k := Named(KeySlot, DString(key), v);
    PutMembers(key, value);
    OpText("put", k);
    NextText("key", DString(key), v, "");
    NextText("value", DBytes(value), NoMembers, "");
    assert ",\"" + "key" + "\":" == ",\"key\":" && ",\"" + "value" + "\":" == ",\"value\":" && "}" + "" == "}";
    assert "\"" + "put" + "\"" == "\"put\"";
  }

  lemma OpText(op: string, rest: Members)
    requires PlainName(op) && rest.Member?
    ensures Print(DObject(Named(OpSlot, DString(Ascii(op)), rest))) == "{\"op\":" + (("\"" + op + "\"") + ("," + PrintMembersTo(rest, "")))
  {
    hide PrintMembersTo, PrintTo;
    FirstText("op", DString(Ascii(op)), rest, "");
    QuotedText(op, "," + PrintMembersTo(rest, ""));
    assert "{\"" + "op" + "\":" == "{\"op\":";
  }

  lemma PutMembers(key: Bytes, value: Bytes)
    requires key != [] && value != []
    ensures CommandDoc(PutCommand(key, value))
         == DObject(Named(OpSlot, DString(Ascii("put")), Named(KeySlot, DString(key), Named(ValueSlot, DBytes(value), NoMembers))))
  {
  }

  /** The record of a peer all of whose strings are there. */
  lemma AddPeerText(id: Bytes, addr: Bytes, http: Bytes)
    requires id != [] && addr != [] && http != []
    ensures Print(CommandDoc(AddPeerCommand(id, addr, http)))
         == "{\"op\":" + ("\"addPeer\"" + (",\"peerId\":" + PrintTo(DString(id),
            ",\"peerAddr\":" + PrintTo(DString(addr), ",\"peerHttp\":" + PrintTo(DString(http), "}")))))
  {
    hide PrintMembersTo, PrintTo;
    var h := Named(PeerHttpSlot, DString(http), NoMembers);
    var a := Named(PeerAddrSlot, DString(addr), h);
    PeerRecordMembers(id, addr, http);
    OpText("addPeer", Named(PeerIdSlot, DString(id), a));
    NextText("peerId", DString(id), a, "");
    NextText("peerAddr", DString(addr), h, "");
    NextText("peerHttp", DString(http), NoMembers, "");
    PeerNames();
    assert "\"" + "addPeer" + "\"" == "\"addPeer\"" && "}" + "" == "}";
  }

  lemma PeerNames()
    ensures ",\"" + "peerId" + "\":" == ",\"peerId\":" && ",\"" + "peerAddr" + "\":" == ",\"peerAddr\":"
    ensures ",\"" + "peerHttp" + "\":" == ",\"peerHttp\":"
  {
  }

  lemma PeerRecordMembers(id: Bytes, addr: Bytes, http: Bytes)
    requires id != [] && addr != [] && http != []
    ensures CommandDoc(AddPeerCommand(id, addr, http))
         == DObject(Named(OpSlot, DString(Ascii("addPeer")), Named(PeerIdSlot, DString(id),
            Named(PeerAddrSlot, DString(addr), Named(PeerHttpSlot, DString(http), NoMembers)))))
  {
  }

  /** A delete of a key that is not empty. */
  lemma DeleteText(key: Bytes)
    requires key != []
    ensures Print(CommandDoc(DeleteCommand(key))) == "{\"op\":" + ("\"delete\"" + (",\"key\":" + PrintTo(DString(key), "}")))
  {
    hide PrintMembersTo, PrintTo;
    var k := Named(KeySlot, DString(key), NoMembers);
    OneMember(DeleteCommand(key));
    OpText("delete", k);
    NextText("key", DString(key), NoMembers, "");
    assert ",\"" + "key" + "\":" == ",\"key\":" && "}" + "" == "}" && "\"" + "delete" + "\"" == "\"delete\"";
  }

  /** The removal of a peer whose id is not empty. */
  lemma RemovePeerText(id: Bytes)
    requires id != []
    ensures Print(CommandDoc(RemovePeerCommand(id)))
         == "{\"op\":" + ("\"removePeer\"" + (",\"peerId\":" + PrintTo(DString(id), "}")))
  {
    hide PrintMembersTo, PrintTo;
    var i := Named(PeerIdSlot, DString(id), NoMembers);
    OneMember(RemovePeerCommand(id));
    OpText("removePeer", i);
    NextText("peerId", DString(id), NoMembers, "");
    PeerNames();
    assert "}" + "" == "}" && "\"" + "removePeer" + "\"" == "\"removePeer\"";
  }

  lemma OneMember(c: Command)
    requires (c == DeleteCommand(c.key) && c.key != []) || (c == RemovePeerCommand(c.peerId) && c.peerId != [])
    ensures c == DeleteCommand(c.key) ==>
              CommandDoc(c) == DObject(Named(OpSlot, DString(Ascii("delete")), Named(KeySlot, DString(c.key), NoMembers)))
    ensures c == RemovePeerCommand(c.peerId) ==>
              CommandDoc(c) == DObject(Named(OpSlot, DString(Ascii("removePeer")), Named(PeerIdSlot, DString(c.peerId), NoMembers)))
  {
  }

  // ----- Members by name ---------------------------------------------------------------------------

  predicate IsLower(c: char) {
    'a' <= c <= 'z'
  }

  predicate IsUpper(c: char) {
    'A' <= c <= 'Z'
  }

  /** The same letter in either case, or the same character; the long s (U+017F) counts as an s, the Kelvin sign
      (U+212A) as a k. */
  predicate SameLetter(c: char, ascii: char) {
    || c == ascii
    || (IsLower(ascii) && c as int == ascii as int - 32)
    || (IsUpper(ascii) && c as int == ascii as int + 32)
    || (c as int == 0x17F && (ascii == 's' || ascii == 'S'))
    || (c as int == 0x212A && (ascii == 'k' || ascii == 'K'))
  }

  /** The name of a member, up to letter case. */
  predicate SameName(name: string, ascii: string) {
    |name| == |ascii| && forall i :: 0 <= i < |name| ==> SameLetter(name[i], ascii[i])
  }

  predicate IsAscii(s: string) {
    forall i :: 0 <= i < |s| ==> s[i] as int < 0x80
  }

  lemma FoldsLetter(c: char, ascii: char)
    requires ascii as int < 0x80
    ensures FoldChar(c) == FoldChar(ascii) <==> SameLetter(c, ascii)
  {
  }

  /** The folding of names is equality up to letter case. */
  lemma FoldsIff(name: string, ascii: string)
    requires IsAscii(ascii)
    ensures Folds(name, ascii) <==> SameName(name, ascii)
  {
    hide FoldChar, SameLetter;
    if |name| == |ascii| {
      forall i | 0 <= i < |name| ensures FoldChar(name[i]) == FoldChar(ascii[i]) <==> SameLetter(name[i], ascii[i]) {
        FoldsLetter(name[i], ascii[i]);
      }
    }
  }

  /** Which member goes where. */
  lemma SlotIff(name: string)
    ensures SlotOf(name) == OpSlot <==> SameName(name, "op")
    ensures SlotOf(name) == KeySlot <==> SameName(name, "key")
    ensures SlotOf(name) == ValueSlot <==> SameName(name, "value")
    ensures SlotOf(name) == PeerIdSlot <==> SameName(name, "peerId")
    ensures SlotOf(name) == PeerAddrSlot <==> SameName(name, "peerAddr")
    ensures SlotOf(name) == PeerHttpSlot <==> SameName(name, "peerHttp")
  {
    hide Folds, SameName;
    FoldsIff(name, "op");
    FoldsIff(name, "key");
    FoldsIff(name, "value");
    FoldsIff(name, "peerId");
    FoldsIff(name, "peerAddr");
    FoldsIff(name, "peerHttp");
    SameLength(name);
    NotBoth(name);
  }

  lemma SameLength(name: string)
    ensures forall ascii :: SameName(name, ascii) ==> |name| == |ascii|
  {
  }

  lemma NotBoth(name: string)
    ensures !(SameName(name, "peerAddr") && SameName(name, "peerHttp"))
  {
    if |name| == 8 {
      assert !(SameLetter(name[4], "peerAddr"[4]) && SameLetter(name[4], "peerHttp"[4]));
    }
  }

  // ----- What members say --------------------------------------------------------------------------

  /** The members of an object in order. */
  function Listed(fields: Fields): seq<(string, Value)> {
    match fields
    case NoFields => []
    case Field(name, v, tail) => [(name, v)] + Listed(tail)
  }

  function TextNamed(name: string): ((string, Value)) -> bool {
    (m: (string, Value)) => SameName(m.0, name) && m.1.String?
  }

  function AnyNamed(name: string): ((string, Value)) -> bool {
    (m: (string, Value)) => SameName(m.0, name)
  }

  /** The last string under a name, and what was there before if there is none. */
  function TextFrom(ms: seq<(string, Value)>, name: string, before: Bytes): Bytes {
    match LastIndex(ms, TextNamed(name))
    case Some(i) => Utf8.Encode(ms[i].1.text)
    case None => before
  }

  /** Every member of the name is a string or null. */
  predicate TextOnly(ms: seq<(string, Value)>, name: string) {
    forall i :: 0 <= i < |ms| && SameName(ms[i].0, name) ==> ms[i].1.String? || ms[i].1.Null?
  }

  /** Every member of the name can be read as bytes. */
  predicate BytesOnly(ms: seq<(string, Value)>, name: string) {
    forall i :: 0 <= i < |ms| && SameName(ms[i].0, name) ==> BytesValue(ms[i].1).Ok?
  }

  /** The bytes of the last member of a name. */
  function BytesFrom(ms: seq<(string, Value)>, name: string, before: Bytes): Bytes
    requires BytesOnly(ms, name)
  {
    match LastIndex(ms, AnyNamed(name))
    case Some(i) => BytesValue(ms[i].1).value
    case None => before
  }

  lemma LastOfCons<T>(x: T, s: seq<T>, p: T -> bool)
    ensures LastIndex([x] + s, p) ==
              match LastIndex(s, p) case Some(i) => Some(i + 1) case None => if p(x) then Some(0) else None
  {
    var all := [x] + s;
    var a, b := LastIndex(all, p), LastIndex(s, p);
    assert forall j :: 0 <= j < |s| ==> all[j + 1] == s[j];
    assert all[0] == x;
    if b.Some? {
      assert p(all[b.value + 1]);
    }
    if a.Some? && a.value > 0 {
      assert p(s[a.value - 1]);
    }
  }

  function TextStep(m: (string, Value), name: string, before: Bytes): Bytes {
    if SameName(m.0, name) && m.1.String? then Utf8.Encode(m.1.text) else before
  }

  lemma TextFromCons(m: (string, Value), ms: seq<(string, Value)>, name: string, before: Bytes)
    ensures TextFrom([m] + ms, name, before) == TextFrom(ms, name, TextStep(m, name, before))
  {
    hide LastIndex, SameName;
    LastOfCons(m, ms, TextNamed(name));
  }

  lemma TextOnlyCons(m: (string, Value), ms: seq<(string, Value)>, name: string)
    ensures TextOnly([m] + ms, name) <==> (SameName(m.0, name) ==> m.1.String? || m.1.Null?) && TextOnly(ms, name)
  {
    hide SameName;
    var all := [m] + ms;
    assert all[0] == m && forall i :: 0 <= i < |ms| ==> all[i + 1] == ms[i];
    if TextOnly(all, name) {
      forall i | 0 <= i < |ms| && SameName(ms[i].0, name) ensures ms[i].1.String? || ms[i].1.Null? {
        assert all[i + 1] == ms[i];
      }
    }
  }

  lemma BytesOnlyCons(m: (string, Value), ms: seq<(string, Value)>, name: string)
    ensures BytesOnly([m] + ms, name) <==> (SameName(m.0, name) ==> BytesValue(m.1).Ok?) && BytesOnly(ms, name)
  {
    hide SameName, BytesValue;
    var all := [m] + ms;
    assert all[0] == m && forall i :: 0 <= i < |ms| ==> all[i + 1] == ms[i];
    if BytesOnly(all, name) {
      forall i | 0 <= i < |ms| && SameName(ms[i].0, name) ensures BytesValue(ms[i].1).Ok? {
        assert all[i + 1] == ms[i];
      }
    }
  }

  function BytesStep(m: (string, Value), name: string, before: Bytes): Bytes
    requires SameName(m.0, name) ==> BytesValue(m.1).Ok?
  {
    if SameName(m.0, name) then BytesValue(m.1).value else before
  }

  lemma BytesFromCons(m: (string, Value), ms: seq<(string, Value)>, name: string, before: Bytes)
    requires BytesOnly([m] + ms, name)
    ensures BytesOnly(ms, name) && (SameName(m.0, name) ==> BytesValue(m.1).Ok?)
    ensures BytesFrom([m] + ms, name, before) == BytesFrom(ms, name, BytesStep(m, name, before))
  {
    hide LastIndex, SameName, BytesValue, BytesOnly;
    BytesOnlyCons(m, ms, name);
    LastOfCons(m, ms, AnyNamed(name));
  }

  /** The members make a command: for each string the last one under its name, for the value the last member. */
  predicate Says(ms: seq<(string, Value)>, before: Command, c: Command) {
    && TextOnly(ms, "op") && TextOnly(ms, "key") && TextOnly(ms, "peerId") && TextOnly(ms, "peerAddr") && TextOnly(ms, "peerHttp")
    && BytesOnly(ms, "value")
    && c.op == TextFrom(ms, "op", before.op) && c.key == TextFrom(ms, "key", before.key)
    && c.value == BytesFrom(ms, "value", before.value)
    && c.peerId == TextFrom(ms, "peerId", before.peerId) && c.peerAddr == TextFrom(ms, "peerAddr", before.peerAddr)
    && c.peerHttp == TextFrom(ms, "peerHttp", before.peerHttp)
  }

  /** One member can be taken in. */
  predicate Fits(m: (string, Value)) {
    && (SameName(m.0, "op") || SameName(m.0, "key") || SameName(m.0, "peerId") || SameName(m.0, "peerAddr") || SameName(m.0, "peerHttp")
        ==> m.1.String? || m.1.Null?)
    && (SameName(m.0, "value") ==> BytesValue(m.1).Ok?)
  }

  function Taken(m: (string, Value), c: Command): Command
    requires Fits(m)
  {
    Command(TextStep(m, "op", c.op), TextStep(m, "key", c.key), BytesStep(m, "value", c.value),
            TextStep(m, "peerId", c.peerId), TextStep(m, "peerAddr", c.peerAddr), TextStep(m, "peerHttp", c.peerHttp))
  }

  lemma TakesOne(m: (string, Value), c: Command)
    ensures var r := SetSlot(c, SlotOf(m.0), m.1); (r.Ok? <==> Fits(m)) && (r.Ok? ==> r.value == Taken(m, c))
  {
    hide SlotOf, SameName, BytesValue;
    SlotIff(m.0);
  }

  lemma SaysCons(m: (string, Value), ms: seq<(string, Value)>, before: Command, c: Command)
    ensures Says([m] + ms, before, c) <==> Fits(m) && Says(ms, Taken(m, before), c)
  {
    hide SameName, BytesValue, TextOnly, BytesOnly, TextFrom, BytesFrom;
    TextOnlyCons(m, ms, "op");
    TextOnlyCons(m, ms, "key");
    TextOnlyCons(m, ms, "peerId");
    TextOnlyCons(m, ms, "peerAddr");
    TextOnlyCons(m, ms, "peerHttp");
    BytesOnlyCons(m, ms, "value");
    TextFromCons(m, ms, "op", before.op);
    TextFromCons(m, ms, "key", before.key);
    TextFromCons(m, ms, "peerId", before.peerId);
    TextFromCons(m, ms, "peerAddr", before.peerAddr);
    TextFromCons(m, ms, "peerHttp", before.peerHttp);
    if BytesOnly([m] + ms, "value") {
      BytesFromCons(m, ms, "value", before.value);
    }
  }

  /** The loop over the members reads what they say. */
  lemma {:induction false} ReadFieldsIff(fields: Fields, before: Command, c: Command)
    ensures ReadFields(fields, before) == Ok(c) <==> Says(Listed(fields), before, c)
  {
    hide SetSlot, SlotOf, Says, Fits, Taken;
    match fields
    case NoFields => SaysNothing(before, c);
    case Field(name, v, tail) =>
      var m := (name, v);
      TakesOne(m, before);
      SaysCons(m, Listed(tail), before, c);
      if Fits(m) {
        ReadFieldsIff(tail, Taken(m, before), c);
      }
  }

  lemma SaysNothing(before: Command, c: Command)
    ensures Says([], before, c) <==> c == before
  {
  }

  /** What a value says of a command: null nothing, an object what its members say. */
  predicate CommandSaid(v: Value, c: Command) {
    (v.Null? && c == ZERO_COMMAND) || (v.Object? && Says(Listed(v.fields), ZERO_COMMAND, c))
  }

  lemma ReadCommandIff(v: Value, c: Command)
    ensures ReadCommand(v) == Ok(c) <==> CommandSaid(v, c)
  {
    hide ReadFields, Says;
    if v.Object? {
      ReadFieldsIff(v.fields, ZERO_COMMAND, c);
    }
  }

  /** Between blanks, the text of a value that says c, in whatever way it is written. */
  ghost predicate CommandText(s: string, c: Command) {
    exists lead, t, trail, v :: JsonGrammar.Writes(s, lead, t, trail, v) && JsonGrammar.White(trail) && CommandSaid(v, c)
  }

  /** A log entry decodes to c exactly if it is such a text. */
  lemma DecodeCommandIff(data: Bytes, c: Command)
    ensures DecodeCommand(data) == Ok(c) <==> CommandText(Utf8.Decode(data), c)
  {
    hide ParseWhole, ReadCommand, CommandSaid, JsonGrammar.Writes, JsonGrammar.White;
    var s := Utf8.Decode(data);
    if DecodeCommand(data) == Ok(c) {
      var v := ParseWhole(s).value;
      JsonGrammar.WholeIff(s, v);
      ReadCommandIff(v, c);
    }
    if CommandText(s, c) {
      var lead, t, trail, v :| JsonGrammar.Writes(s, lead, t, trail, v) && JsonGrammar.White(trail) && CommandSaid(v, c);
      JsonGrammar.WholeIff(s, v);
      ReadCommandIff(v, c);
    }
  }
}
