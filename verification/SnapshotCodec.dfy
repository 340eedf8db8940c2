/** Snapshots on the wire: an object with the members "data" and "peers", keys in byte order,
    and the decoding that Restore does. */
module SnapshotCodec {
  import opened Wrappers
  import opened Utf8
  import opened Json
  import Base64
  import opened Codec
  import opened Machine
  import JsonGrammar

  // ----- Keys in order ---------------------------------------------------------------------------

  /** Byte-wise lexicographic order, the order in which encoding/json writes map keys. */
  predicate LexLe(a: Bytes, b: Bytes) {
    a == [] || (b != [] && (a[0] < b[0] || (a[0] == b[0] && LexLe(a[1..], b[1..]))))
  }

  lemma {:induction false} LexTotal(a: Bytes, b: Bytes)
    ensures LexLe(a, b) || LexLe(b, a)
    ensures LexLe(a, b) && LexLe(b, a) ==> a == b
  {
    if a != [] && b != [] {
      LexTotal(a[1..], b[1..]);
      assert a == [a[0]] + a[1..] && b == [b[0]] + b[1..];
    }
  }

  lemma {:induction false} LexTransitive(a: Bytes, b: Bytes, c: Bytes)
    requires LexLe(a, b) && LexLe(b, c)
    ensures LexLe(a, c)
  {
    if a != [] && a[0] == b[0] == c[0] {
      LexTransitive(a[1..], b[1..], c[1..]);
    }
  }

  predicate IsLeast(k: Bytes, s: set<Bytes>) {
    k in s && forall x :: x in s ==> LexLe(k, x)
  }

  lemma {:induction false} LeastExists(s: set<Bytes>)
    requires s != {}
    ensures exists k :: IsLeast(k, s)
  {
    var k :| k in s;
    LexTotal(k, k);
    var rest := s - {k};
    if rest == {} {
      assert s == {k};
      assert IsLeast(k, s);
    } else {
      LeastExists(rest);
      var l :| IsLeast(l, rest);
      LexTotal(k, l);
      if LexLe(l, k) {
        assert IsLeast(l, s);
      } else {
        forall x | x in s ensures LexLe(k, x) {
          if x != k { LexTransitive(k, l, x); }
        }
        assert IsLeast(k, s);
      }
    }
  }

  lemma LeastUnique(s: set<Bytes>)
    ensures forall k, l :: IsLeast(k, s) && IsLeast(l, s) ==> k == l
  {
    forall k, l | IsLeast(k, s) && IsLeast(l, s) ensures k == l {
      LexTotal(k, l);
    }
  }

  function Least(s: set<Bytes>): (k: Bytes)
    requires s != {}
    ensures IsLeast(k, s)
  {
    LeastExists(s);
    LeastUnique(s);
    var k :| IsLeast(k, s);
    k
  }

  /** The members of a set, in order. */
  function Sorted(s: set<Bytes>): (r: seq<Bytes>)
    ensures forall k :: k in r <==> k in s
  {
    if s == {} then [] else
      var k := Least(s);
      [k] + Sorted(s - {k})
  }

  // ----- Writing ---------------------------------------------------------------------------------

  datatype PeerSlot = IdSlot | AddrSlot | HttpSlot | NoPeerSlot

  function PeerSlotName(slot: PeerSlot): string
    requires slot != NoPeerSlot
  {
    match slot case IdSlot => "ID" case AddrSlot => "Addr" case HttpSlot => "HTTPAddr"
  }

  datatype StateSlot = DataSlot | PeersSlot | NoStateSlot

  function StateSlotName(slot: StateSlot): string
    requires slot != NoStateSlot
  {
    match slot case DataSlot => "data" case PeersSlot => "peers"
  }

  /** An empty value is a nil slice by the time it is encoded. */
  function ValueDoc(v: Bytes): Doc {
    if v == [] then DNull else DBytes(v)
  }

  function PeerMember(slot: PeerSlot, s: Bytes, tail: Members): Members
    requires slot != NoPeerSlot
  {
    Member(Ascii(PeerSlotName(slot)), DString(s), tail)
  }

  function PeerDoc(p: Peer): Doc {
    DObject(PeerMember(IdSlot, p.id, PeerMember(AddrSlot, p.addr, PeerMember(HttpSlot, p.httpAddr, NoMembers))))
  }

  function StateMember(slot: StateSlot, m: Members, tail: Members): Members
    requires slot != NoStateSlot
  {
    Member(Ascii(StateSlotName(slot)), DObject(m), tail)
  }

  function DataMembers(keys: seq<Bytes>, data: map<Bytes, Bytes>): Members
    requires forall k :: k in keys ==> k in data
  {
    if keys == [] then NoMembers
    else Member(keys[0], ValueDoc(data[keys[0]]), DataMembers(keys[1..], data))
  }

  function PeerMembers(ids: seq<Bytes>, peers: map<Bytes, Peer>): Members
    requires forall id :: id in ids ==> id in peers
  {
    if ids == [] then NoMembers
    else Member(ids[0], PeerDoc(peers[ids[0]]), PeerMembers(ids[1..], peers))
  }

  function StateDoc(s: State, keys: seq<Bytes>, ids: seq<Bytes>): Doc
    requires forall k :: k in keys ==> k in s.data
    requires forall id :: id in ids ==> id in s.peers
  {
    DObject(StateMember(DataSlot, DataMembers(keys, s.data), StateMember(PeersSlot, PeerMembers(ids, s.peers), NoMembers)))
  }

  /** The text of a snapshot for a given order of keys; json.Encoder ends it with a line feed. */
  function SnapshotText(s: State, keys: seq<Bytes>, ids: seq<Bytes>): Bytes
    requires forall k :: k in keys ==> k in s.data
    requires forall id :: id in ids ==> id in s.peers
  {
    Utf8.Encode(PrintTo(StateDoc(s, keys, ids), "\n"))
  }

  /** What Persist writes. */
  function PersistBytes(s: State): Bytes {
    SnapshotText(s, Sorted(s.data.Keys), Sorted(s.peers.Keys))
  }

  // ----- Reading ---------------------------------------------------------------------------------

  function PeerSlotOf(name: string): PeerSlot {
    if |name| == 2 then (if Folds(name, "ID") then IdSlot else NoPeerSlot)
    else if |name| == 4 then (if Folds(name, "Addr") then AddrSlot else NoPeerSlot)
    else if |name| == 8 then (if Folds(name, "HTTPAddr") then HttpSlot else NoPeerSlot)
    else NoPeerSlot
  }

  function SetPeerSlot(p: Peer, slot: PeerSlot, v: Value): Result<Peer, string> {
    match slot
    case IdSlot => (match StringValue(v, p.id) case Ok(s) => Ok(p.(id := s)) case Err(e) => Err(e))
    case AddrSlot => (match StringValue(v, p.addr) case Ok(s) => Ok(p.(addr := s)) case Err(e) => Err(e))
    case HttpSlot => (match StringValue(v, p.httpAddr) case Ok(s) => Ok(p.(httpAddr := s)) case Err(e) => Err(e))
    case NoPeerSlot => Ok(p)
  }

  function ReadPeerFields(fields: Fields, p: Peer): Result<Peer, string> {
    match fields
    case NoFields => Ok(p)
    case Field(name, v, tail) =>
      var r := SetPeerSlot(p, PeerSlotOf(name), v);
      if r.Err? then r else ReadPeerFields(tail, r.value)
  }

  function ReadPeer(v: Value): Result<Peer, string> {
    match v
    case Null => Ok(Peer([], [], []))
    case Object(fields) => ReadPeerFields(fields, Peer([], [], []))
    case _ => Err("cannot unmarshal into Peer")
  }

  /** Entries are added to the map that is already there. */
  function ReadData(fields: Fields, data: map<Bytes, Bytes>): Result<map<Bytes, Bytes>, string> {
    match fields
    case NoFields => Ok(data)
    case Field(key, v, tail) =>
      match BytesValue(v)
      case Err(e) => Err(e)
      case Ok(b) => ReadData(tail, data[Utf8.Encode(key) := b])
  }

  function ReadPeers(fields: Fields, peers: map<Bytes, Peer>): Result<map<Bytes, Peer>, string> {
    match fields
    case NoFields => Ok(peers)
    case Field(id, v, tail) =>
      match ReadPeer(v)
      case Err(e) => Err(e)
      case Ok(p) => ReadPeers(tail, peers[Utf8.Encode(id) := p])
  }

  function DataValue(v: Value, current: map<Bytes, Bytes>): Result<map<Bytes, Bytes>, string> {
    match v
    case Null => Ok(map[])
    case Object(fields) => ReadData(fields, current)
    case _ => Err("cannot unmarshal into map")
  }

  function PeersValue(v: Value, current: map<Bytes, Peer>): Result<map<Bytes, Peer>, string> {
    match v
    case Null => Ok(map[])
    case Object(fields) => ReadPeers(fields, current)
    case _ => Err("cannot unmarshal into map")
  }

  function StateSlotOf(name: string): StateSlot {
    if |name| == 4 then (if Folds(name, "data") then DataSlot else NoStateSlot)
    else if |name| == 5 then (if Folds(name, "peers") then PeersSlot else NoStateSlot)
    else NoStateSlot
  }

  function SetStateSlot(s: State, slot: StateSlot, v: Value): Result<State, string> {
    match slot
    case DataSlot => (match DataValue(v, s.data) case Ok(d) => Ok(s.(data := d)) case Err(e) => Err(e))
    case PeersSlot => (match PeersValue(v, s.peers) case Ok(p) => Ok(s.(peers := p)) case Err(e) => Err(e))
    case NoStateSlot => Ok(s)
  }

  function ReadState(fields: Fields, s: State): Result<State, string> {
    match fields
    case NoFields => Ok(s)
    case Field(name, v, tail) =>
      var r := SetStateSlot(s, StateSlotOf(name), v);
      if r.Err? then r else ReadState(tail, r.value)
  }

  function StateValue(v: Value): Result<State, string> {
    match v
    case Null => Ok(EMPTY)
    case Object(fields) => ReadState(fields, EMPTY)
    case _ => Err("cannot unmarshal into snapshotData")
  }

  /** What Restore makes of a stream: a whole new state, or an error. Missing maps are empty ones. */
  function RestoreBytes(stream: Bytes): Result<State, string> {
    match ParseFirst(Utf8.Decode(stream))
    case None => Err("restore decode: syntax")
    case Some(v) => StateValue(v)
  }

  // ----- Round trip ------------------------------------------------------------------------------

  lemma PeerSlotOfName(slot: PeerSlot)
    requires slot != NoPeerSlot
    ensures PeerSlotOf(PeerSlotName(slot)) == slot
  {
  }

  lemma ReadPeerMember(slot: PeerSlot, s: Bytes, tail: Members, p: Peer)
    requires slot != NoPeerSlot && SetPeerSlot(p, slot, String(Utf8.Decode(s))).Ok?
    ensures ReadPeerFields(MembersMeaning(PeerMember(slot, s, tail)), p)
         == ReadPeerFields(MembersMeaning(tail), SetPeerSlot(p, slot, String(Utf8.Decode(s))).value)
  {
    DecodeAscii(PeerSlotName(slot));
    PeerSlotOfName(slot);
    ReadPeerField(PeerSlotName(slot), slot, String(Utf8.Decode(s)), MembersMeaning(tail), p);
  }

  lemma ReadPeerField(name: string, slot: PeerSlot, v: Value, tail: Fields, p: Peer)
    requires PeerSlotOf(name) == slot && SetPeerSlot(p, slot, v).Ok?
    ensures ReadPeerFields(Field(name, v, tail), p) == ReadPeerFields(tail, SetPeerSlot(p, slot, v).value)
  {
  }

  function WithSlot(p: Peer, slot: PeerSlot, s: Bytes): Peer {
    match slot case IdSlot => p.(id := s) case AddrSlot => p.(addr := s) case HttpSlot => p.(httpAddr := s) case NoPeerSlot => p
  }

  lemma SetPeerSlotString(p: Peer, slot: PeerSlot, v: Value, s: Bytes)
    requires v.String? && Utf8.Encode(v.text) == s
    ensures SetPeerSlot(p, slot, v) == Ok(WithSlot(p, slot, s))
  {
  }

  lemma ReadPeerString(slot: PeerSlot, s: Bytes, tail: Members, p: Peer)
    requires slot != NoPeerSlot && Valid(s)
    ensures ReadPeerFields(MembersMeaning(PeerMember(slot, s, tail)), p) == ReadPeerFields(MembersMeaning(tail), WithSlot(p, slot, s))
  {
    SanitizeIdentity(s);
    var v := String(Utf8.Decode(s));
    SetPeerSlotString(p, slot, v, s);
    ReadPeerMember(slot, s, tail, p);
  }

  lemma ReadPeerDoc(p: Peer)
    requires ValidPeer(p)
    ensures ReadPeer(Meaning(PeerDoc(p))) == Ok(p)
  {
    var m2 := PeerMember(HttpSlot, p.httpAddr, NoMembers);
    var m1 := PeerMember(AddrSlot, p.addr, m2);
    var p0 := Peer([], [], []);
    var p1 := WithSlot(p0, IdSlot, p.id);
    var p2 := WithSlot(p1, AddrSlot, p.addr);
    ReadPeerString(IdSlot, p.id, m1, p0);
    ReadPeerString(AddrSlot, p.addr, m2, p1);
    ReadPeerString(HttpSlot, p.httpAddr, NoMembers, p2);
  }

  lemma ReadDataMember(k: Bytes, v: Bytes, tail: Members, acc: map<Bytes, Bytes>)
    requires Valid(k)
    ensures ReadData(MembersMeaning(Member(k, ValueDoc(v), tail)), acc) == ReadData(MembersMeaning(tail), acc[k := v])
  {
    SanitizeIdentity(k);
    Base64.DecodeEncode(v);
  }

  lemma ReadPeersMember(id: Bytes, p: Peer, tail: Members, acc: map<Bytes, Peer>)
    requires Valid(id) && ValidPeer(p)
    ensures ReadPeers(MembersMeaning(Member(id, PeerDoc(p), tail)), acc) == ReadPeers(MembersMeaning(tail), acc[id := p])
  {
    SanitizeIdentity(id);
    ReadPeerDoc(p);
  }

  function Select<V>(keys: seq<Bytes>, m: map<Bytes, V>): map<Bytes, V> {
    map k | k in keys && k in m :: m[k]
  }

  lemma SelectStep<V>(keys: seq<Bytes>, m: map<Bytes, V>, acc: map<Bytes, V>)
    requires keys != [] && forall k :: k in keys ==> k in m
    ensures acc + Select(keys, m) == acc[keys[0] := m[keys[0]]] + Select(keys[1..], m)
  {
  }

  lemma {:induction false} ReadDataMembers(keys: seq<Bytes>, data: map<Bytes, Bytes>, acc: map<Bytes, Bytes>)
    requires forall k :: k in keys ==> k in data && Valid(k)
    ensures ReadData(MembersMeaning(DataMembers(keys, data)), acc) == Ok(acc + Select(keys, data))
  {
    if keys == [] {
      assert acc + Select(keys, data) == acc;
    } else {
      var k, tail := keys[0], DataMembers(keys[1..], data);
      assert DataMembers(keys, data) == Member(k, ValueDoc(data[k]), tail);
      ReadDataMember(k, data[k], tail, acc);
      ReadDataMembers(keys[1..], data, acc[k := data[k]]);
      SelectStep(keys, data, acc);
    }
  }

  lemma {:induction false} ReadPeerMembers(ids: seq<Bytes>, peers: map<Bytes, Peer>, acc: map<Bytes, Peer>)
    requires forall id :: id in ids ==> id in peers && Valid(id) && ValidPeer(peers[id])
    ensures ReadPeers(MembersMeaning(PeerMembers(ids, peers)), acc) == Ok(acc + Select(ids, peers))
  {
    if ids == [] {
      assert acc + Select(ids, peers) == acc;
    } else {
      var id, tail := ids[0], PeerMembers(ids[1..], peers);
      assert PeerMembers(ids, peers) == Member(id, PeerDoc(peers[id]), tail);
      ReadPeersMember(id, peers[id], tail, acc);
      ReadPeerMembers(ids[1..], peers, acc[id := peers[id]]);
      SelectStep(ids, peers, acc);
    }
  }

  lemma {:induction false} DataMembersDepth(keys: seq<Bytes>, data: map<Bytes, Bytes>)
    requires forall k :: k in keys ==> k in data
    ensures MembersDepth(DataMembers(keys, data)) == 0
  {
    if keys != [] { DataMembersDepth(keys[1..], data); }
  }

  lemma PeerDocDepth(p: Peer)
    ensures Depth(PeerDoc(p)) == 1
  {
    var m2 := PeerMember(HttpSlot, p.httpAddr, NoMembers);
    assert Flat(m2);
    assert Flat(PeerMember(AddrSlot, p.addr, m2));
    FlatDepth(PeerDoc(p).members);
  }

  lemma {:induction false} PeerMembersDepth(ids: seq<Bytes>, peers: map<Bytes, Peer>)
    requires forall id :: id in ids ==> id in peers
    ensures MembersDepth(PeerMembers(ids, peers)) <= 1
  {
    if ids != [] {
      PeerDocDepth(peers[ids[0]]);
      PeerMembersDepth(ids[1..], peers);
    }
  }

  /** Is this list of keys the domain, in whatever order? */
  ghost predicate Enumerates(keys: seq<Bytes>, domain: set<Bytes>) {
    forall k :: k in keys <==> k in domain
  }

  lemma ReadStateMember(slot: StateSlot, m: Members, tail: Members, s: State)
    requires slot != NoStateSlot && SetStateSlot(s, slot, Object(MembersMeaning(m))).Ok?
    ensures ReadState(MembersMeaning(StateMember(slot, m, tail)), s)
         == ReadState(MembersMeaning(tail), SetStateSlot(s, slot, Object(MembersMeaning(m))).value)
  {
    DecodeAscii(StateSlotName(slot));
    assert StateSlotOf(StateSlotName(slot)) == slot;
  }

  lemma SelectAll<V>(keys: seq<Bytes>, m: map<Bytes, V>)
    requires Enumerates(keys, m.Keys)
    ensures map[] + Select(keys, m) == m
  {
  }

  lemma DataReads(s: State, keys: seq<Bytes>)
    requires Encodable(s) && Enumerates(keys, s.data.Keys)
    ensures ReadData(MembersMeaning(DataMembers(keys, s.data)), map[]) == Ok(s.data)
  {
    ReadDataMembers(keys, s.data, map[]);
    SelectAll(keys, s.data);
  }

  lemma PeersRead(s: State, ids: seq<Bytes>)
    requires Encodable(s) && Enumerates(ids, s.peers.Keys)
    ensures ReadPeers(MembersMeaning(PeerMembers(ids, s.peers)), map[]) == Ok(s.peers)
  {
    ReadPeerMembers(ids, s.peers, map[]);
    SelectAll(ids, s.peers);
  }

  /** The two top-level members, whatever they hold. */
  lemma TwoMembersRead(d: Members, p: Members, data: map<Bytes, Bytes>, peers: map<Bytes, Peer>)
    requires ReadData(MembersMeaning(d), map[]) == Ok(data) && ReadPeers(MembersMeaning(p), map[]) == Ok(peers)
    ensures StateValue(Meaning(DObject(StateMember(DataSlot, d, StateMember(PeersSlot, p, NoMembers))))) == Ok(State(data, peers))
  {
    var tail := StateMember(PeersSlot, p, NoMembers);
    assert SetStateSlot(EMPTY, DataSlot, Object(MembersMeaning(d))) == Ok(State(data, map[]));
    assert SetStateSlot(State(data, map[]), PeersSlot, Object(MembersMeaning(p))) == Ok(State(data, peers));
    ReadStateMember(DataSlot, d, tail, EMPTY);
    ReadStateMember(PeersSlot, p, NoMembers, State(data, map[]));
  }

  lemma StateDocReads(s: State, keys: seq<Bytes>, ids: seq<Bytes>)
    requires Encodable(s) && Enumerates(keys, s.data.Keys) && Enumerates(ids, s.peers.Keys)
    ensures StateValue(Meaning(StateDoc(s, keys, ids))) == Ok(s)
  {
    DataReads(s, keys);
    PeersRead(s, ids);
    TwoMembersRead(DataMembers(keys, s.data), PeerMembers(ids, s.peers), s.data, s.peers);
  }

  lemma StateDocDepth(s: State, keys: seq<Bytes>, ids: seq<Bytes>)
    requires Enumerates(keys, s.data.Keys) && Enumerates(ids, s.peers.Keys)
    ensures Depth(StateDoc(s, keys, ids)) <= 3
  {
    DataMembersDepth(keys, s.data);
    PeerMembersDepth(ids, s.peers);
  }

  /** Restore reads back exactly the state, in whatever order the keys were written. */
  lemma RestoreAnyOrder(s: State, keys: seq<Bytes>, ids: seq<Bytes>)
    requires Encodable(s) && Enumerates(keys, s.data.Keys) && Enumerates(ids, s.peers.Keys)
    ensures RestoreBytes(SnapshotText(s, keys, ids)) == Ok(s)
  {
    var d := StateDoc(s, keys, ids);
    StateDocReads(s, keys, ids);
    StateDocDepth(s, keys, ids);
    ReadPrinted(d, "\n");
    DecodeEncode(PrintTo(d, "\n"));
  }

  /** A restored state holds valid UTF-8 only, whatever the stream was. */
  lemma RestoredEncodable(stream: Bytes)
    requires RestoreBytes(stream).Ok?
    ensures Encodable(RestoreBytes(stream).value)
  {
    var v := ParseFirst(Utf8.Decode(stream)).value;
    if v.Object? {
      ReadStateEncodable(v.fields, EMPTY);
    }
  }

  lemma {:induction false} ReadStateEncodable(fields: Fields, s: State)
    requires Encodable(s) && ReadState(fields, s).Ok?
    ensures Encodable(ReadState(fields, s).value)
  {
    if fields.Field? {
      var v := fields.value;
      if v.Object? && DataValue(v, s.data).Ok? { ReadDataEncodable(v.fields, s.data); }
      if v.Object? && PeersValue(v, s.peers).Ok? { ReadPeersEncodable(v.fields, s.peers); }
      ReadStateEncodable(fields.tail, SetStateSlot(s, StateSlotOf(fields.key), v).value);
    }
  }

  lemma {:induction false} ReadDataEncodable(fields: Fields, data: map<Bytes, Bytes>)
    requires (forall k :: k in data ==> Valid(k)) && ReadData(fields, data).Ok?
    ensures forall k :: k in ReadData(fields, data).value ==> Valid(k)
  {
    if fields.Field? {
      DecodeEncode(fields.key);
      ReadDataEncodable(fields.tail, data[Utf8.Encode(fields.key) := BytesValue(fields.value).value]);
    }
  }

  lemma {:induction false} ReadPeersEncodable(fields: Fields, peers: map<Bytes, Peer>)
    requires (forall id :: id in peers ==> Valid(id) && ValidPeer(peers[id])) && ReadPeers(fields, peers).Ok?
    ensures forall id :: id in ReadPeers(fields, peers).value ==> Valid(id) && ValidPeer(ReadPeers(fields, peers).value[id])
  {
    if fields.Field? {
      DecodeEncode(fields.key);
      var p := ReadPeer(fields.value).value;
      if fields.value.Object? { ReadPeerFieldsValid(fields.value.fields, Peer([], [], [])); }
      ReadPeersEncodable(fields.tail, peers[Utf8.Encode(fields.key) := p]);
    }
  }

  lemma {:induction false} ReadPeerFieldsValid(fields: Fields, p: Peer)
    requires ValidPeer(p) && ReadPeerFields(fields, p).Ok?
    ensures ValidPeer(ReadPeerFields(fields, p).value)
  {
    if fields.Field? {
      var slot := PeerSlotOf(fields.key);
      SetPeerSlotValid(p, slot, fields.value);
      ReadPeerFieldsValid(fields.tail, SetPeerSlot(p, slot, fields.value).value);
    }
  }

  lemma SetPeerSlotValid(p: Peer, slot: PeerSlot, v: Value)
    requires ValidPeer(p) && SetPeerSlot(p, slot, v).Ok?
    ensures ValidPeer(SetPeerSlot(p, slot, v).value)
  {
    if v.String? { DecodeEncode(v.text); }
  }

  /** A snapshot restores to the state it was taken of exactly when that state holds valid UTF-8 only. */
  lemma RestorePersistIff(s: State)
    ensures RestoreBytes(PersistBytes(s)) == Ok(s) <==> Encodable(s)
  {
    if Encodable(s) {
      RestoreAnyOrder(s, Sorted(s.data.Keys), Sorted(s.peers.Keys));
    } else if RestoreBytes(PersistBytes(s)).Ok? {
      RestoredEncodable(PersistBytes(s));
    }
  }

  /** Every state that log bytes can produce is such a state. */
  lemma ReachableSnapshotsRestore(log: seq<Bytes>)
    ensures RestoreBytes(PersistBytes(Replay(EMPTY, log))) == Ok(Replay(EMPTY, log))
  {
    ReplayWellFormed(EMPTY, log);
    RestorePersistIff(Replay(EMPTY, log));
  }

  // ----- The text of a snapshot ------------------------------------------------------------------

  /** Peers are written under their Go field names, which have no tags. */
  lemma PeerText(p: Peer, tail: string)
    ensures PrintTo(PeerDoc(p), tail)
         == "{\"ID\":" + PrintTo(DString(p.id), ",\"Addr\":" + PrintTo(DString(p.addr), ",\"HTTPAddr\":" + PrintTo(DString(p.httpAddr), "}" + tail)))
  {
    hide PrintMembersTo, PrintTo;
    var h := PeerMember(HttpSlot, p.httpAddr, NoMembers);
    var a := PeerMember(AddrSlot, p.addr, h);
    FirstText("ID", DString(p.id), a, tail);
    NextText("Addr", DString(p.addr), h, tail);
    NextText("HTTPAddr", DString(p.httpAddr), NoMembers, tail);
    PeerLabels();
  }

  lemma PeerLabels()
    ensures "{\"" + "ID" + "\":" == "{\"ID\":" && ",\"" + "Addr" + "\":" == ",\"Addr\":" && ",\"" + "HTTPAddr" + "\":" == ",\"HTTPAddr\":"
  {
  }

  /** The data first, the peers second, and a line feed. */
  lemma StateText(s: State, keys: seq<Bytes>, ids: seq<Bytes>)
    requires (forall k :: k in keys ==> k in s.data) && (forall id :: id in ids ==> id in s.peers)
    ensures Utf8.Decode(SnapshotText(s, keys, ids))
         == "{\"data\":" + PrintTo(DObject(DataMembers(keys, s.data)), ",\"peers\":" + PrintTo(DObject(PeerMembers(ids, s.peers)), "}\n"))
  {
    hide PrintTo, DataMembers, PeerMembers, StateDoc;
    DecodeEncode(PrintTo(StateDoc(s, keys, ids), "\n"));
    StateDocText(s, keys, ids);
  }

  lemma StateDocText(s: State, keys: seq<Bytes>, ids: seq<Bytes>)
    requires (forall k :: k in keys ==> k in s.data) && (forall id :: id in ids ==> id in s.peers)
    ensures PrintTo(StateDoc(s, keys, ids), "\n")
         == "{\"data\":" + PrintTo(DObject(DataMembers(keys, s.data)), ",\"peers\":" + PrintTo(DObject(PeerMembers(ids, s.peers)), "}\n"))
  {
    hide PrintMembersTo, PrintTo, DataMembers, PeerMembers;
    var p := StateMember(PeersSlot, PeerMembers(ids, s.peers), NoMembers);
    FirstText("data", DObject(DataMembers(keys, s.data)), p, "\n");
    NextText("peers", DObject(PeerMembers(ids, s.peers)), NoMembers, "\n");
    StateLabels();
  }

  lemma StateLabels()
    ensures "{\"" + "data" + "\":" == "{\"data\":" && ",\"" + "peers" + "\":" == ",\"peers\":" && "}" + "\n" == "}\n"
  {
  }

  /** An entry of the data: the key, and the value in base64, or null for an empty one. */
  lemma EntryText(keys: seq<Bytes>, data: map<Bytes, Bytes>, tail: string)
    requires keys != [] && forall k :: k in keys ==> k in data
    ensures var v := data[keys[0]];
            PrintMembersTo(DataMembers(keys, data), tail)
              == "\"" + EscapeTo(keys[0], "\":" + ((if v == [] then "null" else "\"" + Base64.Encode(v) + "\"")
                 + (if |keys| == 1 then "}" + tail else "," + PrintMembersTo(DataMembers(keys[1..], data), tail))))
  {
    hide EscapeTo, Base64.Encode;
    var v := data[keys[0]];
    var after := if |keys| == 1 then "}" + tail else "," + PrintMembersTo(DataMembers(keys[1..], data), tail);
    assert |keys| > 1 ==> DataMembers(keys[1..], data).Member?;
    if v != [] {
      Around(Base64.Encode(v), after);
    }
  }

  lemma Around(text: string, after: string)
    ensures "\"" + (text + ("\"" + after)) == ("\"" + text + "\"") + after
  {
  }

  /** a is a proper prefix of b, or has the smaller byte where they first differ. */
  predicate Before(a: Bytes, b: Bytes) {
    a < b || exists k :: 0 <= k < |a| && k < |b| && a[..k] == b[..k] && a[k] < b[k]
  }

  lemma {:induction false} LexIsBefore(a: Bytes, b: Bytes)
    requires LexLe(a, b) && a != b
    ensures Before(a, b)
  {
    if a == [] {
      assert a < b;
    } else if a[0] < b[0] {
      assert a[..0] == b[..0];
    } else {
      assert a == [a[0]] + a[1..] && b == [b[0]] + b[1..];
      LexIsBefore(a[1..], b[1..]);
      if !(a[1..] < b[1..]) {
        var k :| 0 <= k < |a[1..]| && k < |b[1..]| && a[1..][..k] == b[1..][..k] && a[1..][k] < b[1..][k];
        assert a[..k + 1] == [a[0]] + a[1..][..k] && b[..k + 1] == [b[0]] + b[1..][..k];
        assert a[k + 1] < b[k + 1];
      }
    }
  }

  /** The keys of a map are written in increasing order, each once. */
  lemma {:induction false} SortedInOrder(s: set<Bytes>, i: nat, j: nat)
    ensures |Sorted(s)| == |s|
    ensures i < j < |Sorted(s)| ==> Before(Sorted(s)[i], Sorted(s)[j])
  {
    if s != {} {
      var k := Least(s);
      SortedInOrder(s - {k}, if i > 0 then i - 1 else 0, if j > 0 then j - 1 else 0);
      if i == 0 < j < |Sorted(s)| {
        var l := Sorted(s)[j];
        assert l == Sorted(s - {k})[j - 1];
        LexIsBefore(k, l);
      }
    }
  }

  // ----- Peers by the names of their members -------------------------------------------------------

  lemma OtherCase(name: string, a: string, b: string)
    requires |a| == |b| && forall i :: 0 <= i < |a| ==> FoldChar(a[i]) == FoldChar(b[i])
    ensures Folds(name, a) <==> Folds(name, b)
  {
    hide FoldChar;
  }

  lemma PeerSlotIff(name: string)
    ensures PeerSlotOf(name) == IdSlot <==> SameName(name, "id")
    ensures PeerSlotOf(name) == AddrSlot <==> SameName(name, "addr")
    ensures PeerSlotOf(name) == HttpSlot <==> SameName(name, "httpAddr")
  {
    OtherCase(name, "ID", "id");
    OtherCase(name, "Addr", "addr");
    OtherCase(name, "HTTPAddr", "httpAddr");
    hide Folds, SameName;
    FoldsIff(name, "id");
    FoldsIff(name, "addr");
    FoldsIff(name, "httpAddr");
    SameLength(name);
  }

  lemma StateSlotIff(name: string)
    ensures StateSlotOf(name) == DataSlot <==> SameName(name, "data")
    ensures StateSlotOf(name) == PeersSlot <==> SameName(name, "peers")
  {
    hide Folds, SameName;
    FoldsIff(name, "data");
    FoldsIff(name, "peers");
    SameLength(name);
  }

  /** The members make a peer: for each of its strings the last one under its name. */
  predicate SaysPeer(ms: seq<(string, Value)>, before: Peer, p: Peer) {
    && TextOnly(ms, "id") && TextOnly(ms, "addr") && TextOnly(ms, "httpAddr")
    && p == Peer(TextFrom(ms, "id", before.id), TextFrom(ms, "addr", before.addr), TextFrom(ms, "httpAddr", before.httpAddr))
  }

  predicate FitsPeer(m: (string, Value)) {
    SameName(m.0, "id") || SameName(m.0, "addr") || SameName(m.0, "httpAddr") ==> m.1.String? || m.1.Null?
  }

  function TakenPeer(m: (string, Value), p: Peer): Peer {
    Peer(TextStep(m, "id", p.id), TextStep(m, "addr", p.addr), TextStep(m, "httpAddr", p.httpAddr))
  }

  lemma TakesOnePeer(m: (string, Value), p: Peer)
    ensures var r := SetPeerSlot(p, PeerSlotOf(m.0), m.1); (r.Ok? <==> FitsPeer(m)) && (r.Ok? ==> r.value == TakenPeer(m, p))
  {
    hide PeerSlotOf, SameName;
    PeerSlotIff(m.0);
  }

  lemma SaysPeerCons(m: (string, Value), ms: seq<(string, Value)>, before: Peer, p: Peer)
    ensures SaysPeer([m] + ms, before, p) <==> FitsPeer(m) && SaysPeer(ms, TakenPeer(m, before), p)
  {
    hide SameName, TextOnly, TextFrom;
    TextOnlyCons(m, ms, "id");
    TextOnlyCons(m, ms, "addr");
    TextOnlyCons(m, ms, "httpAddr");
    TextFromCons(m, ms, "id", before.id);
    TextFromCons(m, ms, "addr", before.addr);
    TextFromCons(m, ms, "httpAddr", before.httpAddr);
  }

  /** The loop over the members reads what they say. */
  lemma {:induction false} ReadPeerFieldsIff(fields: Fields, before: Peer, p: Peer)
    ensures ReadPeerFields(fields, before) == Ok(p) <==> SaysPeer(Listed(fields), before, p)
  {
    hide SetPeerSlot, PeerSlotOf, SaysPeer, FitsPeer, TakenPeer;
    match fields
    case NoFields => SaysPeerNothing(before, p);
    case Field(name, v, tail) =>
      var m := (name, v);
      TakesOnePeer(m, before);
      SaysPeerCons(m, Listed(tail), before, p);
      if FitsPeer(m) {
        ReadPeerFieldsIff(tail, TakenPeer(m, before), p);
      }
  }

  lemma SaysPeerNothing(before: Peer, p: Peer)
    ensures SaysPeer([], before, p) <==> p == before
  {
  }

  /** A stream that starts with a value that says s, in whatever way it is written; what follows does not matter. */
  ghost predicate StreamText(text: string, s: State) {
    exists lead, t, rest, v :: JsonGrammar.Writes(text, lead, t, rest, v) && StateValue(v) == Ok(s)
  }

  lemma RestoreIff(stream: Bytes, s: State)
    ensures RestoreBytes(stream) == Ok(s) <==> StreamText(Utf8.Decode(stream), s)
  {
    hide ParseFirst, StateValue, JsonGrammar.Writes;
    var text := Utf8.Decode(stream);
    if RestoreBytes(stream) == Ok(s) {
      var v := ParseFirst(text).value;
      NoNumberRestores(v);
      JsonGrammar.FirstIff(text, v);
    }
    if StreamText(text, s) {
      var lead, t, rest, v :| JsonGrammar.Writes(text, lead, t, rest, v) && StateValue(v) == Ok(s);
      NoNumberRestores(v);
      JsonGrammar.FirstIff(text, v);
    }
  }

  lemma NoNumberRestores(v: Value)
    requires StateValue(v).Ok?
    ensures !v.Number?
  {
  }

  /** What a value says of a peer: null nothing, an object what its members say. */
  predicate PeerSaid(v: Value, p: Peer) {
    (v.Null? && p == Peer([], [], [])) || (v.Object? && SaysPeer(Listed(v.fields), Peer([], [], []), p))
  }

  lemma ReadPeerIff(v: Value, p: Peer)
    ensures ReadPeer(v) == Ok(p) <==> PeerSaid(v, p)
  {
    hide ReadPeerFields, SaysPeer;
    if v.Object? {
      ReadPeerFieldsIff(v.fields, Peer([], [], []), p);
    }
  }
}
