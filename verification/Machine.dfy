/** The replicated state machine as a function of its log: KV data and dynamic peers. */
module Machine {
  import opened Wrappers
  import opened Utf8
  import opened Codec
  import Json

  datatype Peer = Peer(id: Bytes, addr: Bytes, httpAddr: Bytes)

  datatype State = State(data: map<Bytes, Bytes>, peers: map<Bytes, Peer>)

  const EMPTY := State(map[], map[])

  function ApplyCommand(s: State, c: Command): State {
    if c.op == OP_PUT then
      s.(data := s.data[c.key := c.value])
    else if c.op == OP_DELETE then
      s.(data := s.data - {c.key})
    else if c.op == OP_ADD_PEER then
      if c.peerId != [] then s.(peers := s.peers[c.peerId := Peer(c.peerId, c.peerAddr, c.peerHttp)]) else s
    else if c.op == OP_REMOVE_PEER then
      s.(peers := s.peers - {c.peerId})
    else s
  }

  /** One log entry; bytes that do not decode change nothing. */
  function ApplyEntry(s: State, entry: Bytes): State {
    match DecodeCommand(entry)
    case Err(_) => s
    case Ok(c) => ApplyCommand(s, c)
  }

  function Replay(s: State, log: seq<Bytes>): State {
    if log == [] then s else ApplyEntry(Replay(s, log[..|log| - 1]), log[|log| - 1])
  }

  lemma {:induction false} ReplayAppend(s: State, a: seq<Bytes>, b: seq<Bytes>)
    ensures Replay(s, a + b) == Replay(Replay(s, a), b)
  {
    if b == [] {
      assert a + b == a;
    } else {
      ReplayAppend(s, a, b[..|b| - 1]);
      assert (a + b)[..|a + b| - 1] == a + b[..|b| - 1];
    }
  }

  // ----- The last writer wins --------------------------------------------------------------------

  /** The places a command can touch. */
  datatype Target = KeyTarget(key: Bytes) | PeerTarget(id: Bytes)

  datatype Cell = Absent | KeyCell(value: Bytes) | PeerCell(peer: Peer)

  function Lookup(s: State, t: Target): Cell {
    match t
    case KeyTarget(key) => if key in s.data then KeyCell(s.data[key]) else Absent
    case PeerTarget(id) => if id in s.peers then PeerCell(s.peers[id]) else Absent
  }

  /** What a log entry does on every node: nothing, or set one place. */
  datatype Effect = NoEffect | Write(target: Target, cell: Cell)

  function CommandEffect(c: Command): Effect {
    if c.op == OP_PUT then Write(KeyTarget(c.key), KeyCell(c.value))
    else if c.op == OP_DELETE then Write(KeyTarget(c.key), Absent)
    else if c.op == OP_ADD_PEER then
      if c.peerId != [] then Write(PeerTarget(c.peerId), PeerCell(Peer(c.peerId, c.peerAddr, c.peerHttp))) else NoEffect
    else if c.op == OP_REMOVE_PEER then Write(PeerTarget(c.peerId), Absent)
    else NoEffect
  }

  function EffectOf(entry: Bytes): Effect {
    match DecodeCommand(entry)
    case Err(_) => NoEffect
    case Ok(c) => CommandEffect(c)
  }

  predicate Writes(entry: Bytes, t: Target) {
    EffectOf(entry).Write? && EffectOf(entry).target == t
  }

  /** An entry sets the place it names and leaves every other place alone. */
  lemma ApplySetsOnePlace(s: State, entry: Bytes, t: Target)
    ensures Lookup(ApplyEntry(s, entry), t) == if Writes(entry, t) then EffectOf(entry).cell else Lookup(s, t)
  {
    var r := DecodeCommand(entry);
    if r.Ok? {
      CommandSetsOnePlace(s, r.value, t);
    }
  }

  lemma CommandSetsOnePlace(s: State, c: Command, t: Target)
    ensures var e := CommandEffect(c);
            Lookup(ApplyCommand(s, c), t) == if e.Write? && e.target == t then e.cell else Lookup(s, t)
  {
  }

  lemma StateIsItsPlaces(a: State, b: State)
    requires forall t :: Lookup(a, t) == Lookup(b, t)
    ensures a == b
  {
    assert a.data.Keys == b.data.Keys && forall k :: k in a.data ==> a.data[k] == b.data[k] by {
      forall k ensures (k in a.data <==> k in b.data) && (k in a.data ==> a.data[k] == b.data[k]) {
        assert Lookup(a, KeyTarget(k)) == Lookup(b, KeyTarget(k));
      }
    }
    assert a.peers.Keys == b.peers.Keys && forall k :: k in a.peers ==> a.peers[k] == b.peers[k] by {
      forall k ensures (k in a.peers <==> k in b.peers) && (k in a.peers ==> a.peers[k] == b.peers[k]) {
        assert Lookup(a, PeerTarget(k)) == Lookup(b, PeerTarget(k));
      }
    }
  }

  /** The index of the last entry that writes t. */
  function LastWrite(log: seq<Bytes>, t: Target): (r: Option<nat>)
    ensures r.Some? ==> r.value < |log|
  {
    LastIndex(log, e => Writes(e, t))
  }

  lemma LastWriteIsLast(log: seq<Bytes>, t: Target)
    ensures var r := LastWrite(log, t);
            && (r.Some? ==> Writes(log[r.value], t))
            && (forall j :: (if r.Some? then r.value < j else 0 <= j) && j < |log| ==> !Writes(log[j], t))
  {
    var p := e => Writes(e, t);
    var r := LastIndex(log, p);
    forall j | (if r.Some? then r.value < j else 0 <= j) && j < |log| ensures !Writes(log[j], t) {
      assert !p(log[j]);
    }
  }

  function CellAfter(e: Effect): Cell {
    if e.Write? then e.cell else Absent
  }

  /** After any log, every place holds what its last writer put there. */
  lemma {:induction false} LastWriterWins(s: State, log: seq<Bytes>, t: Target)
    ensures Lookup(Replay(s, log), t) ==
            match LastWrite(log, t) case Some(i) => CellAfter(EffectOf(log[i])) case None => Lookup(s, t)
  {
    if log != [] {
      ApplySetsOnePlace(Replay(s, log[..|log| - 1]), log[|log| - 1], t);
      LastWriterWins(s, log[..|log| - 1], t);
    }
  }

  /** Applying the end of a log a second time changes nothing, so an overlap of a snapshot with the log behind
      it does no harm. */
  lemma OverlapHarmless(s: State, a: seq<Bytes>, b: seq<Bytes>)
    ensures Replay(s, a + b + b) == Replay(s, a + b)
  {
    var once := Replay(s, a);
    var twice := Replay(once, b);
    ReplayAppend(s, a, b);
    ReplayAppend(s, a + b, b);
    forall t ensures Lookup(Replay(twice, b), t) == Lookup(twice, t) {
      LastWriterWins(once, b, t);
      LastWriterWins(twice, b, t);
    }
    StateIsItsPlaces(Replay(twice, b), twice);
  }

  // ----- Compaction ------------------------------------------------------------------------------

  /** No effect, or a later entry writes the same place. */
  ghost predicate Superseded(log: seq<Bytes>, i: nat)
    requires i < |log|
  {
    EffectOf(log[i]).Write? ==> exists j :: i < j < |log| && Writes(log[j], EffectOf(log[i]).target)
  }

  /** The entries of the log whose mark is set, in order. */
  function Keep(log: seq<Bytes>, marks: seq<bool>): seq<Bytes>
    requires |log| == |marks|
  {
    if log == [] then [] else
      Keep(log[..|log| - 1], marks[..|log| - 1]) + (if marks[|log| - 1] then [log[|log| - 1]] else [])
  }

  /** A place does not notice dropped entries as long as its last writer stays. */
  lemma {:induction false} KeepLookup(s: State, log: seq<Bytes>, marks: seq<bool>, t: Target)
    requires |log| == |marks|
    requires LastWrite(log, t).Some? ==> marks[LastWrite(log, t).value]
    ensures Lookup(Replay(s, Keep(log, marks)), t) == Lookup(Replay(s, log), t)
  {
    if log != [] {
      var n := |log| - 1;
      var kept := Keep(log[..n], marks[..n]);
      ApplySetsOnePlace(Replay(s, log[..n]), log[n], t);
      ApplySetsOnePlace(Replay(s, kept), log[n], t);
      assert (kept + [log[n]])[..|kept|] == kept;
      assert kept + [] == kept;
      if !Writes(log[n], t) {
        KeepLookup(s, log[..n], marks[..n], t);
      }
    }
  }

  /** Dropping any set of superseded entries leaves the final state as it was. */
  lemma CompactionPreservesState(s: State, log: seq<Bytes>, marks: seq<bool>)
    requires |log| == |marks|
    requires forall i :: 0 <= i < |log| && !marks[i] ==> Superseded(log, i)
    ensures Replay(s, Keep(log, marks)) == Replay(s, log)
  {
    forall t ensures Lookup(Replay(s, Keep(log, marks)), t) == Lookup(Replay(s, log), t) {
      LastWriteIsLast(log, t);
      KeepLookup(s, log, marks, t);
    }
    StateIsItsPlaces(Replay(s, Keep(log, marks)), Replay(s, log));
  }

  // ----- Commutation -----------------------------------------------------------------------------

  /** Different places, no effect, or the same effect. */
  predicate Independent(a: Bytes, b: Bytes) {
    var x, y := EffectOf(a), EffectOf(b);
    x.Write? && y.Write? && x.target == y.target ==> x.cell == y.cell
  }

  lemma IndependentCommute(s: State, a: Bytes, b: Bytes)
    requires Independent(a, b)
    ensures ApplyEntry(ApplyEntry(s, a), b) == ApplyEntry(ApplyEntry(s, b), a)
  {
    var x, y := ApplyEntry(ApplyEntry(s, a), b), ApplyEntry(ApplyEntry(s, b), a);
    forall t ensures Lookup(x, t) == Lookup(y, t) {
      ApplySetsOnePlace(s, a, t);
      ApplySetsOnePlace(s, b, t);
      ApplySetsOnePlace(ApplyEntry(s, a), b, t);
      ApplySetsOnePlace(ApplyEntry(s, b), a, t);
    }
    StateIsItsPlaces(x, y);
  }

  /** Two entries can be swapped in every state exactly when they are independent. */
  lemma CommuteIff(a: Bytes, b: Bytes)
    ensures Independent(a, b) <==> forall s :: ApplyEntry(ApplyEntry(s, a), b) == ApplyEntry(ApplyEntry(s, b), a)
  {
    if Independent(a, b) {
      forall s ensures ApplyEntry(ApplyEntry(s, a), b) == ApplyEntry(ApplyEntry(s, b), a) {
        IndependentCommute(s, a, b);
      }
    } else {
      var t := EffectOf(a).target;
      ApplySetsOnePlace(ApplyEntry(EMPTY, a), b, t);
      ApplySetsOnePlace(ApplyEntry(EMPTY, b), a, t);
      assert ApplyEntry(ApplyEntry(EMPTY, a), b) != ApplyEntry(ApplyEntry(EMPTY, b), a);
    }
  }

  // ----- What the commands of the store do -------------------------------------------------------

  lemma EffectOfEncoded(c: Command)
    ensures EffectOf(EncodeCommand(c)) == CommandEffect(Clean(c))
    ensures forall s :: ApplyEntry(s, EncodeCommand(c)) == ApplyCommand(s, Clean(c))
  {
    DecodeEncodeCommand(c);
  }

  lemma OpIsAscii(op: Bytes)
    requires op in {OP_PUT, OP_DELETE, OP_ADD_PEER, OP_REMOVE_PEER}
    ensures forall i :: 0 <= i < |op| ==> op[i] < 0x80
  {
  }

  lemma CleanOp(c: Command)
    requires c.op in {OP_PUT, OP_DELETE, OP_ADD_PEER, OP_REMOVE_PEER}
    ensures Clean(c).op == c.op
  {
    OpIsAscii(c.op);
    LowBytesValid(c.op);
    SanitizeIdentity(c.op);
  }

  /** A put entry stores the value under the key that arrives, which is the key itself when it is valid UTF-8. */
  lemma PutEffect(key: Bytes, value: Bytes)
    ensures EffectOf(EncodeCommand(PutCommand(key, value))) == Write(KeyTarget(Sanitize(key)), KeyCell(value))
    ensures Sanitize(key) == key <==> Valid(key)
  {
    CleanOp(PutCommand(key, value));
    EffectOfEncoded(PutCommand(key, value));
    SanitizeIdentity(key);
  }

  lemma DeleteEffect(key: Bytes)
    ensures EffectOf(EncodeCommand(DeleteCommand(key))) == Write(KeyTarget(Sanitize(key)), Absent)
  {
    CleanOp(DeleteCommand(key));
    EffectOfEncoded(DeleteCommand(key));
  }

  lemma AddPeerEffect(id: Bytes, addr: Bytes, http: Bytes)
    requires Sanitize(id) != []
    ensures EffectOf(EncodeCommand(AddPeerCommand(id, addr, http)))
         == Write(PeerTarget(Sanitize(id)), PeerCell(Peer(Sanitize(id), Sanitize(addr), Sanitize(http))))
  {
    CleanOp(AddPeerCommand(id, addr, http));
    EffectOfEncoded(AddPeerCommand(id, addr, http));
  }

  lemma RemovePeerEffect(id: Bytes)
    ensures EffectOf(EncodeCommand(RemovePeerCommand(id))) == Write(PeerTarget(Sanitize(id)), Absent)
  {
    CleanOp(RemovePeerCommand(id));
    EffectOfEncoded(RemovePeerCommand(id));
  }

  // ----- What entries do, by their text ------------------------------------------------------------

  /** The entry with this text stores a value under a key, whatever the state. */
  lemma PutTextStores(s: State, key: Bytes, value: Bytes)
    requires Valid(key) && key != [] && value != []
    ensures var text := "{\"op\":" + ("\"put\"" + (",\"key\":" + Json.PrintTo(Json.DString(key), ",\"value\":" + Json.PrintTo(Json.DBytes(value), "}"))));
            ApplyEntry(s, Utf8.Encode(text)) == State(s.data[key := value], s.peers)
  {
    hide Json.PrintTo, DecodeCommand;
    PutText(key, value);
    EffectOfEncoded(PutCommand(key, value));
    CleanOp(PutCommand(key, value));
    SanitizeIdentity(key);
    DistinctOps();
  }

  /** The entry with this text takes the key away. */
  lemma DeleteTextClears(s: State, key: Bytes)
    requires Valid(key) && key != []
    ensures var text := "{\"op\":" + ("\"delete\"" + (",\"key\":" + Json.PrintTo(Json.DString(key), "}")));
            ApplyEntry(s, Utf8.Encode(text)) == State(s.data - {key}, s.peers)
  {
    hide Json.PrintTo, DecodeCommand;
    DeleteText(key);
    EffectOfEncoded(DeleteCommand(key));
    CleanOp(DeleteCommand(key));
    SanitizeIdentity(key);
    DistinctOps();
  }

  /** The entry with this text files a peer under its id. */
  lemma AddPeerTextRecords(s: State, id: Bytes, addr: Bytes, http: Bytes)
    requires Valid(id) && Valid(addr) && Valid(http) && id != [] && addr != [] && http != []
    ensures var text := "{\"op\":" + ("\"addPeer\"" + (",\"peerId\":" + Json.PrintTo(Json.DString(id),
                        ",\"peerAddr\":" + Json.PrintTo(Json.DString(addr), ",\"peerHttp\":" + Json.PrintTo(Json.DString(http), "}")))));
            ApplyEntry(s, Utf8.Encode(text)) == State(s.data, s.peers[id := Peer(id, addr, http)])
  {
    hide Json.PrintTo, DecodeCommand;
    AddPeerText(id, addr, http);
    EffectOfEncoded(AddPeerCommand(id, addr, http));
    CleanOp(AddPeerCommand(id, addr, http));
    SanitizeIdentity(id);
    SanitizeIdentity(addr);
    SanitizeIdentity(http);
    DistinctOps();
  }

  /** The entry with this text takes the record of the peer away. */
  lemma RemovePeerTextClears(s: State, id: Bytes)
    requires Valid(id) && id != []
    ensures var text := "{\"op\":" + ("\"removePeer\"" + (",\"peerId\":" + Json.PrintTo(Json.DString(id), "}")));
            ApplyEntry(s, Utf8.Encode(text)) == State(s.data, s.peers - {id})
  {
    hide Json.PrintTo, DecodeCommand;
    RemovePeerText(id);
    EffectOfEncoded(RemovePeerCommand(id));
    CleanOp(RemovePeerCommand(id));
    SanitizeIdentity(id);
    DistinctOps();
  }

  lemma DistinctOps()
    ensures OP_PUT != OP_DELETE && OP_PUT != OP_ADD_PEER && OP_PUT != OP_REMOVE_PEER
    ensures OP_DELETE != OP_ADD_PEER && OP_DELETE != OP_REMOVE_PEER && OP_ADD_PEER != OP_REMOVE_PEER
  {
    assert |OP_PUT| == 3 && |OP_DELETE| == 6 && |OP_ADD_PEER| == 7 && |OP_REMOVE_PEER| == 10;
  }

  // ----- What every reachable state satisfies ----------------------------------------------------

  predicate ValidPeer(p: Peer) {
    Valid(p.id) && Valid(p.addr) && Valid(p.httpAddr)
  }

  /** Keys and peer strings are valid UTF-8. */
  ghost predicate Encodable(s: State) {
    (forall k :: k in s.data ==> Valid(k)) && (forall id :: id in s.peers ==> Valid(id) && ValidPeer(s.peers[id]))
  }

  /** Peers are filed under their own, non-empty id. */
  ghost predicate Indexed(peers: map<Bytes, Peer>) {
    forall id :: id in peers ==> id != [] && peers[id].id == id
  }

  ghost predicate WellFormed(s: State) {
    Encodable(s) && Indexed(s.peers)
  }

  lemma ApplyWellFormed(s: State, entry: Bytes)
    requires WellFormed(s)
    ensures WellFormed(ApplyEntry(s, entry))
  {
    var r := DecodeCommand(entry);
    if r.Ok? {
      DecodedStringsValid(entry);
      CommandWellFormed(s, r.value);
    }
  }

  lemma CommandWellFormed(s: State, c: Command)
    requires WellFormed(s) && ValidStrings(c)
    ensures WellFormed(ApplyCommand(s, c))
  {
    hide Valid;
    var s' := ApplyCommand(s, c);
    forall k | k in s'.data ensures Valid(k) {
      assert k == c.key || k in s.data;
    }
    forall id | id in s'.peers ensures Valid(id) && ValidPeer(s'.peers[id]) && id != [] && s'.peers[id].id == id {
      assert s'.peers[id] == Peer(c.peerId, c.peerAddr, c.peerHttp) || (id in s.peers && s'.peers[id] == s.peers[id]);
    }
  }

  /** Whatever bytes are applied, in whatever number. */
  lemma {:induction false} ReplayWellFormed(s: State, log: seq<Bytes>)
    requires WellFormed(s)
    ensures WellFormed(Replay(s, log))
  {
    if log != [] {
      ReplayWellFormed(s, log[..|log| - 1]);
      ApplyWellFormed(Replay(s, log[..|log| - 1]), log[|log| - 1]);
    }
  }
}
