/** The FSM object: two maps on the heap, updated in place by Apply, replaced by Restore and copied by every
    reader. Maps and byte buffers are objects, so what the methods promise includes who shares them: nobody. */
module Fsm {
  import opened Wrappers
  import opened Utf8
  import opened Codec
  import opened Machine
  import opened SnapshotCodec

  type Buffer = array<Byte>

  /** A new buffer with the given bytes, as append([]byte(nil), v...) makes it. */
  method Allocate(v: Bytes) returns (b: Buffer)
    ensures fresh(b) && b[..] == v
  {
    b := new Byte[|v|](i requires 0 <= i < |v| => v[i]);
  }

  // ----- Maps on the heap --------------------------------------------------------------------------

  ghost function Texts(m: map<Bytes, Buffer>): map<Bytes, Bytes>
    reads m.Values
  {
    map k | k in m :: m[k][..]
  }

  lemma TextsPut(m: map<Bytes, Buffer>, key: Bytes, b: Buffer)
    ensures Texts(m[key := b]) == Texts(m)[key := b[..]]
  {
  }

  lemma TextsDrop(m: map<Bytes, Buffer>, key: Bytes)
    ensures Texts(m - {key}) == Texts(m) - {key}
  {
  }

  /** A map[string][]byte. Everyone who holds it sees its updates, and may write into its buffers. */
  class DataMap {
    var m: map<Bytes, Buffer>

    ghost function Repr(): set<object>
      reads this
    {
      {this} + m.Values
    }

    ghost function Contents(): map<Bytes, Bytes>
      reads Repr()
    {
      Texts(m)
    }

    /** No buffer stands under two keys. */
    ghost predicate Separate()
      reads this
    {
      forall k, l :: k in m && l in m && k != l ==> m[k] != m[l]
    }

    constructor ()
      ensures m == map[]
    {
      m := map[];
    }

    method Set(k: Bytes, b: Buffer)
      modifies this
      ensures m == old(m)[k := b]
    {
      m := m[k := b];
    }

    method Remove(k: Bytes)
      modifies this
      ensures m == old(m) - {k}
    {
      m := m - {k};
    }
  }

  /** A map[string]config.Peer. */
  class PeerMap {
    var m: map<Bytes, Peer>

    constructor ()
      ensures m == map[]
    {
      m := map[];
    }

    method Set(id: Bytes, p: Peer)
      modifies this
      ensures m == old(m)[id := p]
    {
      m := m[id := p];
    }

    method Remove(id: Bytes)
      modifies this
      ensures m == old(m) - {id}
    {
      m := m - {id};
    }
  }

  /** A map of its own with the entries of source under the prefix, each in a buffer of its own. */
  method CopyData(source: DataMap, prefix: Bytes) returns (out: DataMap)
    ensures fresh(out.Repr()) && out.Separate()
    ensures out.Contents() == map k | k in source.Contents() && prefix <= k :: source.Contents()[k]
  {
    out := new DataMap();
    var todo := source.m.Keys;
    while todo != {}
      invariant todo <= source.m.Keys
      invariant fresh(out.Repr()) && out.Separate()
      invariant out.m.Keys == set k | k in source.m.Keys - todo && prefix <= k
      invariant forall k :: k in out.m ==> out.m[k][..] == source.m[k][..]
      decreases todo
    {
      var k :| k in todo;
      if prefix <= k {
        var copy := Allocate(source.m[k][..]);
        out.Set(k, copy);
      }
      todo := todo - {k};
    }
  }

  method CopyPeers(source: PeerMap) returns (out: PeerMap)
    ensures fresh(out) && out.m == source.m
  {
    out := new PeerMap();
    var todo := source.m.Keys;
    while todo != {}
      invariant todo <= source.m.Keys
      invariant fresh(out) && out.m == map id | id in source.m && id !in todo :: source.m[id]
      decreases todo
    {
      var id :| id in todo;
      out.Set(id, source.m[id]);
      todo := todo - {id};
    }
  }

  // ----- The FSM -----------------------------------------------------------------------------------

  class FSM {
    var data: DataMap
    var peers: PeerMap

    /** Everything an update of the FSM can be seen through. */
    ghost function Repr(): set<object>
      reads this, data
    {
      {this, peers} + data.Repr()
    }

    ghost function View(): State
      reads this, Repr()
    {
      State(data.Contents(), peers.m)
    }

    constructor ()
      ensures fresh(Repr()) && View() == EMPTY && data.Separate()
    {
      data := new DataMap();
      peers := new PeerMap();
    }

    /** Updates the maps in place. Bytes that do not decode are reported and change nothing; no buffer is
        written, and those that come in are new. */
    method Apply(log: Buffer) returns (r: Result<(), string>)
      modifies data, peers
      ensures View() == ApplyEntry(old(View()), log[..])
      ensures r.Err? <==> DecodeCommand(log[..]).Err?
      ensures data == old(data) && peers == old(peers) && fresh(Repr() - old(Repr()))
      ensures old(data.Separate()) ==> data.Separate()
    {
      hide DecodeCommand, Texts;
      var decoded := DecodeCommand(log[..]);
      if decoded.Err? {
        return Err(decoded.error);
      }
      var cmd := decoded.value;
      var value := Allocate(cmd.value);
      if cmd.op == OP_PUT {
        var copy := Allocate(value[..]);
        data.Set(cmd.key, copy);
        TextsPut(old(data.m), cmd.key, copy);
      } else if cmd.op == OP_DELETE {
        data.Remove(cmd.key);
        TextsDrop(old(data.m), cmd.key);
      } else if cmd.op == OP_ADD_PEER {
        if cmd.peerId != [] {
          peers.Set(cmd.peerId, Peer(cmd.peerId, cmd.peerAddr, cmd.peerHttp));
        }
      } else if cmd.op == OP_REMOVE_PEER {
        peers.Remove(cmd.peerId);
      }
      return Ok(());
    }

    /** The caller gets a buffer of its own. */
    method Get(key: Bytes) returns (v: Option<Buffer>)
      ensures v.Some? <==> key in View().data
      ensures v.Some? ==> fresh(v.value) && v.value[..] == View().data[key]
    {
      if key !in data.m {
        return None;
      }
      var copy := Allocate(data.m[key][..]);
      return Some(copy);
    }

    /** Every entry under the prefix and no other, in a map and buffers of the caller's own. */
    method List(prefix: Bytes) returns (out: DataMap)
      ensures fresh(out.Repr()) && out.Separate()
      ensures out.Contents() == map k | k in View().data && prefix <= k :: View().data[k]
    {
      out := CopyData(data, prefix);
    }

    /** The values of the peer map, each once, in an order nobody chose. */
    method Peers() returns (out: seq<Peer>)
      ensures exists ids: seq<Bytes> :: Lists(out, ids, peers.m)
    {
      out := [];
      var todo := peers.m.Keys;
      ghost var ids: seq<Bytes> := [];
      while todo != {}
        invariant todo <= peers.m.Keys
        invariant multiset(ids) == multiset(peers.m.Keys - todo)
        invariant |out| == |ids| && forall i :: 0 <= i < |ids| ==> ids[i] in peers.m && out[i] == peers.m[ids[i]]
        decreases todo
      {
        var id :| id in todo;
        out := out + [peers.m[id]];
        ids := ids + [id];
        todo := todo - {id};
      }
      assert Lists(out, ids, peers.m) by {
        assert peers.m.Keys - {} == peers.m.Keys;
      }
    }

    method Len() returns (n: nat)
      ensures n == |View().data|
    {
      n := |data.m|;
      assert data.Contents().Keys == data.m.Keys;
    }

    /** A copy of both maps and of every buffer, shared with nothing. */
    method Snapshot() returns (snap: FsmSnapshot)
      ensures fresh(snap) && fresh(snap.Repr()) && snap.data.Separate()
      ensures snap.View() == View()
    {
      var copied := CopyData(data, []);
      assert copied.Contents() == data.Contents();
      var copiedPeers := CopyPeers(peers);
      snap := new FsmSnapshot(copied, copiedPeers);
    }

    /** The stream is decoded first: a failure changes nothing, a success puts new maps in place of both. */
    method Restore(stream: Bytes) returns (r: Result<(), string>)
      modifies this
      ensures r.Err? <==> RestoreBytes(stream).Err?
      ensures r.Err? ==> View() == old(View()) && data == old(data) && peers == old(peers)
      ensures r.Ok? ==> View() == RestoreBytes(stream).value && fresh(Repr() - {this}) && data.Separate()
    {
      var decoded := RestoreBytes(stream);
      if decoded.Err? {
        return Err(decoded.error);
      }
      data := Loaded(decoded.value.data);
      peers := new PeerMap();
      peers.m := decoded.value.peers;
      return Ok(());
    }
  }

  /** The map the decoder builds, in new buffers. */
  method Loaded(texts: map<Bytes, Bytes>) returns (out: DataMap)
    ensures fresh(out.Repr()) && out.Contents() == texts && out.Separate()
  {
    out := new DataMap();
    var todo := texts.Keys;
    while todo != {}
      invariant todo <= texts.Keys
      invariant fresh(out.Repr()) && out.Separate()
      invariant out.m.Keys == texts.Keys - todo
      invariant forall k :: k in out.m ==> out.m[k][..] == texts[k]
      decreases todo
    {
      var k :| k in todo;
      var buffer := Allocate(texts[k]);
      out.Set(k, buffer);
      todo := todo - {k};
    }
  }

  /** Is out the peers, each once, in the order of ids? */
  ghost predicate Lists(out: seq<Peer>, ids: seq<Bytes>, peers: map<Bytes, Peer>) {
    && multiset(ids) == multiset(peers.Keys)
    && |out| == |ids|
    && forall i :: 0 <= i < |ids| ==> ids[i] in peers && out[i] == peers[ids[i]]
  }

  // ----- Snapshots ---------------------------------------------------------------------------------

  class FsmSnapshot {
    const data: DataMap
    const peers: PeerMap

    ghost function Repr(): set<object>
      reads data
    {
      {peers} + data.Repr()
    }

    ghost function View(): State
      reads Repr()
    {
      State(data.Contents(), peers.m)
    }

    constructor (data: DataMap, peers: PeerMap)
      ensures this.data == data && this.peers == peers
    {
      this.data := data;
      this.peers := peers;
    }

    /** The whole text, and the sink closed, or an error: a sink that cannot take the text is cancelled, one that
        cannot be closed is left to the snapshot store. */
    method Persist(sink: Sink) returns (r: Result<(), string>)
      requires !sink.closed && !sink.cancelled && sink !in Repr()
      modifies sink
      ensures var text := PersistBytes(View());
              && (r.Ok? <==> |text| <= sink.room - |old(sink.content)| && !sink.stuck)
              && (r.Ok? <==> sink.closed) && (sink.cancelled <==> |text| > sink.room - |old(sink.content)|)
              && (!sink.cancelled ==> sink.content == old(sink.content) + text)
              && old(sink.content) <= sink.content <= old(sink.content) + text
    {
      hide PersistBytes;
      var plain := map k | k in data.m :: data.m[k][..];
      assert plain == data.Contents();
      var written := sink.Write(PersistBytes(State(plain, peers.m)));
      if !written {
        sink.Cancel();
        return Err("persist");
      }
      var closed := sink.Close();
      return if closed then Ok(()) else Err("close");
    }
  }

  /** raft.SnapshotSink: where the snapshot store puts the bytes. It has room for some of them, and closing it
      may fail. */
  class Sink {
    const room: nat
    const stuck: bool
    var content: Bytes
    var closed: bool
    var cancelled: bool

    constructor (room: nat, stuck: bool)
      ensures this.room == room && this.stuck == stuck && content == [] && !closed && !cancelled
    {
      this.room, this.stuck := room, stuck;
      content, closed, cancelled := [], false, false;
    }

    /** All of b, or an error after as much of it as there is room for. */
    method Write(b: Bytes) returns (ok: bool)
      modifies this
      ensures ok <==> |b| <= room - |old(content)|
      ensures ok ==> content == old(content) + b
      ensures old(content) <= content <= old(content) + b
      ensures closed == old(closed) && cancelled == old(cancelled)
    {
      ok := |content| + |b| <= room;
      if ok {
        content := content + b;
      } else if |content| <= room {
        content := content + b[..room - |content|];
      }
    }

    method Close() returns (ok: bool)
      modifies this
      ensures ok == closed == !stuck && content == old(content) && cancelled == old(cancelled)
    {
      ok, closed := !stuck, !stuck;
    }

    method Cancel()
      modifies this
      ensures cancelled && content == old(content) && closed == old(closed)
    {
      cancelled := true;
    }
  }

  // ----- Isolation over any run ------------------------------------------------------------------

  /** What can happen to an FSM, with callers that write into the buffers and maps they were given. */
  datatype Work =
    | ApplyWork(entry: Bytes)
    | RestoreWork(stream: Bytes)
    | ScribbleOnGet(key: Bytes, at: nat, b: Byte)
    | ScribbleOnList(prefix: Bytes, key: Bytes, at: nat, b: Byte)
    | InsertIntoList(prefix: Bytes, key: Bytes, value: Bytes)
    | DeleteFromList(prefix: Bytes, key: Bytes)
    | ScribbleOnLog(entry: Bytes, at: nat, b: Byte)

  /** The effect a piece of work should have: what callers do to what they were given has none. */
  function WorkEffect(s: State, w: Work): State {
    match w
    case ApplyWork(entry) => ApplyEntry(s, entry)
    case ScribbleOnLog(entry, _, _) => ApplyEntry(s, entry)
    case RestoreWork(stream) => var r := RestoreBytes(stream); if r.Ok? then r.value else s
    case _ => s
  }

  function RunWork(s: State, work: seq<Work>): State {
    if work == [] then s else WorkEffect(RunWork(s, work[..|work| - 1]), work[|work| - 1])
  }

  method Scribble(b: Buffer, at: nat, x: Byte)
    modifies b
  {
    if at < b.Length { b[at] := x; }
  }

  /** A caller writes into what Get returned. */
  method GetAndScribble(f: FSM, key: Bytes, at: nat, b: Byte)
    ensures f.View() == old(f.View())
  {
    var v := f.Get(key);
    if v.Some? { Scribble(v.value, at, b); }
  }

  /** A caller writes into a buffer that List returned. */
  method ListAndScribble(f: FSM, prefix: Bytes, key: Bytes, at: nat, b: Byte)
    ensures f.View() == old(f.View())
  {
    var out := f.List(prefix);
    if key in out.m {
      assert out.m[key] in out.Repr();
      Scribble(out.m[key], at, b);
    }
  }

  /** A caller adds to the map that List returned, and takes from it. */
  method ListAndUpdate(f: FSM, prefix: Bytes, key: Bytes, value: Option<Bytes>)
    ensures f.View() == old(f.View())
  {
    var out := f.List(prefix);
    if value.Some? {
      var b := Allocate(value.value);
      out.Set(key, b);
    } else {
      out.Remove(key);
    }
  }

  /** The owner of a log entry writes into it after it was applied. */
  method ApplyAndScribble(f: FSM, entry: Bytes, at: nat, b: Byte)
    modifies f.data, f.peers
    ensures f.data == old(f.data) && f.peers == old(f.peers) && fresh(f.Repr() - old(f.Repr()))
    ensures f.View() == ApplyEntry(old(f.View()), entry)
  {
    var log := Allocate(entry);
    var _ := f.Apply(log);
    assert log !in f.Repr();
    Scribble(log, at, b);
  }

  /** One piece of work. It may touch whatever the FSM is made of; what the FSM gains is new. */
  method Perform(f: FSM, w: Work)
    modifies f.Repr()
    ensures fresh(f.Repr() - old(f.Repr()))
    ensures f.View() == WorkEffect(old(f.View()), w)
  {
    match w
    case ApplyWork(entry) =>
      var log := Allocate(entry);
      var _ := f.Apply(log);
    case RestoreWork(stream) =>
      var _ := f.Restore(stream);
    case ScribbleOnGet(key, at, b) =>
      GetAndScribble(f, key, at, b);
    case ScribbleOnList(prefix, key, at, b) =>
      ListAndScribble(f, prefix, key, at, b);
    case InsertIntoList(prefix, key, value) =>
      ListAndUpdate(f, prefix, key, Some(value));
    case DeleteFromList(prefix, key) =>
      ListAndUpdate(f, prefix, key, None);
    case ScribbleOnLog(entry, at, b) =>
      ApplyAndScribble(f, entry, at, b);
  }

  /** The same beside a snapshot that shares nothing with the FSM: it does not notice. */
  method PerformBeside(f: FSM, w: Work, snap: FsmSnapshot)
    requires f.Repr() !! snap.Repr()
    modifies f.Repr()
    ensures f.View() == WorkEffect(old(f.View()), w)
    ensures fresh(f.Repr() - old(f.Repr()))
    ensures f.Repr() !! snap.Repr() && snap.Repr() == old(snap.Repr()) && snap.View() == old(snap.View())
  {
    Perform(f, w);
  }

  lemma RunWorkStep(s: State, work: seq<Work>, i: nat)
    requires i < |work|
    ensures RunWork(s, work[..i + 1]) == WorkEffect(RunWork(s, work[..i]), work[i])
  {
    assert work[..i + 1][..i] == work[..i];
  }

  method PerformAll(f: FSM, work: seq<Work>, snap: FsmSnapshot)
    requires f.Repr() !! snap.Repr()
    modifies f.Repr()
    ensures f.View() == RunWork(old(f.View()), work)
    ensures fresh(f.Repr() - old(f.Repr()))
    ensures f.Repr() !! snap.Repr() && snap.Repr() == old(snap.Repr()) && snap.View() == old(snap.View())
  {
    ghost var taken := f.View();
    for i := 0 to |work|
      invariant f.View() == RunWork(taken, work[..i])
      invariant fresh(f.Repr() - old(f.Repr()))
      invariant f.Repr() !! snap.Repr() && snap.Repr() == old(snap.Repr()) && snap.View() == old(snap.View())
    {
      PerformBeside(f, work[i], snap);
      RunWorkStep(taken, work, i);
    }
    assert work[..|work|] == work;
  }

  /** A snapshot taken before any amount of work persists the state as it was when it was taken,
      and the FSM has followed the work alone. */
  method PersistAfterWork(f: FSM, work: seq<Work>, sink: Sink) returns (snap: FsmSnapshot, r: Result<(), string>)
    requires !sink.closed && !sink.cancelled && sink.content == [] && sink !in f.Repr()
    modifies f.Repr(), sink
    ensures r.Ok? <==> |PersistBytes(old(f.View()))| <= sink.room && !sink.stuck
    ensures r.Ok? ==> sink.closed && sink.content == PersistBytes(old(f.View()))
    ensures r.Err? ==> !sink.closed && sink.content <= PersistBytes(old(f.View()))
    ensures f.View() == RunWork(old(f.View()), work) && f.Repr() !! snap.Repr()
  {
    hide PersistBytes, RunWork, Texts, FSM.View, FsmSnapshot.View;
    snap := f.Snapshot();
    PerformAll(f, work, snap);
    r := snap.Persist(sink);
  }
}
