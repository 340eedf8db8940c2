/** Membership requests. A join changes the voters and then records the peer's addresses in the replicated
    map; a removal changes the voters and then drops the record. The two halves are two entries of the raft
    history, so requests interleave, fail half-way and overtake each other. */
module Membership {
  import opened Wrappers
  import opened Utf8
  import Json
  import JsonGrammar
  import opened Codec
  import opened Machine
  import opened SnapshotCodec
  import Cluster

  // ----- Requests and the history ----------------------------------------------------------------

  /** What is left of a request once the body is read and the leader gate is passed. */
  datatype Request =
    | Join(id: Bytes, addr: Bytes, http: Bytes)
    | Remove(id: Bytes)
    | Put(key: Bytes, value: Bytes)
    | Delete(key: Bytes)

  datatype Item = VoterAdded(id: Bytes, addr: Bytes) | ServerRemoved(id: Bytes) | Data(command: Command)

  /** A committed entry and the request that proposed it. */
  datatype Entry = Entry(item: Item, owner: nat)

  predicate Changes(r: Request) {
    r.Join? || r.Remove?
  }

  /** A peer without an HTTP address is not recorded. */
  predicate Records(r: Request) {
    r.Join? ==> r.http != []
  }

  function ChangeItem(r: Request): Item
    requires Changes(r)
  {
    if r.Join? then VoterAdded(r.id, r.addr) else ServerRemoved(r.id)
  }

  function RecordItem(r: Request): Item {
    match r
    case Join(id, addr, http) => Data(AddPeerCommand(id, addr, http))
    case Remove(id) => Data(RemovePeerCommand(id))
    case Put(key, value) => Data(PutCommand(key, value))
    case Delete(key) => Data(DeleteCommand(key))
  }

  /** What an entry that carries a command does on every replica, once it has been encoded and decoded. */
  function ItemEffect(item: Item): Effect
    requires item.Data?
  {
    CommandEffect(Clean(item.command))
  }

  /** The voters by id, with their raft addresses. */
  function Voters(start: map<Bytes, Bytes>, log: seq<Entry>): map<Bytes, Bytes> {
    if log == [] then start else
      var rest := Voters(start, log[..|log| - 1]);
      match log[|log| - 1].item
      case VoterAdded(id, addr) => rest[id := addr]
      case ServerRemoved(id) => rest - {id}
      case Data(_) => rest
  }

  /** What every replica holds once it has applied the history. */
  function StateAfter(log: seq<Entry>): State {
    if log == [] then EMPTY else
      var rest := StateAfter(log[..|log| - 1]);
      var item := log[|log| - 1].item;
      if item.Data? then ApplyCommand(rest, Clean(item.command)) else rest
  }

  function Peers(log: seq<Entry>): map<Bytes, Peer> {
    StateAfter(log).peers
  }

  /** The history as raft keeps it: every change entry carries all the voters. */
  function Raw(start: map<Bytes, Bytes>, log: seq<Entry>): seq<Cluster.Entry> {
    if log == [] then [] else
      var item := log[|log| - 1].item;
      Raw(start, log[..|log| - 1])
      + [if item.Data? then Cluster.Command(EncodeCommand(item.command)) else Cluster.Membership(Voters(start, log))]
  }

  /** The replicated state here is the one every replica of the cluster owes. */
  lemma {:induction false} StateIsReplicated(start: map<Bytes, Bytes>, log: seq<Entry>)
    ensures |Raw(start, log)| == |log| && StateAfter(log) == Cluster.StateAt(Raw(start, log), |log|)
  {
    if log != [] {
      var raw, before := Raw(start, log), Raw(start, log[..|log| - 1]);
      StateIsReplicated(start, log[..|log| - 1]);
      assert raw[..|log| - 1] == before && before[..|before|] == before && raw[..|log|] == raw;
      var data := Cluster.Payloads(before);
      var item := log[|log| - 1].item;
      assert Cluster.Payloads(raw) == data + if item.Data? then [EncodeCommand(item.command)] else [];
      assert item.Data? ==> (data + [EncodeCommand(item.command)])[..|data|] == data;
      assert item.Data? || data + [] == data;
      if item.Data? { EffectOfEncoded(item.command); }
    }
  }

  // ----- The step system -------------------------------------------------------------------------

  /** A request is at its first half, at its second, or answered. */
  datatype Phase = Changing | Recording | Finished | Failed(half: bool)

  /** Where the halves of a request stand in the history, once they are committed. */
  datatype Call = Call(request: Request, phase: Phase, changed: Option<nat>, recorded: Option<nat>)

  datatype System = System(log: seq<Entry>, calls: map<nat, Call>)

  datatype Step =
    | Open(n: nat, request: Request)   // the leader starts to serve a request
    | Commit(n: nat)                   // raft commits what the request proposed, even after it gave up
    | Pass(n: nat)                     // a future answers nil: on to the next half, or to the reply
    | Fail(n: nat)                     // a future answers an error, or the second leader gate is shut

  /** Strings of a membership request come out of a JSON body. */
  predicate FromBody(r: Request) {
    match r
    case Join(id, addr, http) => Valid(id) && Valid(addr) && Valid(http)
    case Remove(id) => Valid(id)
    case _ => true
  }

  predicate AtChange(c: Call) {
    c.phase == Changing || c.phase == Failed(false)
  }

  predicate AtRecord(c: Call) {
    c.phase == Recording || c.phase == Failed(true)
  }

  predicate CanCommit(c: Call) {
    || (AtChange(c) && Changes(c.request) && c.changed.None?)
    || (AtRecord(c) && c.recorded.None?)
  }

  predicate CanPass(c: Call) {
    || (c.phase == Changing && c.changed.Some?)
    || (c.phase == Recording && c.recorded.Some?)
  }

  predicate Enabled(s: System, step: Step) {
    match step
    case Open(n, r) => n !in s.calls && FromBody(r)
    case Commit(n) => n in s.calls && CanCommit(s.calls[n])
    case Pass(n) => n in s.calls && CanPass(s.calls[n])
    case Fail(n) => n in s.calls && (s.calls[n].phase == Changing || s.calls[n].phase == Recording)
  }

  function Opened(r: Request): Call {
    Call(r, if Changes(r) then Changing else Recording, None, None)
  }

  function Passed(c: Call): Call {
    c.(phase := if c.phase == Changing && Records(c.request) then Recording else Finished)
  }

  ghost predicate CallInv(log: seq<Entry>, n: nat, c: Call) {
    && FromBody(c.request)
    && (c.changed.Some? ==> Changes(c.request) && c.changed.value < |log| && log[c.changed.value] == Entry(ChangeItem(c.request), n))
    && (c.recorded.Some? ==> Records(c.request) && c.recorded.value < |log| && log[c.recorded.value] == Entry(RecordItem(c.request), n))
    && (AtChange(c) ==> Changes(c.request) && c.recorded.None?)
    && (AtRecord(c) ==> Records(c.request))
    && (!AtChange(c) && Changes(c.request) ==> c.changed.Some?)
    && (c.phase.Finished? && Records(c.request) ==> c.recorded.Some?)
    && (c.changed.Some? && c.recorded.Some? ==> c.changed.value < c.recorded.value)
  }

  ghost predicate OwnerInv(log: seq<Entry>, calls: map<nat, Call>, i: nat)
    requires i < |log|
  {
    && log[i].owner in calls
    && (calls[log[i].owner].changed == Some(i) || calls[log[i].owner].recorded == Some(i))
  }

  ghost predicate Inv(s: System) {
    && (forall n :: n in s.calls ==> CallInv(s.log, n, s.calls[n]))
    && (forall i :: 0 <= i < |s.log| ==> OwnerInv(s.log, s.calls, i))
  }

  function Committed(s: System, n: nat): System
    requires Enabled(s, Commit(n))
  {
    var c := s.calls[n];
    if AtChange(c) then System(s.log + [Entry(ChangeItem(c.request), n)], s.calls[n := c.(changed := Some(|s.log|))])
    else System(s.log + [Entry(RecordItem(c.request), n)], s.calls[n := c.(recorded := Some(|s.log|))])
  }

  function Do(s: System, step: Step): System
    requires Enabled(s, step)
  {
    match step
    case Open(n, r) => s.(calls := s.calls[n := Opened(r)])
    case Commit(n) => Committed(s, n)
    case Pass(n) => s.(calls := s.calls[n := Passed(s.calls[n])])
    case Fail(n) => s.(calls := s.calls[n := s.calls[n].(phase := Failed(s.calls[n].phase == Recording))])
  }

  lemma LongerLog(log: seq<Entry>, e: Entry, n: nat, c: Call)
    requires CallInv(log, n, c)
    ensures CallInv(log + [e], n, c)
  {
  }

  lemma CommittedCall(log: seq<Entry>, n: nat, c: Call)
    requires CallInv(log, n, c) && CanCommit(c)
    ensures AtChange(c) ==> CallInv(log + [Entry(ChangeItem(c.request), n)], n, c.(changed := Some(|log|)))
    ensures !AtChange(c) ==> CallInv(log + [Entry(RecordItem(c.request), n)], n, c.(recorded := Some(|log|)))
  {
  }

  lemma LongerOwner(s: System, n: nat, e: Entry, c: Call, i: nat)
    requires n in s.calls && i < |s.log| && OwnerInv(s.log, s.calls, i)
    requires s.calls[n].changed.Some? ==> c.changed == s.calls[n].changed
    requires s.calls[n].recorded.Some? ==> c.recorded == s.calls[n].recorded
    ensures OwnerInv(s.log + [e], s.calls[n := c], i)
  {
    assert (s.log + [e])[i] == s.log[i];
  }

  lemma AppendedInv(s: System, n: nat, e: Entry, c: Call)
    requires Inv(s) && n in s.calls && e.owner == n && CallInv(s.log + [e], n, c)
    requires c.changed == Some(|s.log|) || c.recorded == Some(|s.log|)
    requires s.calls[n].changed.Some? ==> c.changed == s.calls[n].changed
    requires s.calls[n].recorded.Some? ==> c.recorded == s.calls[n].recorded
    ensures Inv(System(s.log + [e], s.calls[n := c]))
  {
    var log, calls := s.log + [e], s.calls[n := c];
    forall m | m in s.calls && m != n ensures CallInv(log, m, s.calls[m]) {
      LongerLog(s.log, e, m, s.calls[m]);
    }
    forall i: nat | i < |s.log| ensures OwnerInv(log, calls, i) {
      LongerOwner(s, n, e, c, i);
    }
    assert OwnerInv(log, calls, |s.log|);
  }

  lemma CommitKeepsInv(s: System, n: nat)
    requires Inv(s) && Enabled(s, Commit(n))
    ensures Inv(Do(s, Commit(n)))
  {
    var c := s.calls[n];
    CommittedCall(s.log, n, c);
    if AtChange(c) {
      AppendedInv(s, n, Entry(ChangeItem(c.request), n), c.(changed := Some(|s.log|)));
    } else {
      AppendedInv(s, n, Entry(RecordItem(c.request), n), c.(recorded := Some(|s.log|)));
    }
  }

  lemma StepKeepsInv(s: System, step: Step)
    requires Inv(s) && Enabled(s, step)
    ensures Inv(Do(s, step)) && s.log <= Do(s, step).log
  {
    if step.Commit? {
      CommitKeepsInv(s, step.n);
    } else {
      var s' := Do(s, step);
      forall m | m in s'.calls ensures CallInv(s'.log, m, s'.calls[m]) {
        assert m in s.calls ==> CallInv(s.log, m, s.calls[m]);
      }
      forall i | 0 <= i < |s'.log| ensures OwnerInv(s'.log, s'.calls, i) {
        assert OwnerInv(s.log, s.calls, i);
      }
    }
  }

  const NEW_CLUSTER := System([], map[])

  /** A run, step by step. */
  ghost predicate Runs(from: System, steps: seq<Step>, to: System)
    decreases |steps|
  {
    if steps == [] then from == to
    else Enabled(from, steps[0]) && Runs(Do(from, steps[0]), steps[1..], to)
  }

  ghost predicate Reachable(s: System) {
    exists steps :: Runs(NEW_CLUSTER, steps, s)
  }

  lemma {:induction false} RunKeepsInv(from: System, steps: seq<Step>, to: System)
    requires Inv(from) && Runs(from, steps, to)
    ensures Inv(to) && from.log <= to.log
    decreases |steps|
  {
    if steps != [] {
      StepKeepsInv(from, steps[0]);
      RunKeepsInv(Do(from, steps[0]), steps[1..], to);
    }
  }

  lemma ReachableInv(s: System)
    requires Reachable(s)
    ensures Inv(s)
  {
    var steps :| Runs(NEW_CLUSTER, steps, s);
    RunKeepsInv(NEW_CLUSTER, steps, s);
  }

  // ----- Who writes a record ---------------------------------------------------------------------

  predicate WritesPeer(e: Entry, id: Bytes) {
    e.item.Data? && ItemEffect(e.item).Write? && ItemEffect(e.item).target == PeerTarget(id)
  }

  predicate ChangesVoter(e: Entry, id: Bytes) {
    (e.item.VoterAdded? || e.item.ServerRemoved?) && e.item.id == id
  }

  function LastRecord(log: seq<Entry>, id: Bytes): (r: Option<nat>)
    ensures r.Some? ==> r.value < |log| && WritesPeer(log[r.value], id)
    ensures forall j :: (if r.Some? then r.value < j else 0 <= j) && j < |log| ==> !WritesPeer(log[j], id)
  {
    LastIndex(log, e => WritesPeer(e, id))
  }

  function LastChange(log: seq<Entry>, id: Bytes): (r: Option<nat>)
    ensures r.Some? ==> r.value < |log| && ChangesVoter(log[r.value], id)
    ensures forall j :: (if r.Some? then r.value < j else 0 <= j) && j < |log| ==> !ChangesVoter(log[j], id)
  {
    LastIndex(log, e => ChangesVoter(e, id))
  }

  /** A record is what its last writer wrote. */
  lemma {:induction false} PeerIsLastRecord(log: seq<Entry>, id: Bytes)
    ensures Lookup(StateAfter(log), PeerTarget(id))
         == match LastRecord(log, id) case None => Absent case Some(i) => ItemEffect(log[i].item).cell
  {
    if log != [] {
      var n := |log| - 1;
      PeerIsLastRecord(log[..n], id);
      if log[n].item.Data? {
        CommandSetsOnePlace(StateAfter(log[..n]), Clean(log[n].item.command), PeerTarget(id));
      }
    }
  }

  /** A voter is there when it was added last, or was there at the start and never touched. */
  lemma {:induction false} VoterIsLastChange(start: map<Bytes, Bytes>, log: seq<Entry>, id: Bytes)
    ensures id in Voters(start, log)
        <==> match LastChange(log, id) case None => id in start case Some(i) => log[i].item.VoterAdded?
    ensures id in Voters(start, log) ==>
              Voters(start, log)[id] == match LastChange(log, id) case None => start[id] case Some(i) => log[i].item.addr
  {
    if log != [] {
      VoterIsLastChange(start, log[..|log| - 1], id);
    }
  }

  /** What the two halves of a membership request hand to raft. */
  predicate Proposes(r: Request, half: bool, item: Item) {
    match r
    case Join(id, addr, http) => item == if half then Data(AddPeerCommand(id, addr, http)) else VoterAdded(id, addr)
    case Remove(id) => item == if half then Data(RemovePeerCommand(id)) else ServerRemoved(id)
    case Put(key, value) => half && item == Data(PutCommand(key, value))
    case Delete(key) => half && item == Data(DeleteCommand(key))
  }

  /** A request that has failed at a half says nothing of its entry: unless it is in the history it can come there at
      any later time. */
  lemma FailedMayCommit(s: System, n: nat)
    requires Reachable(s) && n in s.calls && s.calls[n].phase.Failed?
    ensures var c := s.calls[n];
            var place := if c.phase.half then c.recorded else c.changed;
            && (Enabled(s, Commit(n)) <==> place.None?)
            && (place.Some? ==> place.value < |s.log| && s.log[place.value].owner == n && Proposes(c.request, c.phase.half, s.log[place.value].item))
            && (place.None? ==>
                  var s' := Do(s, Commit(n));
                  && |s'.log| == |s.log| + 1 && s'.log[..|s.log|] == s.log && s'.log[|s.log|].owner == n
                  && Proposes(c.request, c.phase.half, s'.log[|s.log|].item) && s'.calls[n].phase == c.phase)
  {
    hide Reachable;
    ReachableInv(s);
    assert CallInv(s.log, n, s.calls[n]);
  }

  /** Only a join puts a record in the map, the one with its own id and addresses; only a join with that id or
      a removal of it touches the record at all. */
  lemma RecordWriter(r: Request, id: Bytes)
    requires FromBody(r)
    ensures var e := ItemEffect(RecordItem(r));
            && ((e.Write? && e.target == PeerTarget(id)) <==> ((r.Join? && id != []) || r.Remove?) && r.id == id)
            && (e.Write? && e.target == PeerTarget(id) ==> e.cell == if r.Join? then PeerCell(Peer(r.id, r.addr, r.http)) else Absent)
  {
    hide Clean, CommandEffect, Valid, AddPeerCommand, RemovePeerCommand;
    match r
    case Join(i, addr, http) => JoinWrites(i, addr, http);
    case Remove(i) => RemoveWrites(i);
    case Put(key, value) => DataWrites(PutCommand(key, value), key);
    case Delete(key) => DataWrites(DeleteCommand(key), key);
  }

  lemma RemoveWrites(id: Bytes)
    requires Valid(id)
    ensures CommandEffect(Clean(RemovePeerCommand(id))) == Write(PeerTarget(id), Absent)
  {
    CleanOp(RemovePeerCommand(id));
    SanitizeIdentity(id);
  }

  lemma DataWrites(c: Command, key: Bytes)
    requires c == DeleteCommand(key) || c == PutCommand(key, c.value)
    ensures CommandEffect(Clean(c)).Write? && CommandEffect(Clean(c)).target == KeyTarget(Sanitize(key))
  {
    CleanOp(c);
  }

  lemma JoinWrites(id: Bytes, addr: Bytes, http: Bytes)
    requires Valid(id) && Valid(addr) && Valid(http)
    ensures CommandEffect(Clean(AddPeerCommand(id, addr, http)))
         == if id == [] then NoEffect else Write(PeerTarget(id), PeerCell(Peer(id, addr, http)))
  {
    CleanOp(AddPeerCommand(id, addr, http));
    SanitizeIdentity(id);
    SanitizeIdentity(addr);
    SanitizeIdentity(http);
  }

  /** The request behind an entry that touches a record. */
  lemma RecordOwner(s: System, i: nat, id: Bytes)
    requires Reachable(s) && i < |s.log| && WritesPeer(s.log[i], id)
    ensures var n := s.log[i].owner;
            && n in s.calls && s.calls[n].recorded == Some(i)
            && ((s.calls[n].request.Join? && id != []) || s.calls[n].request.Remove?) && s.calls[n].request.id == id
            && ItemEffect(s.log[i].item).cell
               == if s.calls[n].request.Join? then PeerCell(Peer(id, s.calls[n].request.addr, s.calls[n].request.http)) else Absent
  {
    ReachableInv(s);
    var n := s.log[i].owner;
    assert OwnerInv(s.log, s.calls, i);
    assert CallInv(s.log, n, s.calls[n]);
    RecordWriter(s.calls[n].request, id);
  }

  /** The request behind an entry that touches a voter. */
  lemma ChangeOwner(s: System, i: nat, id: Bytes)
    requires Reachable(s) && i < |s.log| && ChangesVoter(s.log[i], id)
    ensures var n := s.log[i].owner;
            && n in s.calls && s.calls[n].changed == Some(i) && Changes(s.calls[n].request)
            && s.calls[n].request.id == id && (s.calls[n].request.Join? <==> s.log[i].item.VoterAdded?)
  {
    ReachableInv(s);
    assert OwnerInv(s.log, s.calls, i);
    assert CallInv(s.log, s.log[i].owner, s.calls[s.log[i].owner]);
  }

  /** A request commits its halves in their order. */
  lemma HalvesInOrder(s: System, n: nat)
    requires Reachable(s) && n in s.calls && s.calls[n].recorded.Some? && Changes(s.calls[n].request)
    ensures var c := s.calls[n];
            && c.changed.Some? && c.changed.value < c.recorded.value < |s.log|
            && s.log[c.changed.value] == Entry(ChangeItem(c.request), n) && s.log[c.recorded.value].owner == n
  {
    ReachableInv(s);
    assert CallInv(s.log, n, s.calls[n]);
  }

  /** In every run, an entry that records a peer comes after one of the same request that made that id a voter
      at that raft address. */
  lemma RecordsFollowVoters(s: System, i: nat, id: Bytes)
    requires Reachable(s) && i < |s.log| && WritesPeer(s.log[i], id) && ItemEffect(s.log[i].item).cell.PeerCell?
    ensures exists j :: 0 <= j < i && s.log[j] == Entry(VoterAdded(id, ItemEffect(s.log[i].item).cell.peer.addr), s.log[i].owner)
  {
    RecordOwner(s, i, id);
    HalvesInOrder(s, s.log[i].owner);
  }

  /** So every record any replica ever holds belongs to an id that was a voter at the recorded address before. */
  lemma PeersWereVoters(s: System, n: nat, id: Bytes)
    requires Reachable(s) && n <= |s.log| && id in Peers(s.log[..n])
    ensures exists j :: 0 <= j < n && s.log[j].item == VoterAdded(id, Peers(s.log[..n])[id].addr)
  {
    PeerIsLastRecord(s.log[..n], id);
    var i := LastRecord(s.log[..n], id).value;
    assert s.log[..n][i] == s.log[i];
    RecordsFollowVoters(s, i, id);
  }

  // ----- Are recorded peers voters? --------------------------------------------------------------

  ghost predicate Covered(start: map<Bytes, Bytes>, log: seq<Entry>) {
    forall id :: id in Peers(log) ==> id in Voters(start, log)
  }

  /** Exactly which entries keep it: not the removal of a voter that has a record, and not the record of an id
      that is no voter. */
  lemma CoveredStep(start: map<Bytes, Bytes>, log: seq<Entry>, e: Entry)
    requires Covered(start, log)
    ensures Covered(start, log + [e])
        <==> match e.item
             case VoterAdded(_, _) => true
             case ServerRemoved(id) => id !in Peers(log)
             case Data(_) => forall id :: WritesPeer(e, id) && ItemEffect(e.item).cell.PeerCell? ==> id in Voters(start, log)
  {
    assert (log + [e])[..|log|] == log;
    if e.item.Data? {
      forall id ensures id in Peers(log + [e]) <==> if WritesPeer(e, id) then ItemEffect(e.item).cell.PeerCell? else id in Peers(log) {
        RecordStep(log, e, id);
      }
      CoveredData(start, log, e);
    } else {
      assert Peers(log + [e]) == Peers(log);
      if e.item.ServerRemoved? {
        assert Voters(start, log + [e]) == Voters(start, log) - {e.item.id};
        assert e.item.id in Peers(log) ==> e.item.id !in Voters(start, log + [e]);
      } else {
        assert Voters(start, log + [e]) == Voters(start, log)[e.item.id := e.item.addr];
      }
    }
  }

  lemma RecordStep(log: seq<Entry>, e: Entry, id: Bytes)
    requires e.item.Data?
    ensures id in Peers(log + [e]) <==> if WritesPeer(e, id) then ItemEffect(e.item).cell.PeerCell? else id in Peers(log)
  {
    assert (log + [e])[..|log|] == log;
    CommandSetsOnePlace(StateAfter(log), Clean(e.item.command), PeerTarget(id));
  }

  lemma CoveredData(start: map<Bytes, Bytes>, log: seq<Entry>, e: Entry)
    requires Covered(start, log) && e.item.Data? && Voters(start, log + [e]) == Voters(start, log)
    requires forall id :: id in Peers(log + [e]) <==> if WritesPeer(e, id) then ItemEffect(e.item).cell.PeerCell? else id in Peers(log)
    ensures Covered(start, log + [e])
        <==> forall id :: WritesPeer(e, id) && ItemEffect(e.item).cell.PeerCell? ==> id in Voters(start, log)
  {
  }

  ghost predicate AllFinished(s: System) {
    forall n :: n in s.calls ==> s.calls[n].phase == Finished
  }

  /** A join and a removal of one id. The join was the last to write the record, the removal the last to change
      the voter, after the join had made it one; what the removal did to the record, if anything, came before the
      join wrote it. */
  ghost predicate Crossed(s: System, id: Bytes, m: nat, n: nat) {
    && m in s.calls && n in s.calls
    && s.calls[m].request.Join? && s.calls[m].request.id == id && s.calls[n].request == Remove(id)
    && s.calls[m].changed.Some? && s.calls[m].recorded.Some? && s.calls[n].changed.Some?
    && s.calls[m].changed.value < s.calls[n].changed.value
    && (s.calls[n].recorded.Some? ==> s.calls[n].changed.value < s.calls[n].recorded.value < s.calls[m].recorded.value)
    && LastRecord(s.log, id) == s.calls[m].recorded && LastChange(s.log, id) == s.calls[n].changed
  }

  /** At any time in any run, whatever has failed or is still under way, a recorded peer is no voter exactly when
      a join and a removal of it stand like that. */
  lemma UncoveredIff(start: map<Bytes, Bytes>, s: System, id: Bytes)
    requires Reachable(s)
    ensures id in Peers(s.log) && id !in Voters(start, s.log) <==> exists m, n :: Crossed(s, id, m, n)
  {
    if id in Peers(s.log) && id !in Voters(start, s.log) {
      UncoveredCrossed(start, s, id);
    }
    if m, n :| Crossed(s, id, m, n) {
      CrossedUncovered(start, s, id, m, n);
    }
  }

  /** When both have succeeded, the removal fell wholly between the two halves of the join. */
  lemma CrossedWhenFinished(s: System, id: Bytes, m: nat, n: nat)
    requires Reachable(s) && Crossed(s, id, m, n) && s.calls[n].phase == Finished
    ensures s.calls[n].recorded.Some?
    ensures s.calls[m].changed.value < s.calls[n].changed.value < s.calls[n].recorded.value < s.calls[m].recorded.value
  {
    ReachableInv(s);
    assert CallInv(s.log, n, s.calls[n]);
  }

  lemma CrossedUncovered(start: map<Bytes, Bytes>, s: System, id: Bytes, m: nat, n: nat)
    requires Reachable(s) && Crossed(s, id, m, n)
    ensures id in Peers(s.log) && id !in Voters(start, s.log)
  {
    PeerIsLastRecord(s.log, id);
    VoterIsLastChange(start, s.log, id);
    HalvesInOrder(s, m);
    ChangeInPlace(s, n);
    RecordOwner(s, s.calls[m].recorded.value, id);
  }

  lemma ChangeInPlace(s: System, n: nat)
    requires Reachable(s) && n in s.calls && s.calls[n].changed.Some?
    ensures var c := s.calls[n];
            Changes(c.request) && c.changed.value < |s.log| && s.log[c.changed.value] == Entry(ChangeItem(c.request), n)
  {
    ReachableInv(s);
    assert CallInv(s.log, n, s.calls[n]);
  }

  lemma UncoveredCrossed(start: map<Bytes, Bytes>, s: System, id: Bytes)
    requires Reachable(s) && id in Peers(s.log) && id !in Voters(start, s.log)
    ensures exists m, n :: Crossed(s, id, m, n)
  {
    var m := LastJoin(s, id);
    var n := LastRemoval(start, s, id, s.calls[m].changed.value);
    if s.calls[n].recorded.Some? {
      RemovedBeforeRecorded(s, id, s.calls[m].recorded.value, s.calls[n].recorded.value);
    }
    assert Crossed(s, id, m, n);
  }

  /** The last entry that touches a record comes after all others. */
  lemma RemovedBeforeRecorded(s: System, id: Bytes, last: nat, other: nat)
    requires LastRecord(s.log, id) == Some(last) && last < |s.log| && other < |s.log|
    requires WritesPeer(s.log[other], id) && s.log[last].owner != s.log[other].owner
    ensures other < last
  {
  }

  /** The join whose record is in the map. */
  lemma LastJoin(s: System, id: Bytes) returns (m: nat)
    requires Reachable(s) && id in Peers(s.log)
    ensures m in s.calls && s.calls[m].request.Join? && s.calls[m].request.id == id != []
    ensures s.calls[m].recorded.Some? && s.calls[m].recorded == LastRecord(s.log, id)
    ensures s.calls[m].recorded.value < |s.log| && s.log[s.calls[m].recorded.value].owner == m
    ensures s.calls[m].changed.Some? && s.calls[m].changed.value < s.calls[m].recorded.value
    ensures s.log[s.calls[m].changed.value].item == VoterAdded(id, s.calls[m].request.addr)
  {
    PeerIsLastRecord(s.log, id);
    var k := LastRecord(s.log, id).value;
    m := s.log[k].owner;
    RecordOwner(s, k, id);
    HalvesInOrder(s, m);
  }

  /** The removal that left the id no voter, after it was one. */
  lemma LastRemoval(start: map<Bytes, Bytes>, s: System, id: Bytes, was: nat) returns (n: nat)
    requires Reachable(s) && id !in Voters(start, s.log)
    requires was < |s.log| && s.log[was].item.VoterAdded? && s.log[was].item.id == id
    ensures n in s.calls && s.calls[n].request == Remove(id) && s.calls[n].changed.Some?
    ensures was < s.calls[n].changed.value < |s.log| && s.calls[n].changed == LastChange(s.log, id)
    ensures s.calls[n].recorded.Some? ==>
              && s.calls[n].changed.value < s.calls[n].recorded.value < |s.log|
              && WritesPeer(s.log[s.calls[n].recorded.value], id) && s.log[s.calls[n].recorded.value].owner == n
  {
    VoterIsLastChange(start, s.log, id);
    assert ChangesVoter(s.log[was], id);
    var i := LastChange(s.log, id).value;
    n := s.log[i].owner;
    ChangeOwner(s, i, id);
    if s.calls[n].recorded.Some? {
      RemovalRecords(s, n, id);
    }
  }

  lemma RemovalRecords(s: System, n: nat, id: Bytes)
    requires Reachable(s) && n in s.calls && s.calls[n].recorded.Some? && s.calls[n].request == Remove(id)
    ensures var c := s.calls[n];
            && c.changed.Some? && c.changed.value < c.recorded.value < |s.log|
            && WritesPeer(s.log[c.recorded.value], id) && s.log[c.recorded.value].owner == n
  {
    ReachableInv(s);
    assert CallInv(s.log, n, s.calls[n]);
    RecordWriter(s.calls[n].request, id);
  }

  // ----- One request at a time -------------------------------------------------------------------

  ghost predicate Sequential(from: System, steps: seq<Step>)
    decreases |steps|
  {
    steps != [] && Enabled(from, steps[0]) ==>
      (steps[0].Open? ==> AllFinished(from)) && Sequential(Do(from, steps[0]), steps[1..])
  }

  predicate Before(p: Option<nat>, q: Option<nat>) {
    p.Some? && q.Some? ==> p.value < q.value
  }

  /** All of one request lies before all of another. */
  predicate Wholly(c: Call, d: Call) {
    Before(c.changed, d.changed) && Before(c.changed, d.recorded) && Before(c.recorded, d.changed) && Before(c.recorded, d.recorded)
  }

  /** Of two requests one is finished and lies before the other. */
  predicate InLine(c: Call, d: Call) {
    (c.phase == Finished && Wholly(c, d)) || (d.phase == Finished && Wholly(d, c))
  }

  ghost predicate Lined(s: System) {
    forall m, n :: m in s.calls && n in s.calls && m != n ==> InLine(s.calls[m], s.calls[n])
  }

  lemma StepStaysBehind(s: System, step: Step, m: nat)
    requires Inv(s) && Lined(s) && Enabled(s, step) && (step.Open? ==> AllFinished(s))
    requires m in s.calls && m != step.n
    ensures s.calls[m].phase == Finished && Wholly(s.calls[m], Do(s, step).calls[step.n])
  {
    assert CallInv(s.log, m, s.calls[m]);
    assert step.n in s.calls ==> InLine(s.calls[m], s.calls[step.n]);
  }

  lemma StepKeepsLined(s: System, step: Step)
    requires Inv(s) && Lined(s) && Enabled(s, step) && (step.Open? ==> AllFinished(s))
    ensures Lined(Do(s, step))
  {
    forall m | m in s.calls && m != step.n ensures s.calls[m].phase == Finished && Wholly(s.calls[m], Do(s, step).calls[step.n]) {
      StepStaysBehind(s, step, m);
    }
    var calls := Do(s, step).calls;
    assert calls == s.calls[step.n := calls[step.n]];
    forall m, n | m in calls && n in calls && m != n ensures InLine(calls[m], calls[n]) {
      assert m != step.n && n != step.n ==> InLine(s.calls[m], s.calls[n]);
    }
  }

  lemma {:induction false} RunKeepsLined(from: System, steps: seq<Step>, to: System)
    requires Inv(from) && Lined(from) && Runs(from, steps, to) && Sequential(from, steps)
    ensures Lined(to)
    decreases |steps|
  {
    if steps != [] {
      StepKeepsInv(from, steps[0]);
      StepKeepsLined(from, steps[0]);
      RunKeepsLined(Do(from, steps[0]), steps[1..], to);
    }
  }

  /** Requests that come one at a time and succeed keep every recorded peer a voter. */
  lemma OneAtATime(start: map<Bytes, Bytes>, steps: seq<Step>, s: System)
    requires Runs(NEW_CLUSTER, steps, s) && Sequential(NEW_CLUSTER, steps) && AllFinished(s)
    ensures Covered(start, s.log)
  {
    RunKeepsLined(NEW_CLUSTER, steps, s);
    forall id | id in Peers(s.log) ensures id in Voters(start, s.log) {
      UncoveredIff(start, s, id);
      if m, n :| Crossed(s, id, m, n) {
        assert m != n;
        CrossedWhenFinished(s, id, m, n);
      }
    }
  }

  // ----- Overlapping requests --------------------------------------------------------------------

  ghost predicate Follows(from: System, to: System) {
    exists steps :: Runs(from, steps, to)
  }

  lemma {:induction false} RunsAppend(a: System, p: seq<Step>, b: System, q: seq<Step>, c: System)
    requires Runs(a, p, b) && Runs(b, q, c)
    ensures Runs(a, p + q, c)
    decreases |p|
  {
    if p == [] {
      assert p + q == q;
    } else {
      RunsAppend(Do(a, p[0]), p[1..], b, q, c);
      assert (p + q)[1..] == p[1..] + q;
    }
  }

  lemma FollowsStep(from: System, s: System, step: Step)
    requires Follows(from, s) && Enabled(s, step)
    ensures Follows(from, Do(s, step))
  {
    var steps :| Runs(from, steps, s);
    assert [step][1..] == [];
    assert Runs(Do(s, step), [step][1..], Do(s, step));
    assert Runs(s, [step], Do(s, step));
    RunsAppend(from, steps, s, [step], Do(s, step));
  }

  lemma FollowsNothing(s: System)
    ensures Follows(s, s)
  {
    assert Runs(s, [], s);
  }

  lemma RunOpen(s: System, n: nat, r: Request)
    requires Reachable(s) && n !in s.calls && FromBody(r)
    ensures Reachable(System(s.log, s.calls[n := Opened(r)]))
  {
    ReachableStep(s, Open(n, r));
  }

  lemma RunChange(s: System, n: nat, r: Request)
    requires Reachable(s) && n in s.calls && s.calls[n] == Call(r, Changing, None, None) && Changes(r) && Records(r)
    ensures Reachable(System(s.log + [Entry(ChangeItem(r), n)], s.calls[n := Call(r, Recording, Some(|s.log|), None)]))
  {
    ReachableStep(s, Commit(n));
    var s' := Do(s, Commit(n));
    ReachableStep(s', Pass(n));
    assert Do(s', Pass(n)).calls == s.calls[n := Call(r, Recording, Some(|s.log|), None)];
  }

  /** A join without an HTTP address is over after its first half. */
  lemma RunOnlyChange(s: System, n: nat, r: Request)
    requires Reachable(s) && n in s.calls && s.calls[n] == Call(r, Changing, None, None) && Changes(r) && !Records(r)
    ensures Reachable(System(s.log + [Entry(ChangeItem(r), n)], s.calls[n := Call(r, Finished, Some(|s.log|), None)]))
  {
    ReachableStep(s, Commit(n));
    var s' := Do(s, Commit(n));
    ReachableStep(s', Pass(n));
    assert Do(s', Pass(n)).calls == s.calls[n := Call(r, Finished, Some(|s.log|), None)];
  }

  lemma RunFail(s: System, n: nat, r: Request, at: Option<nat>)
    requires Reachable(s) && n in s.calls && s.calls[n] == Call(r, Recording, at, None)
    ensures Reachable(System(s.log, s.calls[n := Call(r, Failed(true), at, None)]))
  {
    ReachableStep(s, Fail(n));
  }

  lemma RunRecord(s: System, n: nat, r: Request, at: Option<nat>)
    requires Reachable(s) && n in s.calls && s.calls[n] == Call(r, Recording, at, None)
    ensures Reachable(System(s.log + [Entry(RecordItem(r), n)], s.calls[n := Call(r, Finished, at, Some(|s.log|))]))
  {
    ReachableStep(s, Commit(n));
    var s' := Do(s, Commit(n));
    ReachableStep(s', Pass(n));
    assert Do(s', Pass(n)).calls == s.calls[n := Call(r, Finished, at, Some(|s.log|))];
  }

  lemma ReachableStep(s: System, step: Step)
    requires Reachable(s) && Enabled(s, step)
    ensures Reachable(Do(s, step))
  {
    assert Follows(NEW_CLUSTER, s);
    FollowsStep(NEW_CLUSTER, s, step);
  }

  /** A removal that runs between the halves of a join. */
  lemma OverlapRun(j: Request, r: Request) returns (s: System)
    requires j.Join? && r.Remove? && Records(j) && FromBody(j) && FromBody(r)
    ensures Reachable(s)
    ensures s.log == [Entry(ChangeItem(j), 0), Entry(ChangeItem(r), 1), Entry(RecordItem(r), 1), Entry(RecordItem(j), 0)]
    ensures s.calls == map[0 := Call(j, Finished, Some(0), Some(3)), 1 := Call(r, Finished, Some(1), Some(2))]
  {
    s := JoinBegins(j);
    s := RemovalChanges(s, j, r);
    s := RemovalRecorded(s, j, r);
    s := JoinRecorded(s, j, r);
  }

  lemma JoinBegins(j: Request) returns (s: System)
    requires j.Join? && Records(j) && FromBody(j)
    ensures Reachable(s) && s == System([Entry(ChangeItem(j), 0)], map[0 := Call(j, Recording, Some(0), None)])
  {
    FollowsNothing(NEW_CLUSTER);
    RunOpen(NEW_CLUSTER, 0, j);
    s := System([], map[0 := Opened(j)]);
    assert map[][0 := Opened(j)] == s.calls;
    RunChange(s, 0, j);
    assert s.log + [Entry(ChangeItem(j), 0)] == [Entry(ChangeItem(j), 0)];
    assert s.calls[0 := Call(j, Recording, Some(0), None)] == map[0 := Call(j, Recording, Some(0), None)];
    s := System([Entry(ChangeItem(j), 0)], map[0 := Call(j, Recording, Some(0), None)]);
  }

  lemma RemovalChanges(s: System, j: Request, r: Request) returns (s': System)
    requires Reachable(s) && |s.log| == 1 && s.calls == map[0 := Call(j, Recording, Some(0), None)] && r.Remove? && FromBody(r)
    ensures Reachable(s') && s'.log == s.log + [Entry(ChangeItem(r), 1)]
    ensures s'.calls == map[0 := Call(j, Recording, Some(0), None), 1 := Call(r, Recording, Some(1), None)]
  {
    RunOpen(s, 1, r);
    s' := System(s.log, s.calls[1 := Opened(r)]);
    RunChange(s', 1, r);
    s' := System(s'.log + [Entry(ChangeItem(r), 1)], s'.calls[1 := Call(r, Recording, Some(1), None)]);
  }

  lemma RemovalRecorded(s: System, j: Request, r: Request) returns (s': System)
    requires Reachable(s) && |s.log| == 2
    requires s.calls == map[0 := Call(j, Recording, Some(0), None), 1 := Call(r, Recording, Some(1), None)]
    ensures Reachable(s') && s'.log == s.log + [Entry(RecordItem(r), 1)]
    ensures s'.calls == map[0 := Call(j, Recording, Some(0), None), 1 := Call(r, Finished, Some(1), Some(2))]
  {
    RunRecord(s, 1, r, Some(1));
    s' := System(s.log + [Entry(RecordItem(r), 1)], s.calls[1 := Call(r, Finished, Some(1), Some(2))]);
  }

  lemma JoinRecorded(s: System, j: Request, r: Request) returns (s': System)
    requires Reachable(s) && |s.log| == 3
    requires s.calls == map[0 := Call(j, Recording, Some(0), None), 1 := Call(r, Finished, Some(1), Some(2))]
    ensures Reachable(s') && s'.log == s.log + [Entry(RecordItem(j), 0)]
    ensures s'.calls == map[0 := Call(j, Finished, Some(0), Some(3)), 1 := Call(r, Finished, Some(1), Some(2))]
  {
    RunRecord(s, 0, j, Some(0));
    s' := System(s.log + [Entry(RecordItem(j), 0)], s.calls[0 := Call(j, Finished, Some(0), Some(3))]);
  }

  /** Then the join is recorded although its voter has been removed: both requests succeed, and the record stays. */
  lemma OverlapBreaks(id: Bytes, addr: Bytes, http: Bytes)
    requires Valid(id) && Valid(addr) && Valid(http) && id != [] && http != []
    ensures exists s :: Reachable(s) && AllFinished(s) && !Covered(map[], s.log)
  {
    var j, r := Join(id, addr, http), Remove(id);
    var s := OverlapRun(j, r);
    RecordWriter(j, id);
    OverlapCrossed(s, j, r);
    UncoveredIff(map[], s, id);
  }

  lemma OverlapCrossed(s: System, j: Request, r: Request)
    requires j.Join? && r == Remove(j.id) && WritesPeer(Entry(RecordItem(j), 0), j.id)
    requires s.log == [Entry(ChangeItem(j), 0), Entry(ChangeItem(r), 1), Entry(RecordItem(r), 1), Entry(RecordItem(j), 0)]
    requires s.calls == map[0 := Call(j, Finished, Some(0), Some(3)), 1 := Call(r, Finished, Some(1), Some(2))]
    ensures Crossed(s, j.id, 0, 1)
  {
    var id := j.id;
    assert WritesPeer(s.log[3], id);
    assert LastRecord(s.log, id) == Some(3);
    assert ChangesVoter(s.log[1], id) && !ChangesVoter(s.log[2], id) && !ChangesVoter(s.log[3], id);
    assert LastChange(s.log, id) == Some(1);
  }

  /** A voter that joins again at another address, undisturbed: its record agrees with the voters afterwards
      exactly when the join brings an HTTP address, or there is no record, or it has that address already. */
  lemma RejoinAgreesIff(start: map<Bytes, Bytes>, log: seq<Entry>, r: Request, n: nat)
    requires r.Join? && FromBody(r) && r.id != []
    ensures var after := log + [Entry(ChangeItem(r), n)] + if Records(r) then [Entry(RecordItem(r), n)] else [];
            && r.id in Voters(start, after)
            && ((r.id in Peers(after) ==> Peers(after)[r.id].addr == Voters(start, after)[r.id])
                <==> (r.http != [] || r.id !in Peers(log) || Peers(log)[r.id].addr == r.addr))
  {
    var half := log + [Entry(ChangeItem(r), n)];
    assert half[..|log|] == log;
    if Records(r) {
      var e := Entry(RecordItem(r), n);
      assert (half + [e])[..|half|] == half;
      RecordWriter(r, r.id);
      CommandSetsOnePlace(StateAfter(half), Clean(e.item.command), PeerTarget(r.id));
      assert Lookup(StateAfter(half + [e]), PeerTarget(r.id)) == PeerCell(Peer(r.id, r.addr, r.http));
    } else {
      assert half + [] == half;
    }
  }

  // ----- Runs that end badly -----------------------------------------------------------------------

  lemma ThenJoin(s: System, n: nat, r: Request) returns (s': System)
    requires Reachable(s) && n !in s.calls && r.Join? && Records(r) && FromBody(r)
    ensures Reachable(s') && s'.calls == s.calls[n := Call(r, Finished, Some(|s.log|), Some(|s.log| + 1))]
    ensures s'.log == s.log + [Entry(ChangeItem(r), n)] + [Entry(RecordItem(r), n)]
  {
    hide Reachable;
    RunOpen(s, n, r);
    s' := System(s.log, s.calls[n := Opened(r)]);
    RunChange(s', n, r);
    s' := System(s'.log + [Entry(ChangeItem(r), n)], s'.calls[n := Call(r, Recording, Some(|s.log|), None)]);
    RunRecord(s', n, r, Some(|s.log|));
    s' := System(s'.log + [Entry(RecordItem(r), n)], s'.calls[n := Call(r, Finished, Some(|s.log|), Some(|s.log| + 1))]);
  }

  lemma ThenOnlyChange(s: System, n: nat, r: Request) returns (s': System)
    requires Reachable(s) && n !in s.calls && r.Join? && !Records(r) && FromBody(r)
    ensures Reachable(s') && s'.calls == s.calls[n := Call(r, Finished, Some(|s.log|), None)]
    ensures s'.log == s.log + [Entry(ChangeItem(r), n)]
  {
    hide Reachable;
    RunOpen(s, n, r);
    s' := System(s.log, s.calls[n := Opened(r)]);
    RunOnlyChange(s', n, r);
    s' := System(s'.log + [Entry(ChangeItem(r), n)], s'.calls[n := Call(r, Finished, Some(|s.log|), None)]);
  }

  lemma ThenHalfRemoval(s: System, n: nat, r: Request) returns (s': System)
    requires Reachable(s) && n !in s.calls && r.Remove? && FromBody(r)
    ensures Reachable(s') && s'.calls == s.calls[n := Call(r, Failed(true), Some(|s.log|), None)]
    ensures s'.log == s.log + [Entry(ChangeItem(r), n)]
  {
    hide Reachable;
    RunOpen(s, n, r);
    s' := System(s.log, s.calls[n := Opened(r)]);
    RunChange(s', n, r);
    s' := System(s'.log + [Entry(ChangeItem(r), n)], s'.calls[n := Call(r, Recording, Some(|s.log|), None)]);
    RunFail(s', n, r, Some(|s.log|));
    s' := System(s'.log, s'.calls[n := Call(r, Failed(true), Some(|s.log|), None)]);
  }

  lemma AfterChange(start: map<Bytes, Bytes>, log: seq<Entry>, r: Request, n: nat)
    requires Changes(r)
    ensures var after := log + [Entry(ChangeItem(r), n)];
            && Peers(after) == Peers(log)
            && Voters(start, after) == if r.Join? then Voters(start, log)[r.id := r.addr] else Voters(start, log) - {r.id}
  {
    assert (log + [Entry(ChangeItem(r), n)])[..|log|] == log;
  }

  lemma AfterRecord(start: map<Bytes, Bytes>, log: seq<Entry>, r: Request, n: nat)
    requires r.Join? && FromBody(r) && r.id != []
    ensures var after := log + [Entry(RecordItem(r), n)];
            Peers(after) == Peers(log)[r.id := Peer(r.id, r.addr, r.http)] && Voters(start, after) == Voters(start, log)
  {
    var after := log + [Entry(RecordItem(r), n)];
    assert after[..|log|] == log;
    JoinWrites(r.id, r.addr, r.http);
    CleanJoin(r);
    assert ApplyCommand(StateAfter(log), Clean(RecordItem(r).command)).peers == Peers(log)[r.id := Peer(r.id, r.addr, r.http)];
  }

  lemma CleanJoin(r: Request)
    requires r.Join? && FromBody(r)
    ensures Clean(RecordItem(r).command) == RecordItem(r).command
  {
    CleanOp(RecordItem(r).command);
    SanitizeIdentity(r.id);
    SanitizeIdentity(r.addr);
    SanitizeIdentity(r.http);
  }

  lemma AfterJoin(start: map<Bytes, Bytes>, log: seq<Entry>, r: Request, n: nat)
    requires r.Join? && FromBody(r) && r.id != []
    ensures var after := log + [Entry(ChangeItem(r), n)] + [Entry(RecordItem(r), n)];
            && Peers(after) == Peers(log)[r.id := Peer(r.id, r.addr, r.http)]
            && Voters(start, after) == Voters(start, log)[r.id := r.addr]
  {
    hide Peers, Voters;
    AfterChange(start, log, r, n);
    AfterRecord(start, log + [Entry(ChangeItem(r), n)], r, n);
  }

  /** Two records can claim one raft address with different HTTP addresses while it has one voter: a peer joins, its
      removal fails half-way, and another peer joins at the address that has become free. */
  lemma AddressTakenOver(a: Request, b: Request) returns (s: System)
    requires a.Join? && b.Join? && FromBody(a) && FromBody(b) && Records(a) && Records(b)
    requires a.id != [] && b.id != [] && a.id != b.id && a.addr == b.addr
    ensures Reachable(s) && Voters(map[], s.log) == map[b.id := b.addr]
    ensures Peers(s.log) == map[a.id := Peer(a.id, a.addr, a.http), b.id := Peer(b.id, b.addr, b.http)]
  {
    hide Reachable, Peers, Voters;
    NothingYet();
    s := ThenJoin(NEW_CLUSTER, 0, a);
    AfterJoin(map[], NEW_CLUSTER.log, a, 0);
    var t := ThenHalfRemoval(s, 1, Remove(a.id));
    AfterChange(map[], s.log, Remove(a.id), 1);
    s := ThenJoin(t, 2, b);
    AfterJoin(map[], t.log, b, 2);
  }

  lemma NothingYet()
    ensures Reachable(NEW_CLUSTER) && NEW_CLUSTER.log == [] && NEW_CLUSTER.calls == map[]
    ensures Peers(NEW_CLUSTER.log) == map[] && Voters(map[], NEW_CLUSTER.log) == map[]
  {
    FollowsNothing(NEW_CLUSTER);
  }

  /** A record can go stale though all requests succeed, one at a time: a peer joins again at another address and
      brings no HTTP address. */
  lemma StaleRecord(id: Bytes, before: Bytes, now: Bytes, http: Bytes) returns (s: System)
    requires Valid(id) && Valid(before) && Valid(now) && Valid(http) && id != [] && http != []
    ensures Reachable(s) && AllFinished(s)
    ensures Peers(s.log) == map[id := Peer(id, before, http)] && Voters(map[], s.log) == map[id := now]
  {
    hide Reachable, Peers, Voters;
    NothingYet();
    var a, b := Join(id, before, http), Join(id, now, []);
    NoBytesValid();
    s := ThenJoin(NEW_CLUSTER, 0, a);
    AfterJoin(map[], NEW_CLUSTER.log, a, 0);
    var t := ThenOnlyChange(s, 1, b);
    AfterChange(map[], s.log, b, 1);
    s := t;
  }

  lemma NoBytesValid()
    ensures Valid([])
  {
  }

  // ----- Do the records agree with the voters? ---------------------------------------------------

  /** Two joins of one id at different addresses. The first was the last to write the record, the second the last to
      change the voter; what the second wrote, if anything, came before the first wrote it. */
  ghost predicate Overtaken(s: System, id: Bytes, m: nat, n: nat) {
    && m in s.calls && n in s.calls
    && s.calls[m].request.Join? && s.calls[n].request.Join? && s.calls[m].request.id == s.calls[n].request.id == id
    && s.calls[m].request.addr != s.calls[n].request.addr
    && s.calls[m].changed.Some? && s.calls[m].recorded.Some? && s.calls[n].changed.Some?
    && s.calls[m].changed.value < s.calls[n].changed.value
    && (s.calls[n].recorded.Some? ==> s.calls[n].changed.value < s.calls[n].recorded.value < s.calls[m].recorded.value)
    && LastRecord(s.log, id) == s.calls[m].recorded && LastChange(s.log, id) == s.calls[n].changed
  }

  /** Is the record of a voter filed with another raft address than raft has for it? */
  predicate Disagree(start: map<Bytes, Bytes>, log: seq<Entry>, id: Bytes) {
    id in Peers(log) && id in Voters(start, log) && Peers(log)[id].addr != Voters(start, log)[id]
  }

  /** At any time in any run, a voter's record disagrees with raft exactly when two joins stand like that. */
  lemma DisagreeIff(start: map<Bytes, Bytes>, s: System, id: Bytes)
    requires Reachable(s)
    ensures Disagree(start, s.log, id) <==> exists m, n :: Overtaken(s, id, m, n)
  {
    if Disagree(start, s.log, id) {
      DisagreeOvertaken(start, s, id);
    }
    if m, n :| Overtaken(s, id, m, n) {
      OvertakenDisagree(start, s, id, m, n);
    }
  }

  lemma DisagreeOvertaken(start: map<Bytes, Bytes>, s: System, id: Bytes)
    requires Reachable(s) && Disagree(start, s.log, id)
    ensures exists m, n :: Overtaken(s, id, m, n)
  {
    hide Peers, Voters, Reachable;
    var m := LastJoin(s, id);
    var n := LastRejoin(start, s, id, s.calls[m].changed.value);
    RecordedAddr(s, id, m);
    if s.calls[n].recorded.Some? {
      RemovedBeforeRecorded(s, id, s.calls[m].recorded.value, s.calls[n].recorded.value);
    }
    assert Overtaken(s, id, m, n);
  }

  /** A record says what the join that wrote it last said. */
  lemma RecordedAddr(s: System, id: Bytes, m: nat)
    requires Reachable(s) && m in s.calls && s.calls[m].request.Join? && s.calls[m].request.id == id
    requires s.calls[m].recorded.Some? && LastRecord(s.log, id) == s.calls[m].recorded
    ensures id in Peers(s.log) && Peers(s.log)[id].addr == s.calls[m].request.addr
  {
    PeerIsLastRecord(s.log, id);
    HalvesInOrder(s, m);
    RecordOwner(s, s.calls[m].recorded.value, id);
  }

  /** The join that made the id a voter at the address it has. */
  lemma LastRejoin(start: map<Bytes, Bytes>, s: System, id: Bytes, was: nat) returns (n: nat)
    requires Reachable(s) && id in Voters(start, s.log)
    requires was < |s.log| && s.log[was].item.VoterAdded? && s.log[was].item.id == id
    ensures n in s.calls && s.calls[n].request.Join? && s.calls[n].request.id == id && s.calls[n].changed.Some?
    ensures Voters(start, s.log)[id] == s.calls[n].request.addr
    ensures was <= s.calls[n].changed.value < |s.log| && s.calls[n].changed == LastChange(s.log, id)
    ensures s.log[s.calls[n].changed.value].item == VoterAdded(id, s.calls[n].request.addr)
    ensures s.calls[n].recorded.Some? ==>
              && s.calls[n].changed.value < s.calls[n].recorded.value < |s.log|
              && s.log[s.calls[n].recorded.value].owner == n && (id != [] ==> WritesPeer(s.log[s.calls[n].recorded.value], id))
  {
    VoterIsLastChange(start, s.log, id);
    assert ChangesVoter(s.log[was], id);
    var i := LastChange(s.log, id).value;
    n := s.log[i].owner;
    ChangeOwner(s, i, id);
    ChangeInPlace(s, n);
    if s.calls[n].recorded.Some? {
      JoinRecords(s, n, id);
    }
  }

  lemma JoinRecords(s: System, n: nat, id: Bytes)
    requires Reachable(s) && n in s.calls && s.calls[n].recorded.Some? && s.calls[n].request.Join? && s.calls[n].request.id == id
    ensures var c := s.calls[n];
            && c.changed.Some? && c.changed.value < c.recorded.value < |s.log|
            && s.log[c.recorded.value].owner == n && (id != [] ==> WritesPeer(s.log[c.recorded.value], id))
  {
    ReachableInv(s);
    assert CallInv(s.log, n, s.calls[n]);
    RecordWriter(s.calls[n].request, id);
  }

  lemma OvertakenDisagree(start: map<Bytes, Bytes>, s: System, id: Bytes, m: nat, n: nat)
    requires Reachable(s) && Overtaken(s, id, m, n)
    ensures Disagree(start, s.log, id)
  {
    VoterIsLastChange(start, s.log, id);
    ChangeInPlace(s, n);
    RecordedAddr(s, id, m);
  }

  /** One at a time and all successful, it takes a join without an HTTP address. */
  lemma DisagreeOneAtATime(start: map<Bytes, Bytes>, steps: seq<Step>, s: System, id: Bytes)
    requires Runs(NEW_CLUSTER, steps, s) && Sequential(NEW_CLUSTER, steps) && AllFinished(s)
    ensures Disagree(start, s.log, id) <==> exists m, n :: Overtaken(s, id, m, n) && s.calls[n].request.http == []
  {
    RunKeepsLined(NEW_CLUSTER, steps, s);
    DisagreeIff(start, s, id);
    if m, n :| Overtaken(s, id, m, n) {
      ReachableInv(s);
      assert CallInv(s.log, n, s.calls[n]);
      assert m != n && InLine(s.calls[m], s.calls[n]);
    }
  }

  // ----- The handlers ----------------------------------------------------------------------------

  /** The body of a membership request; its members are named like those of a peer, but for case. */
  function MemberBody(body: Bytes): Result<Peer, string> {
    match Json.ParseFirst(Utf8.Decode(body))
    case None => Err("invalid JSON")
    case Some(v) => ReadPeer(v)
  }

  lemma MemberBodyValid(body: Bytes)
    requires MemberBody(body).Ok?
    ensures ValidPeer(MemberBody(body).value)
  {
    var v := Json.ParseFirst(Utf8.Decode(body)).value;
    if v.Object? {
      ReadPeerFieldsValid(v.fields, Peer([], [], []));
    }
  }

  /** A text that starts with a value that says p, in whatever way it is written. */
  ghost predicate BodyText(s: string, p: Peer) {
    exists lead, t, rest, v :: JsonGrammar.Writes(s, lead, t, rest, v) && PeerSaid(v, p)
  }

  /** A body is taken for p exactly if it is such a text. */
  lemma MemberBodyIff(body: Bytes, p: Peer)
    ensures MemberBody(body) == Ok(p) <==> BodyText(Utf8.Decode(body), p)
  {
    hide Json.ParseFirst, ReadPeer, PeerSaid, JsonGrammar.Writes;
    var s := Utf8.Decode(body);
    if MemberBody(body) == Ok(p) {
      var v := Json.ParseFirst(s).value;
      ReadPeerIff(v, p);
      NoNumberSaid(v, p);
      JsonGrammar.FirstIff(s, v);
    }
    if BodyText(s, p) {
      var lead, t, rest, v :| JsonGrammar.Writes(s, lead, t, rest, v) && PeerSaid(v, p);
      NoNumberSaid(v, p);
      JsonGrammar.FirstIff(s, v);
      ReadPeerIff(v, p);
    }
  }

  lemma NoNumberSaid(v: Json.Value, p: Peer)
    requires PeerSaid(v, p)
    ensures !v.Number?
  {
  }

  /** An object with the members id and addr, and httpAddr or not, in any order, with any blanks and any spelling of
      its characters. */
  lemma MemberBodyOf(body: Bytes, lead: string, t: JsonGrammar.Tree, rest: string, fields: Json.Fields, id: Bytes, addr: Bytes, http: Bytes, named: bool)
    requires JsonGrammar.Writes(Utf8.Decode(body), lead, t, rest, Json.Object(fields))
    requires Utf8.Valid(id) && Utf8.Valid(addr) && Utf8.Valid(http) && (!named ==> http == [])
    requires forall m :: m in Listed(fields) <==>
               || m == ("id", Json.String(Utf8.Decode(id))) || m == ("addr", Json.String(Utf8.Decode(addr)))
               || (named && m == ("httpAddr", Json.String(Utf8.Decode(http))))
    ensures MemberBody(body) == Ok(Peer(id, addr, http))
  {
    hide MemberBody, JsonGrammar.Writes, TextFrom, TextOnly, SameName;
    var ms := Listed(fields);
    NamesDiffer();
    OneText(ms, "id", [], id);
    OneText(ms, "addr", [], addr);
    if named {
      OneText(ms, "httpAddr", [], http);
    } else {
      NoText(ms, "httpAddr", []);
    }
    assert PeerSaid(Json.Object(fields), Peer(id, addr, http));
    MemberBodyIff(body, Peer(id, addr, http));
  }

  lemma NamesDiffer()
    ensures SameName("id", "id") && SameName("addr", "addr") && SameName("httpAddr", "httpAddr")
    ensures !SameName("id", "addr") && !SameName("id", "httpAddr") && !SameName("addr", "id") && !SameName("addr", "httpAddr")
    ensures !SameName("httpAddr", "id") && !SameName("httpAddr", "addr")
  {
  }

  lemma OneText(ms: seq<(string, Json.Value)>, name: string, before: Bytes, x: Bytes)
    requires Utf8.Valid(x) && (name, Json.String(Utf8.Decode(x))) in ms && SameName(name, name)
    requires forall m :: m in ms && SameName(m.0, name) ==> m == (name, Json.String(Utf8.Decode(x)))
    ensures TextOnly(ms, name) && TextFrom(ms, name, before) == x
  {
    hide SameName;
    Utf8.SanitizeIdentity(x);
    var i :| 0 <= i < |ms| && ms[i] == (name, Json.String(Utf8.Decode(x)));
    assert TextNamed(name)(ms[i]);
  }

  lemma NoText(ms: seq<(string, Json.Value)>, name: string, before: Bytes)
    requires forall m :: m in ms ==> !SameName(m.0, name)
    ensures TextOnly(ms, name) && TextFrom(ms, name, before) == before
  {
    hide SameName;
  }

  datatype Reply = MethodNotAllowed | ToLeader | BadBody | Failure | Added | Removed

  /** What becomes of a future: whatever other requests do meanwhile, and then nil or an error. */
  datatype Verdict = Accept(meanwhile: seq<Step>) | Refuse(meanwhile: seq<Step>)

  /** How a request ends: done when both its futures answered nil, and stopped at the half that failed if not. */
  predicate Served(s: System, n: nat, r: Request, change: Verdict, stillLeads: bool, record: Verdict, done: Reply, reply: Reply) {
    var all := change.Accept? && (Records(r) ==> stillLeads && record.Accept?);
    && n in s.calls && s.calls[n].request == r
    && s.calls[n].phase == (if all then Finished else Failed(change.Accept?))
    && reply == if all then done else Failure
  }

  class Leader {
    var s: System

    constructor ()
      ensures s == NEW_CLUSTER
    {
      s := NEW_CLUSTER;
    }

    method Take(step: Step)
      requires Inv(s) && Enabled(s, step)
      modifies this
      ensures s == Do(old(s), step) && Inv(s) && Follows(old(s), s)
      ensures forall z :: Follows(z, old(s)) ==> Follows(z, s)
    {
      StepKeepsInv(s, step);
      FollowsNothing(s);
      FollowsStep(s, s, step);
      forall z | Follows(z, s) ensures Follows(z, Do(s, step)) {
        FollowsStep(z, s, step);
      }
      s := Do(s, step);
    }

    /** Other requests make the steps of a schedule that they can make. */
    method Others(n: nat, schedule: seq<Step>)
      requires Inv(s) && n in s.calls
      modifies this
      ensures Inv(s) && Follows(old(s), s) && n in s.calls && s.calls[n] == old(s).calls[n]
    {
      FollowsNothing(s);
      for i := 0 to |schedule|
        invariant Inv(s) && Follows(old(s), s) && n in s.calls && s.calls[n] == old(s).calls[n]
      {
        if schedule[i].n != n && Enabled(s, schedule[i]) {
          Take(schedule[i]);
        }
      }
    }

    /** Waits for the future of the half that request n is at. */
    method Await(n: nat, v: Verdict) returns (ok: bool)
      requires Inv(s) && n in s.calls && CanCommit(s.calls[n]) && !s.calls[n].phase.Failed?
      modifies this
      ensures Inv(s) && Follows(old(s), s) && n in s.calls && s.calls[n].request == old(s).calls[n].request
      ensures ok == v.Accept?
      ensures !ok ==> s.calls[n].phase == Failed(old(s).calls[n].phase == Recording)
      ensures ok ==> s.calls[n].phase == Passed(old(s).calls[n]).phase
                     && (s.calls[n].phase == Recording ==> CanCommit(s.calls[n]))
    {
      assert CallInv(s.log, n, s.calls[n]);
      Others(n, v.meanwhile);
      ok := v.Accept?;
      if ok {
        Take(Commit(n));
        Take(Pass(n));
      } else {
        Take(Fail(n));
      }
    }

    /** What the two handlers check before they act. */
    method Admit(post: bool, leads: bool, body: Bytes) returns (r: Result<Peer, Reply>)
      ensures r.Ok? <==> post && leads && MemberBody(body).Ok?
      ensures r.Ok? ==> r.value == MemberBody(body).value && ValidPeer(r.value)
      ensures r.Err? ==> r.error == if !post then MethodNotAllowed else if !leads then ToLeader else BadBody
    {
      if !post {
        return Err(MethodNotAllowed);
      }
      if !leads {
        return Err(ToLeader);
      }
      var b := MemberBody(body);
      if b.Err? {
        return Err(BadBody);
      }
      MemberBodyValid(body);
      return Ok(b.value);
    }

    /** The voter first and the record second; an error in between leaves the first half done. */
    method HandleJoin(n: nat, post: bool, leads: bool, body: Bytes, change: Verdict, stillLeads: bool, record: Verdict)
      returns (reply: Reply)
      requires Inv(s) && n !in s.calls
      modifies this
      ensures Inv(s) && Follows(old(s), s)
      ensures !(post && leads && MemberBody(body).Ok?) ==>
                s == old(s) && reply == if !post then MethodNotAllowed else if !leads then ToLeader else BadBody
      ensures post && leads && MemberBody(body).Ok? ==>
                var p := MemberBody(body).value;
                Served(s, n, Join(p.id, p.addr, p.httpAddr), change, stillLeads, record, Added, reply)
    {
      var b := Admit(post, leads, body);
      if b.Err? {
        FollowsNothing(s);
        return b.error;
      }
      reply := Serve(n, Join(b.value.id, b.value.addr, b.value.httpAddr), change, stillLeads, record, Added);
    }

    method HandleRemove(n: nat, post: bool, leads: bool, body: Bytes, change: Verdict, stillLeads: bool, record: Verdict)
      returns (reply: Reply)
      requires Inv(s) && n !in s.calls
      modifies this
      ensures Inv(s) && Follows(old(s), s)
      ensures !(post && leads && MemberBody(body).Ok?) ==>
                s == old(s) && reply == if !post then MethodNotAllowed else if !leads then ToLeader else BadBody
      ensures post && leads && MemberBody(body).Ok? ==>
                Served(s, n, Remove(MemberBody(body).value.id), change, stillLeads, record, Removed, reply)
    {
      var b := Admit(post, leads, body);
      if b.Err? {
        FollowsNothing(s);
        return b.error;
      }
      reply := Serve(n, Remove(b.value.id), change, stillLeads, record, Removed);
    }

    method Serve(n: nat, r: Request, change: Verdict, stillLeads: bool, record: Verdict, done: Reply) returns (reply: Reply)
      requires Inv(s) && n !in s.calls && FromBody(r) && Changes(r)
      modifies this
      ensures Inv(s) && Follows(old(s), s) && Served(s, n, r, change, stillLeads, record, done, reply)
    {
      Take(Open(n, r));
      ghost var begun := s;
      reply := Halves(n, change, stillLeads, record, done);
      FollowsTogether(old(s), begun, s);
    }

    /** What the two handlers share: the change, and then the record behind the leader gate of the store. */
    method Halves(n: nat, change: Verdict, stillLeads: bool, record: Verdict, done: Reply) returns (reply: Reply)
      requires Inv(s) && n in s.calls && s.calls[n] == Opened(s.calls[n].request) && Changes(s.calls[n].request)
      modifies this
      ensures Inv(s) && Follows(old(s), s)
      ensures Served(s, n, old(s).calls[n].request, change, stillLeads, record, done, reply)
    {
      var ok := Await(n, change);
      if !ok {
        return Failure;
      }
      if s.calls[n].phase == Recording {
        ghost var half := s;
        if !stillLeads {
          Take(Fail(n));
          return Failure;
        }
        ok := Await(n, record);
        FollowsTogether(old(s), half, s);
        if !ok {
          return Failure;
        }
      }
      return done;
    }
  }

  lemma FollowsTogether(a: System, b: System, c: System)
    requires Follows(a, b) && Follows(b, c)
    ensures Follows(a, c)
  {
    var p :| Runs(a, p, b);
    var q :| Runs(b, q, c);
    RunsAppend(a, p, b, q, c);
  }
}
