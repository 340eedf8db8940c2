/** The KV layer of one node: writes go through raft and only on the leader, reads go to the local FSM,
    every call is counted. */
module Store {
  import opened Wrappers
  import opened Utf8
  import opened Codec
  import opened Machine
  import Fsm
  import M = Metrics

  datatype Error = NotLeader | RaftError

  /** What raft makes of an entry handed to it. Accept: it is committed after some other entries, all are
      applied here, and the future answers nil. Refuse: the future answers an error, and what ends up in the
      history later, this entry included or not, is raft's business. */
  datatype Verdict = Accept(before: seq<Bytes>) | Refuse(later: seq<Bytes>)

  /** The node as the store sees it: a committed history and the local FSM, which has applied a prefix of it. */
  class Node {
    var leader: bool
    var history: seq<Bytes>
    var applied: nat
    const fsm: Fsm.FSM

    ghost predicate Valid()
      reads this, fsm, fsm.Repr()
    {
      applied <= |history| && fsm.View() == Replay(EMPTY, history[..applied])
    }

    constructor (f: Fsm.FSM, leader: bool)
      requires f.View() == EMPTY
      ensures Valid() && fsm == f && this.leader == leader && history == []
    {
      fsm, this.leader, history, applied := f, leader, [], 0;
    }

    /** Hands the next committed entry to the FSM. */
    method ApplyNext()
      requires Valid() && applied < |history|
      modifies this`applied, fsm.data, fsm.peers
      ensures Valid() && applied == old(applied) + 1
      ensures fsm.data == old(fsm.data) && fsm.peers == old(fsm.peers) && fresh(fsm.Repr() - old(fsm.Repr()))
    {
      hide ApplyEntry, Replay, DecodeCommand, Fsm.Texts;
      ReplayStep(history, applied);
      var log := Fsm.Allocate(history[applied]);
      var _ := fsm.Apply(log);
      applied := applied + 1;
    }

    /** Applies what is committed, entry by entry. */
    method CatchUp()
      requires Valid()
      modifies this`applied, fsm.data, fsm.peers
      ensures Valid() && applied == |history|
      ensures fsm.data == old(fsm.data) && fsm.peers == old(fsm.peers) && fresh(fsm.Repr() - old(fsm.Repr()))
    {
      while applied < |history|
        invariant Valid()
        invariant fsm.data == old(fsm.data) && fsm.peers == old(fsm.peers) && fresh(fsm.Repr() - old(fsm.Repr()))
        decreases |history| - applied
      {
        ApplyNext();
      }
    }

    method Apply(cmd: Bytes, verdict: Verdict) returns (ok: bool)
      requires Valid()
      modifies this`history, this`applied, fsm.data, fsm.peers
      ensures Valid() && ok == verdict.Accept?
      ensures ok ==> history == old(history) + verdict.before + [cmd] && applied == |history|
      ensures !ok ==> history == old(history) + verdict.later && applied == old(applied)
    {
      match verdict
      case Accept(before) =>
        history := history + before + [cmd];
        assert history[..applied] == old(history)[..applied];
        CatchUp();
        return true;
      case Refuse(later) =>
        history := history + later;
        assert history[..applied] == old(history)[..applied];
        return false;
    }
  }

  class Store {
    const node: Node
    const metrics: M.Metrics?

    ghost predicate Valid()
      reads this, node, node.fsm, node.fsm.Repr(), metrics
    {
      node.Valid() && (metrics != null ==> metrics.Valid())
    }

    constructor (node: Node, metrics: M.Metrics?)
      requires node.Valid() && (metrics != null ==> metrics.Valid())
      ensures Valid() && this.node == node && this.metrics == metrics
    {
      this.node, this.metrics := node, metrics;
    }

    /** The leader gate, the encoding and the hand-over that every write shares. */
    method Submit(c: Command, verdict: Verdict) returns (r: Result<(), Error>)
      requires node.Valid()
      modifies node`history, node`applied, node.fsm.data, node.fsm.peers
      ensures node.Valid()
      ensures !node.leader ==> r == Err(NotLeader) && node.history == old(node.history) && node.applied == old(node.applied)
      ensures r.Ok? <==> node.leader && verdict.Accept?
      ensures node.leader && r.Err? ==> r == Err(RaftError) && node.history == old(node.history) + verdict.later && node.applied == old(node.applied)
      ensures r.Ok? ==> node.history == old(node.history) + verdict.before + [EncodeCommand(c)] && node.applied == |node.history|
    {
      if !node.leader {
        return Err(NotLeader);
      }
      var ok := node.Apply(EncodeCommand(c), verdict);
      return if ok then Ok(()) else Err(RaftError);
    }

    /** When it returns nil, the key that arrives holds the value on this node. */
    method Put(key: Bytes, value: Bytes, verdict: Verdict, seconds: real) returns (r: Result<(), Error>)
      requires Valid()
      modifies node`history, node`applied, node.fsm.data, node.fsm.peers, metrics
      ensures Valid()
      ensures !node.leader ==> r == Err(NotLeader) && node.history == old(node.history) && node.applied == old(node.applied)
      ensures r.Ok? <==> node.leader && verdict.Accept?
      ensures node.leader && r.Err? ==> r == Err(RaftError) && node.history == old(node.history) + verdict.later && node.applied == old(node.applied)
      ensures r.Ok? ==> node.history == old(node.history) + verdict.before + [EncodeCommand(PutCommand(key, value))]
                        && node.applied == |node.history|
      ensures metrics != null ==> metrics.kvOps == old(metrics.kvOps)["put" := old(M.Count(metrics.kvOps, "put")) + 1]
                                  && metrics.kvErrors == (if r.Ok? then old(metrics.kvErrors)
                                     else old(metrics.kvErrors)["put" := old(M.Count(metrics.kvErrors, "put")) + 1])
                                  && metrics.applyDur == old(metrics.applyDur)["put" := old(M.Samples(metrics.applyDur, "put")) + [seconds]]
                                  && metrics.readDur == old(metrics.readDur)
    {
      hide EncodeCommand, Replay, Fsm.Texts, DecodeCommand, M.IsWrite, M.IsRead, M.Samples;
      r := Submit(PutCommand(key, value), verdict);
      if metrics != null {
        metrics.ObserveKVOp("put", r.Err?, seconds);
      }
    }

    method Delete(key: Bytes, verdict: Verdict, seconds: real) returns (r: Result<(), Error>)
      requires Valid()
      modifies node`history, node`applied, node.fsm.data, node.fsm.peers, metrics
      ensures Valid()
      ensures !node.leader ==> r == Err(NotLeader) && node.history == old(node.history) && node.applied == old(node.applied)
      ensures r.Ok? <==> node.leader && verdict.Accept?
      ensures node.leader && r.Err? ==> r == Err(RaftError) && node.history == old(node.history) + verdict.later && node.applied == old(node.applied)
      ensures r.Ok? ==> node.history == old(node.history) + verdict.before + [EncodeCommand(DeleteCommand(key))]
                        && node.applied == |node.history|
      ensures metrics != null ==> metrics.kvOps == old(metrics.kvOps)["delete" := old(M.Count(metrics.kvOps, "delete")) + 1]
                                  && metrics.kvErrors == (if r.Ok? then old(metrics.kvErrors)
                                     else old(metrics.kvErrors)["delete" := old(M.Count(metrics.kvErrors, "delete")) + 1])
                                  && metrics.applyDur == old(metrics.applyDur)["delete" := old(M.Samples(metrics.applyDur, "delete")) + [seconds]]
                                  && metrics.readDur == old(metrics.readDur)
    {
      hide EncodeCommand, Replay, Fsm.Texts, DecodeCommand, M.IsWrite, M.IsRead, M.Samples;
      r := Submit(DeleteCommand(key), verdict);
      if metrics != null {
        metrics.ObserveKVOp("delete", r.Err?, seconds);
      }
    }

    /** Peer records are not counted. */
    method AddPeer(id: Bytes, addr: Bytes, http: Bytes, verdict: Verdict) returns (r: Result<(), Error>)
      requires Valid()
      modifies node`history, node`applied, node.fsm.data, node.fsm.peers
      ensures Valid()
      ensures !node.leader ==> r == Err(NotLeader) && node.history == old(node.history)
      ensures r.Ok? <==> node.leader && verdict.Accept?
      ensures node.leader && r.Err? ==> r == Err(RaftError) && node.history == old(node.history) + verdict.later && node.applied == old(node.applied)
      ensures r.Ok? ==> node.history == old(node.history) + verdict.before + [EncodeCommand(AddPeerCommand(id, addr, http))]
                        && node.applied == |node.history|
    {
      r := Submit(AddPeerCommand(id, addr, http), verdict);
    }

    method RemovePeer(id: Bytes, verdict: Verdict) returns (r: Result<(), Error>)
      requires Valid()
      modifies node`history, node`applied, node.fsm.data, node.fsm.peers
      ensures Valid()
      ensures !node.leader ==> r == Err(NotLeader) && node.history == old(node.history)
      ensures r.Ok? <==> node.leader && verdict.Accept?
      ensures node.leader && r.Err? ==> r == Err(RaftError) && node.history == old(node.history) + verdict.later && node.applied == old(node.applied)
      ensures r.Ok? ==> node.history == old(node.history) + verdict.before + [EncodeCommand(RemovePeerCommand(id))]
                        && node.applied == |node.history|
    {
      r := Submit(RemovePeerCommand(id), verdict);
    }

    /** The local state as it is, leader or not. */
    method Get(key: Bytes, seconds: real) returns (v: Option<Fsm.Buffer>)
      requires Valid()
      modifies metrics
      ensures Valid()
      ensures var s := Replay(EMPTY, node.history[..node.applied]);
              && (v.Some? <==> key in s.data) && (v.Some? ==> fresh(v.value) && v.value[..] == s.data[key])
      ensures metrics != null ==> metrics.kvOps == old(metrics.kvOps)["get" := old(M.Count(metrics.kvOps, "get")) + 1]
                                  && metrics.kvErrors == old(metrics.kvErrors)
                                  && metrics.readDur == old(metrics.readDur)["get" := old(M.Samples(metrics.readDur, "get")) + [seconds]]
                                  && metrics.applyDur == old(metrics.applyDur)
    {
      v := node.fsm.Get(key);
      if metrics != null {
        metrics.ObserveKVOp("get", false, seconds);
      }
    }

    method List(prefix: Bytes, seconds: real) returns (out: Fsm.DataMap)
      requires Valid()
      modifies metrics
      ensures Valid()
      ensures var s := Replay(EMPTY, node.history[..node.applied]);
              fresh(out.Repr()) && out.Contents() == map k | k in s.data && prefix <= k :: s.data[k]
      ensures metrics != null ==> metrics.kvOps == old(metrics.kvOps)["list" := old(M.Count(metrics.kvOps, "list")) + 1]
                                  && metrics.kvErrors == old(metrics.kvErrors)
                                  && metrics.readDur == old(metrics.readDur)["list" := old(M.Samples(metrics.readDur, "list")) + [seconds]]
                                  && metrics.applyDur == old(metrics.applyDur)
    {
      out := node.fsm.List(prefix);
      if metrics != null {
        metrics.ObserveKVOp("list", false, seconds);
      }
    }
  }

  lemma ReplayStep(h: seq<Bytes>, i: nat)
    requires i < |h|
    ensures Replay(EMPTY, h[..i + 1]) == ApplyEntry(Replay(EMPTY, h[..i]), h[i])
  {
    assert h[..i + 1][..i] == h[..i];
  }

  /** A put that succeeded is read back by the next get of the same key exactly when the key is valid UTF-8. */
  method PutThenGet(s: Store, key: Bytes, value: Bytes, verdict: Verdict) returns (put: Result<(), Error>, got: Option<Fsm.Buffer>)
    requires s.Valid()
    modifies s.node`history, s.node`applied, s.node.fsm.data, s.node.fsm.peers, s.metrics
    ensures s.Valid()
    ensures put.Ok? ==> (got.Some? <==> Valid(key)) && (got.Some? ==> got.value[..] == value)
  {
    put := s.Put(key, value, verdict, 0.0);
    got := s.Get(key, 0.0);
    if put.Ok? {
      ghost var h := s.node.history;
      ReadBack(h[..|h| - 1], key, value);
      assert h == h[..|h| - 1] + [EncodeCommand(PutCommand(key, value))];
      assert h[..s.node.applied] == h;
    }
  }

  lemma ReadBack(log: seq<Bytes>, key: Bytes, value: Bytes)
    ensures var s := Replay(EMPTY, log + [EncodeCommand(PutCommand(key, value))]);
            (key in s.data <==> Valid(key)) && (key in s.data ==> s.data[key] == value)
  {
    var cmd := EncodeCommand(PutCommand(key, value));
    var longer := log + [cmd];
    assert longer[..|longer| - 1] == log;
    PutEffect(key, value);
    ApplySetsOnePlace(Replay(EMPTY, log), cmd, KeyTarget(key));
    ReplayWellFormed(EMPTY, longer);
  }

  // ----- Calls in the ledger -----------------------------------------------------------------------

  /** Put does to its node's counters and to the history what one whole call does in the ledger of the cluster. */
  method PutInLedger(s: Store, m: M.Metrics, key: Bytes, value: Bytes, verdict: Verdict, seconds: real,
                     ghost l: M.Ledger, ghost node: nat, ghost id: nat)
    returns (r: Result<(), Error>, ghost l': M.Ledger)
    requires s.Valid() && s.metrics == m && M.Reached(l) && M.Reflects(m.kvOps, m.kvErrors, l, node) && id !in l.calls
    modifies s.node`history, s.node`applied, s.node.fsm.data, s.node.fsm.peers, m
    ensures s.Valid() && M.Reached(l') && M.Reflects(m.kvOps, m.kvErrors, l', node)
    ensures l'.calls == l.calls[id := M.WriteCall(node, M.PutOp, M.Returned(r.Err?), r.Ok?)]
    ensures l'.log == if r.Ok? then l.log + [id] else l.log
    ensures r.Ok? <==> s.node.leader && verdict.Accept?
    ensures r.Ok? ==> s.node.history == old(s.node.history) + verdict.before + [EncodeCommand(PutCommand(key, value))]
  {
    r := s.Put(key, value, verdict, seconds);
    l' := M.WholeCall(l, id, node, M.PutOp, s.node.leader, r.Ok?);
    M.StillReflects(old(m.kvOps), old(m.kvErrors), l, l', node, M.PutOp, r.Err?);
  }

  /** The same for Delete. */
  method DeleteInLedger(s: Store, m: M.Metrics, key: Bytes, verdict: Verdict, seconds: real,
                        ghost l: M.Ledger, ghost node: nat, ghost id: nat)
    returns (r: Result<(), Error>, ghost l': M.Ledger)
    requires s.Valid() && s.metrics == m && M.Reached(l) && M.Reflects(m.kvOps, m.kvErrors, l, node) && id !in l.calls
    modifies s.node`history, s.node`applied, s.node.fsm.data, s.node.fsm.peers, m
    ensures s.Valid() && M.Reached(l') && M.Reflects(m.kvOps, m.kvErrors, l', node)
    ensures l'.calls == l.calls[id := M.WriteCall(node, M.DeleteOp, M.Returned(r.Err?), r.Ok?)]
    ensures l'.log == if r.Ok? then l.log + [id] else l.log
    ensures r.Ok? <==> s.node.leader && verdict.Accept?
    ensures r.Ok? ==> s.node.history == old(s.node.history) + verdict.before + [EncodeCommand(DeleteCommand(key))]
  {
    r := s.Delete(key, verdict, seconds);
    l' := M.WholeCall(l, id, node, M.DeleteOp, s.node.leader, r.Ok?);
    M.StillReflects(old(m.kvOps), old(m.kvErrors), l, l', node, M.DeleteOp, r.Err?);
  }
}
