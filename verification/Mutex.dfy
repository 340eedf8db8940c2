/** The FSM under its RWMutex, any number of callers, one shared access at a time: a loop over a map takes
    one step per entry, and Restore assigns its two fields one after the other.

    A call enters the trace when it returns, with its caller and the length the trace had when it began. The
    theorem is that the trace is a sequential execution: every call answers what the state left by the calls
    before it demands, and those that had returned when it began are among them. */
module Mutex {
  import opened Wrappers
  import opened Utf8
  import opened Codec
  import opened Machine
  import opened SnapshotCodec
  import opened Fsm

  type Caller = nat

  datatype Op =
    | Apply(entry: Bytes)
    | Get(key: Bytes)
    | List(prefix: Bytes)
    | Peers
    | Len
    | Snapshot
    | Restore(stream: Bytes)

  datatype Answer =
    | Rejected                        // the bytes did not decode
    | Done
    | Found(value: Option<Bytes>)
    | Listed(entries: map<Bytes, Bytes>)
    | PeerList(peers: seq<Peer>)
    | Count(n: nat)
    | Copied(state: State)

  // ----- The sequential FSM ----------------------------------------------------------------------

  predicate Rejects(op: Op) {
    || (op.Apply? && DecodeCommand(op.entry).Err?)
    || (op.Restore? && RestoreBytes(op.stream).Err?)
  }

  function Under(prefix: Bytes, data: map<Bytes, Bytes>): map<Bytes, Bytes> {
    map k | k in data && prefix <= k :: data[k]
  }

  /** May op answer a in state s? Only the order of Peers is open. */
  ghost predicate Answers(s: State, op: Op, a: Answer) {
    if Rejects(op) then a == Rejected
    else match op
      case Apply(_) => a == Done
      case Restore(_) => a == Done
      case Get(key) => a == Found(if key in s.data then Some(s.data[key]) else None)
      case List(prefix) => a == Listed(Under(prefix, s.data))
      case Peers => a.PeerList? && exists ids :: Lists(a.peers, ids, s.peers)
      case Len => a == Count(|s.data|)
      case Snapshot => a == Copied(s)
  }

  function Effect(s: State, op: Op): State {
    match op
    case Apply(entry) => ApplyEntry(s, entry)
    case Restore(stream) => var r := RestoreBytes(stream); if r.Ok? then r.value else s
    case _ => s
  }

  datatype Call = Call(caller: Caller, begun: nat, op: Op, answer: Answer)

  function After(trace: seq<Call>): State {
    if trace == [] then EMPTY else Effect(After(trace[..|trace| - 1]), trace[|trace| - 1].op)
  }

  /** Every answer fits the state its predecessors left. */
  ghost predicate Sequential(trace: seq<Call>) {
    forall i :: 0 <= i < |trace| ==> Answers(After(trace[..i]), trace[i].op, trace[i].answer)
  }

  // ----- The concurrent FSM ----------------------------------------------------------------------

  datatype Thread =
    | Idle
    | Waiting(op: Op)
    | ApplyHeld(entry: Bytes)
    | ApplyWritten(entry: Bytes)
    | RestoreHeld(stream: Bytes)
    | RestoreHalf(stream: Bytes)
    | RestoreWritten(stream: Bytes)
    | GetHeld(key: Bytes)
    | LenHeld
    | ListLoop(prefix: Bytes, todo: set<Bytes>, out: map<Bytes, Bytes>)
    | PeersLoop(todo: set<Bytes>, ids: seq<Bytes>, listed: seq<Peer>)
    | SnapshotLoop(todo: set<Bytes>, data: map<Bytes, Bytes>, peersTodo: set<Bytes>, peers: map<Bytes, Peer>)

  datatype System = System(shared: State, readers: set<Caller>, writer: Option<Caller>, threads: map<Caller, Thread>,
                           begun: map<Caller, nat>, trace: seq<Call>)

  predicate Writes(t: Thread) {
    t.ApplyHeld? || t.ApplyWritten? || t.RestoreHeld? || t.RestoreHalf? || t.RestoreWritten?
  }

  predicate Reads(t: Thread) {
    t.GetHeld? || t.LenHeld? || t.ListLoop? || t.PeersLoop? || t.SnapshotLoop?
  }

  /** start, take the lock, one loop iteration on the entry the runtime picks, one assignment, return. */
  datatype Move = Start(c: Caller, op: Op) | Lock(c: Caller) | Iterate(c: Caller, k: Bytes) | Assign(c: Caller) | Return(c: Caller)

  predicate Enabled(s: System, m: Move) {
    m.c in s.threads && var t := s.threads[m.c];
    match m
    case Start(_, _) => t.Idle?
    case Lock(_) => t.Waiting? && s.writer.None? && (t.op.Apply? || t.op.Restore? ==> s.readers == {})
    case Iterate(_, k) =>
      || (t.ListLoop? && k in t.todo && k in s.shared.data)
      || (t.PeersLoop? && k in t.todo && k in s.shared.peers)
      || (t.SnapshotLoop? && k in t.todo && k in s.shared.data)
      || (t.SnapshotLoop? && t.todo == {} && k in t.peersTodo && k in s.shared.peers)
    case Assign(_) => t.ApplyHeld? || (t.RestoreHeld? && RestoreBytes(t.stream).Ok?) || (t.RestoreHalf? && RestoreBytes(t.stream).Ok?)
    case Return(_) =>
      || t.ApplyWritten? || t.RestoreWritten? || t.GetHeld? || t.LenHeld?
      || (t.ListLoop? && t.todo == {}) || (t.PeersLoop? && t.todo == {})
      || (t.SnapshotLoop? && t.todo == {} && t.peersTodo == {})
  }

  function Locked(shared: State, op: Op): Thread {
    match op
    case Apply(entry) => ApplyHeld(entry)
    case Restore(stream) => RestoreHeld(stream)
    case Get(key) => GetHeld(key)
    case Len => LenHeld
    case List(prefix) => ListLoop(prefix, shared.data.Keys, map[])
    case Peers => PeersLoop(shared.peers.Keys, [], [])
    case Snapshot => SnapshotLoop(shared.data.Keys, map[], shared.peers.Keys, map[])
  }

  function Iterated(shared: State, t: Thread, k: Bytes): Thread
    requires t.ListLoop? || t.SnapshotLoop? ==> k in shared.data || (t.SnapshotLoop? && t.todo == {} && k in shared.peers)
    requires t.PeersLoop? ==> k in shared.peers
  {
    match t
    case ListLoop(prefix, todo, out) =>
      ListLoop(prefix, todo - {k}, if prefix <= k then out[k := shared.data[k]] else out)
    case PeersLoop(todo, ids, listed) => PeersLoop(todo - {k}, ids + [k], listed + [shared.peers[k]])
    case SnapshotLoop(todo, data, peersTodo, peers) =>
      if todo != {} && k in shared.data then SnapshotLoop(todo - {k}, data[k := shared.data[k]], peersTodo, peers)
      else if k in shared.peers then SnapshotLoop(todo, data, peersTodo - {k}, peers[k := shared.peers[k]])
      else t
    case _ => t
  }

  /** The operation a busy caller is at. */
  function OpOf(t: Thread): Op {
    match t
    case Waiting(op) => op
    case ApplyHeld(entry) => Apply(entry)
    case ApplyWritten(entry) => Apply(entry)
    case RestoreHeld(stream) => Restore(stream)
    case RestoreHalf(stream) => Restore(stream)
    case RestoreWritten(stream) => Restore(stream)
    case GetHeld(key) => Get(key)
    case ListLoop(prefix, _, _) => List(prefix)
    case PeersLoop(_, _, _) => Peers
    case SnapshotLoop(_, _, _, _) => Snapshot
    case _ => Len
  }

  function AnswerOf(shared: State, t: Thread): Answer {
    match t
    case GetHeld(key) => Found(if key in shared.data then Some(shared.data[key]) else None)
    case LenHeld => Count(|shared.data|)
    case ListLoop(_, _, out) => Listed(out)
    case PeersLoop(_, _, listed) => PeerList(listed)
    case SnapshotLoop(_, data, _, peers) => Copied(State(data, peers))
    case _ => Done
  }

  function BegunAt(s: System, c: Caller): nat {
    if c in s.begun then s.begun[c] else |s.trace|
  }

  function Returned(s: System, c: Caller): Call
    requires c in s.threads
  {
    Call(c, BegunAt(s, c), OpOf(s.threads[c]), AnswerOf(s.shared, s.threads[c]))
  }

  function Do(s: System, m: Move): System
    requires Enabled(s, m)
  {
    var t := s.threads[m.c];
    match m
    case Start(c, op) =>
      if Rejects(op) then s.(trace := s.trace + [Call(c, |s.trace|, op, Rejected)])
      else s.(threads := s.threads[c := Waiting(op)], begun := s.begun[c := |s.trace|])
    case Lock(c) =>
      var held := Locked(s.shared, t.op);
      if Writes(held) then s.(writer := Some(c), threads := s.threads[c := held])
      else s.(readers := s.readers + {c}, threads := s.threads[c := held])
    case Iterate(c, k) => s.(threads := s.threads[c := Iterated(s.shared, t, k)])
    case Assign(c) =>
      if t.ApplyHeld? then s.(shared := ApplyEntry(s.shared, t.entry), threads := s.threads[c := ApplyWritten(t.entry)])
      else
        var sd := RestoreBytes(t.stream).value;
        if t.RestoreHeld? then s.(shared := s.shared.(data := sd.data), threads := s.threads[c := RestoreHalf(t.stream)])
        else s.(shared := s.shared.(peers := sd.peers), threads := s.threads[c := RestoreWritten(t.stream)])
    case Return(c) =>
      s.(trace := s.trace + [Returned(s, c)], readers := s.readers - {c},
         writer := if Writes(t) then None else s.writer, threads := s.threads[c := Idle])
  }

  // ----- The invariant ---------------------------------------------------------------------------

  /** What a reader has gathered so far, against the state it reads. */
  ghost predicate ReaderInv(s: State, t: Thread) {
    match t
    case ListLoop(prefix, todo, out) =>
      todo <= s.data.Keys && out == (map k | k in s.data && k !in todo && prefix <= k :: s.data[k])
    case PeersLoop(todo, ids, listed) =>
      && todo <= s.peers.Keys && multiset(ids) == multiset(s.peers.Keys - todo)
      && |listed| == |ids| && forall i :: 0 <= i < |ids| ==> ids[i] in s.peers && listed[i] == s.peers[ids[i]]
    case SnapshotLoop(todo, data, peersTodo, peers) =>
      && todo <= s.data.Keys && data == (map k | k in s.data && k !in todo :: s.data[k])
      && peersTodo <= s.peers.Keys && peers == (map k | k in s.peers && k !in peersTodo :: s.peers[k])
    case _ => true
  }

  /** How far the shared state has moved from the one the trace leaves, by what the writer has done. */
  ghost predicate WriterInv(shared: State, settled: State, t: Thread) {
    match t
    case ApplyHeld(entry) => shared == settled && DecodeCommand(entry).Ok?
    case ApplyWritten(entry) => shared == ApplyEntry(settled, entry) && DecodeCommand(entry).Ok?
    case RestoreHeld(stream) => shared == settled && RestoreBytes(stream).Ok?
    case RestoreHalf(stream) => RestoreBytes(stream).Ok? && shared == settled.(data := RestoreBytes(stream).value.data)
    case RestoreWritten(stream) => RestoreBytes(stream).Ok? && shared == RestoreBytes(stream).value
    case _ => true
  }

  ghost predicate Inv(s: System) {
    && Sequential(s.trace)
    && (forall c :: c in s.threads && Reads(s.threads[c]) <==> c in s.readers)
    && (forall c :: c in s.threads && Writes(s.threads[c]) <==> s.writer == Some(c))
    && (s.writer.Some? ==> s.readers == {} && WriterInv(s.shared, After(s.trace), s.threads[s.writer.value]))
    && (s.writer.None? ==> s.shared == After(s.trace))
    && (forall c :: c in s.readers ==> ReaderInv(s.shared, s.threads[c]))
    && (forall c :: c in s.threads && s.threads[c].Waiting? ==> !Rejects(s.threads[c].op))
  }

  ghost predicate Init(s: System) {
    s.shared == EMPTY && s.readers == {} && s.writer.None? && s.trace == [] && forall c :: c in s.threads ==> s.threads[c].Idle?
  }

  lemma SequentialExtend(trace: seq<Call>, call: Call)
    requires Sequential(trace) && Answers(After(trace), call.op, call.answer)
    ensures Sequential(trace + [call]) && After(trace + [call]) == Effect(After(trace), call.op)
  {
    var longer := trace + [call];
    assert longer[..|longer| - 1] == trace;
    forall i | 0 <= i < |longer| ensures Answers(After(longer[..i]), longer[i].op, longer[i].answer) {
      if i < |trace| {
        assert longer[..i] == trace[..i];
      }
    }
  }

  lemma StartKeepsInv(s: System, c: Caller, op: Op)
    requires Inv(s) && Enabled(s, Start(c, op))
    ensures Inv(Do(s, Start(c, op)))
  {
    if Rejects(op) {
      SequentialExtend(s.trace, Call(c, |s.trace|, op, Rejected));
    }
  }

  lemma LockedReads(s: State, op: Op)
    requires !op.Apply? && !op.Restore?
    ensures Reads(Locked(s, op)) && !Writes(Locked(s, op)) && ReaderInv(s, Locked(s, op))
  {
    assert s.peers.Keys - s.peers.Keys == {};
  }

  lemma LockReaderKeepsInv(s: System, c: Caller)
    requires Inv(s) && Enabled(s, Lock(c)) && !s.threads[c].op.Apply? && !s.threads[c].op.Restore?
    ensures Inv(Do(s, Lock(c)))
  {
    LockedReads(s.shared, s.threads[c].op);
  }

  lemma LockWriterKeepsInv(s: System, c: Caller)
    requires Inv(s) && Enabled(s, Lock(c)) && (s.threads[c].op.Apply? || s.threads[c].op.Restore?)
    ensures Inv(Do(s, Lock(c)))
  {
    hide DecodeCommand, RestoreBytes;
    assert !Rejects(s.threads[c].op);
  }

  lemma IterateKeepsReaderInv(s: State, t: Thread, k: Bytes)
    requires ReaderInv(s, t)
    requires t.ListLoop? || t.PeersLoop? || t.SnapshotLoop?
    requires t.ListLoop? ==> k in t.todo && k in s.data
    requires t.PeersLoop? ==> k in t.todo && k in s.peers
    requires t.SnapshotLoop? ==> (k in t.todo && k in s.data) || (t.todo == {} && k in t.peersTodo && k in s.peers)
    ensures ReaderInv(s, Iterated(s, t, k)) && Reads(Iterated(s, t, k))
  {
    if t.PeersLoop? {
      assert s.peers.Keys - (t.todo - {k}) == (s.peers.Keys - t.todo) + {k};
    }
  }

  lemma IterateKeepsInv(s: System, c: Caller, k: Bytes)
    requires Inv(s) && Enabled(s, Iterate(c, k))
    ensures Inv(Do(s, Iterate(c, k)))
  {
    assert Reads(s.threads[c]);
    assert c in s.readers;
    IterateKeepsReaderInv(s.shared, s.threads[c], k);
  }

  lemma AssignKeepsInv(s: System, c: Caller)
    requires Inv(s) && Enabled(s, Assign(c))
    ensures Inv(Do(s, Assign(c)))
  {
    hide DecodeCommand, RestoreBytes, Sequential, ReaderInv, ApplyEntry;
    assert Writes(s.threads[c]);
    assert s.writer == Some(c);
  }

  /** A finished reader answers what its one state demands. */
  lemma ReaderAnswers(s: State, t: Thread)
    requires ReaderInv(s, t) && Reads(t)
    requires t.ListLoop? ==> t.todo == {}
    requires t.PeersLoop? ==> t.todo == {}
    requires t.SnapshotLoop? ==> t.todo == {} && t.peersTodo == {}
    ensures Answers(s, OpOf(t), AnswerOf(s, t)) && Effect(s, OpOf(t)) == s
  {
    match t
    case ListLoop(prefix, todo, out) => assert out == Under(prefix, s.data);
    case PeersLoop(todo, ids, listed) =>
      assert s.peers.Keys - todo == s.peers.Keys;
      assert Lists(listed, ids, s.peers);
    case SnapshotLoop(_, data, _, peers) => assert data == s.data && peers == s.peers;
    case _ =>
  }

  lemma ReaderReturnKeepsInv(s: System, c: Caller)
    requires Inv(s) && Enabled(s, Return(c)) && Reads(s.threads[c])
    ensures Inv(Do(s, Return(c)))
  {
    hide DecodeCommand, RestoreBytes, Effect, Answers, After, WriterInv, ReaderInv, Sequential, OpOf, AnswerOf;
    assert c in s.readers && s.writer.None?;
    ReaderAnswers(s.shared, s.threads[c]);
    SequentialExtend(s.trace, Returned(s, c));
  }

  /** A finished writer has done what its operation demands. */
  lemma WriterSettles(shared: State, settled: State, t: Thread)
    requires WriterInv(shared, settled, t) && (t.ApplyWritten? || t.RestoreWritten?)
    ensures Effect(settled, OpOf(t)) == shared && Answers(settled, OpOf(t), AnswerOf(shared, t))
  {
    hide DecodeCommand, RestoreBytes;
  }

  lemma WriterReturnKeepsInv(s: System, c: Caller)
    requires Inv(s) && Enabled(s, Return(c)) && Writes(s.threads[c])
    ensures Inv(Do(s, Return(c)))
  {
    hide DecodeCommand, RestoreBytes, Effect, Answers, After, WriterInv, ReaderInv, Sequential, OpOf, AnswerOf;
    assert s.writer == Some(c);
    WriterSettles(s.shared, After(s.trace), s.threads[c]);
    SequentialExtend(s.trace, Returned(s, c));
  }

  lemma MoveKeepsInv(s: System, m: Move)
    requires Inv(s) && Enabled(s, m)
    ensures Inv(Do(s, m))
  {
    match m
    case Start(c, op) => StartKeepsInv(s, c, op);
    case Lock(c) =>
      if s.threads[c].op.Apply? || s.threads[c].op.Restore? {
        LockWriterKeepsInv(s, c);
      } else {
        LockReaderKeepsInv(s, c);
      }
    case Iterate(c, k) => IterateKeepsInv(s, c, k);
    case Assign(c) => AssignKeepsInv(s, c);
    case Return(c) =>
      if Reads(s.threads[c]) {
        ReaderReturnKeepsInv(s, c);
      } else {
        WriterReturnKeepsInv(s, c);
      }
  }

  // ----- Linearizability -------------------------------------------------------------------------

  ghost predicate Next(s: System, s': System) {
    exists m :: Enabled(s, m) && Do(s, m) == s'
  }

  ghost predicate IsRun(run: seq<System>) {
    run != [] && Init(run[0]) && forall i :: 0 <= i < |run| - 1 ==> Next(run[i], run[i + 1])
  }

  lemma NextKeepsInv(s: System, s': System)
    requires Inv(s) && Next(s, s')
    ensures Inv(s') && s.trace <= s'.trace
  {
    var m :| Enabled(s, m) && Do(s, m) == s';
    MoveKeepsInv(s, m);
  }

  lemma {:induction false} RunInv(run: seq<System>, i: nat)
    requires IsRun(run) && i < |run|
    ensures Inv(run[i])
  {
    if i > 0 {
      RunInv(run, i - 1);
      assert Next(run[i - 1], run[i - 1 + 1]);
      NextKeepsInv(run[i - 1], run[i]);
    }
  }

  /** At step i of the run the caller begins the operation. */
  ghost predicate Begins(run: seq<System>, i: nat, c: Caller, op: Op)
    requires i + 1 < |run|
  {
    Enabled(run[i], Start(c, op)) && Do(run[i], Start(c, op)) == run[i + 1]
  }

  /** Did the caller begin the operation at some step before j, when so many calls had returned? */
  ghost predicate BegunBefore(run: seq<System>, j: nat, c: Caller, op: Op, begun: nat)
    requires j < |run|
  {
    exists i :: 0 <= i < j && Begins(run, i, c, op) && begun == |run[i].trace|
  }

  lemma LockKeepsOp(s: State, op: Op)
    ensures OpOf(Locked(s, op)) == op && !Locked(s, op).Idle? && !Locked(s, op).Waiting?
  {
  }

  /** A move leaves every caller idle, or at the operation it was at, or has just begun one. */
  lemma MoveKeepsOp(s: System, m: Move, c: Caller)
    requires Enabled(s, m) && c in Do(s, m).threads && !Do(s, m).threads[c].Idle?
    ensures c in s.threads
    ensures m.Start? && m.c == c ==> OpOf(Do(s, m).threads[c]) == m.op && BegunAt(Do(s, m), c) == |s.trace|
    ensures !(m.Start? && m.c == c) ==>
              !s.threads[c].Idle? && OpOf(Do(s, m).threads[c]) == OpOf(s.threads[c])
              && (c in s.begun ==> c in Do(s, m).begun && Do(s, m).begun[c] == s.begun[c])
    ensures m.Start? && m.c == c ==> c in Do(s, m).begun
  {
    hide DecodeCommand, RestoreBytes, ApplyEntry;
    if m.Lock? {
      LockKeepsOp(s.shared, s.threads[m.c].op);
    }
  }

  /** A busy caller began the operation it is at. */
  lemma {:induction false} BusyWasBegun(run: seq<System>, j: nat, c: Caller)
    requires IsRun(run) && j < |run| && c in run[j].threads && !run[j].threads[c].Idle?
    ensures c in run[j].begun && BegunBefore(run, j, c, OpOf(run[j].threads[c]), run[j].begun[c])
  {
    hide Enabled, Do, OpOf;
    if j > 0 {
      assert Next(run[j - 1], run[j - 1 + 1]);
      var m :| Enabled(run[j - 1], m) && Do(run[j - 1], m) == run[j];
      MoveKeepsOp(run[j - 1], m, c);
      if m.Start? && m.c == c {
        assert Begins(run, j - 1, c, m.op);
      } else {
        BusyWasBegun(run, j - 1, c);
        var i :| 0 <= i < j - 1 && Begins(run, i, c, OpOf(run[j - 1].threads[c])) && run[j - 1].begun[c] == |run[i].trace|;
      }
    }
  }

  /** What a move adds to the trace, if anything: the call of a caller that was busy, or one refused at once. */
  lemma MoveAdds(s: System, m: Move)
    requires Enabled(s, m)
    ensures m.c in s.threads
    ensures var s' := Do(s, m);
            || s'.trace == s.trace
            || (m.Return? && s'.trace == s.trace + [Returned(s, m.c)] && !s.threads[m.c].Idle?)
            || (m.Start? && s'.trace == s.trace + [Call(m.c, |s.trace|, m.op, Rejected)])
  {
    hide DecodeCommand, RestoreBytes, ApplyEntry;
  }

  /** Every call in the trace is the operation that its caller began, when no more calls had returned than stand
      before it. */
  lemma {:induction false} CallsWereBegun(run: seq<System>, j: nat, k: nat)
    requires IsRun(run) && j < |run| && k < |run[j].trace|
    ensures var call := run[j].trace[k];
            call.begun <= k && BegunBefore(run, j, call.caller, call.op, call.begun)
  {
    hide Enabled, Do, Returned, OpOf;
    if j > 0 {
      assert Next(run[j - 1], run[j - 1 + 1]);
      var s := run[j - 1];
      var m :| Enabled(s, m) && Do(s, m) == run[j];
      MoveAdds(s, m);
      if k < |s.trace| {
        CallsWereBegun(run, j - 1, k);
        var call := s.trace[k];
        var i :| 0 <= i < j - 1 && Begins(run, i, call.caller, call.op) && call.begun == |run[i].trace|;
      } else if m.Start? {
        assert Begins(run, j - 1, m.c, m.op);
      } else {
        BusyWasBegun(run, j - 1, m.c);
        ReturnedCall(s, m.c);
        var i :| 0 <= i < j - 1 && Begins(run, i, m.c, OpOf(s.threads[m.c])) && s.begun[m.c] == |run[i].trace|;
        TraceGrows(run, i, j - 1);
      }
    }
  }

  lemma ReturnedCall(s: System, c: Caller)
    requires c in s.threads && c in s.begun
    ensures Returned(s, c).caller == c && Returned(s, c).begun == s.begun[c] && Returned(s, c).op == OpOf(s.threads[c])
  {
  }

  /** In every interleaving the calls that have returned, in the order they returned, are a sequential execution,
      and between writers the shared state is the one it leaves. Calls never change place, and each is what its
      caller began: at a step before which exactly the calls in front of index `begun` had returned. So a call
      that had returned before another began stands before it. */
  lemma Linearizable(run: seq<System>, i: nat, j: nat)
    requires IsRun(run) && i <= j < |run|
    ensures Sequential(run[j].trace) && run[i].trace <= run[j].trace
    ensures run[j].writer.None? ==> run[j].shared == After(run[j].trace)
    ensures forall k :: 0 <= k < |run[j].trace| ==>
              var call := run[j].trace[k];
              call.begun <= k && BegunBefore(run, j, call.caller, call.op, call.begun)
  {
    RunInv(run, j);
    TraceGrows(run, i, j);
    forall k | 0 <= k < |run[j].trace|
      ensures run[j].trace[k].begun <= k
      ensures BegunBefore(run, j, run[j].trace[k].caller, run[j].trace[k].op, run[j].trace[k].begun)
    {
      CallsWereBegun(run, j, k);
    }
  }

  lemma {:induction false} TraceGrows(run: seq<System>, i: nat, j: nat)
    requires IsRun(run) && i <= j < |run|
    ensures run[i].trace <= run[j].trace
  {
    hide Inv, Next, Init, Enabled, Do, DecodeCommand, RestoreBytes, ApplyEntry;
    if i < j {
      TraceGrows(run, i, j - 1);
      RunInv(run, j - 1);
      assert Next(run[j - 1], run[j - 1 + 1]);
      NextKeepsInv(run[j - 1], run[j]);
    }
  }

  /** No call gets stuck in its loop: as long as entries remain, the next one can be visited. */
  lemma LoopsCanFinish(run: seq<System>, i: nat, c: Caller)
    requires IsRun(run) && i < |run| && c in run[i].threads && Reads(run[i].threads[c])
    ensures Enabled(run[i], Return(c)) || exists k :: Enabled(run[i], Iterate(c, k))
  {
    RunInv(run, i);
    var s := run[i];
    var t := s.threads[c];
    assert c in s.readers;
    if !Enabled(s, Return(c)) {
      var k :| k in (if t.ListLoop? || t.PeersLoop? then t.todo else if t.todo != {} then t.todo else t.peersTodo);
      assert Enabled(s, Iterate(c, k));
    }
  }

  /** A writer can go on or return. */
  lemma WritersCanFinish(run: seq<System>, i: nat, c: Caller)
    requires IsRun(run) && i < |run| && c in run[i].threads && Writes(run[i].threads[c])
    ensures Enabled(run[i], Return(c)) || Enabled(run[i], Assign(c))
  {
    hide DecodeCommand, RestoreBytes;
    RunInv(run, i);
    assert run[i].writer == Some(c);
  }

  /** A caller gets the lock exactly when nobody writes and, if it wants to write itself, nobody reads. */
  lemma LockIff(run: seq<System>, i: nat, c: Caller)
    requires IsRun(run) && i < |run| && c in run[i].threads && run[i].threads[c].Waiting?
    ensures var s := run[i]; var op := s.threads[c].op;
            Enabled(s, Lock(c)) <==>
              && (forall d :: d in s.threads ==> !Writes(s.threads[d]))
              && (op.Apply? || op.Restore? ==> forall d :: d in s.threads ==> !Reads(s.threads[d]))
  {
    hide DecodeCommand, RestoreBytes, ReaderInv, WriterInv, Sequential;
    RunInv(run, i);
    var s := run[i];
    if s.writer.Some? {
      assert Writes(s.threads[s.writer.value]);
    }
    if s.readers != {} {
      var d :| d in s.readers;
      assert Reads(s.threads[d]);
    }
  }

  // ----- The sequential FSM is the object ----------------------------------------------------------

  predicate Updates(op: Op) {
    op.Apply? || op.Restore?
  }

  /** An update that has the FSM to itself answers and does what the sequential FSM says. */
  method UpdateAlone(f: FSM, op: Op) returns (a: Answer)
    requires Updates(op)
    modifies f.Repr()
    ensures f.View() == Effect(old(f.View()), op) && Answers(old(f.View()), op, a)
  {
    hide DecodeCommand, RestoreBytes, ApplyEntry, Texts;
    if op.Apply? {
      var log := Allocate(op.entry);
      var r := f.Apply(log);
      a := if r.Ok? then Done else Rejected;
      if r.Err? {
        UndecodedApply(old(f.View()), op.entry);
      }
    } else {
      var r := f.Restore(op.stream);
      a := if r.Ok? then Done else Rejected;
    }
  }

  lemma UndecodedApply(s: State, entry: Bytes)
    requires DecodeCommand(entry).Err?
    ensures ApplyEntry(s, entry) == s
  {
    hide DecodeCommand;
  }

  /** A read answers what the sequential FSM says, and has no effect there. */
  method ReadAlone(f: FSM, op: Op) returns (a: Answer)
    requires !Updates(op)
    ensures Answers(f.View(), op, a) && Effect(f.View(), op) == f.View()
  {
    hide DecodeCommand, RestoreBytes, ApplyEntry;
    match op
    case Get(key) =>
      var v := f.Get(key);
      a := Found(if v.Some? then Some(v.value[..]) else None);
    case List(prefix) =>
      var out := f.List(prefix);
      a := Listed(map k | k in out.m :: out.m[k][..]);
      assert a.entries == out.Contents();
    case Peers =>
      var out := f.Peers();
      a := PeerList(out);
    case Len =>
      var n := f.Len();
      a := Count(n);
    case Snapshot =>
      var snap := f.Snapshot();
      a := Copied(State(map k | k in snap.data.m :: snap.data.m[k][..], snap.peers.m));
      assert a.state == snap.View();
  }
}
