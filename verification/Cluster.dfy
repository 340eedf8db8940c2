/** The cluster as a step system over any number of nodes and any logs.

    What hashicorp/raft does is assumed, not proved, and each assumption is a guard:
    a history grows at its end only; a node learns that an index is committed only when its log agrees
    with the history up to there; what a node knows to be committed is never overwritten; an installed
    snapshot is one that some node of the same history holds and is not behind what was applied; a node whose
    log has lost the entries or the snapshot in front of it does not start.
    Everything else, including which entries are proposed and which uncommitted tails a log carries,
    is left to the steps. */
module Cluster {
  import opened Wrappers
  import opened Utf8
  import opened Machine
  import opened SnapshotCodec

  type NodeId = nat

  /** Only commands reach the FSM. */
  datatype Entry = Command(data: Bytes) | Membership(voters: map<Bytes, Bytes>) | Noop

  function Payloads(log: seq<Entry>): seq<Bytes> {
    if log == [] then [] else
      var last := log[|log| - 1];
      Payloads(log[..|log| - 1]) + if last.Command? then [last.data] else []
  }

  /** The state every replica owes after the first n entries of a history. */
  function StateAt(history: seq<Entry>, n: nat): State
    requires n <= |history|
  {
    Replay(EMPTY, Payloads(history[..n]))
  }

  /** FSM.Apply as raft calls it. */
  function ApplyRaft(s: State, e: Entry): State {
    if e.Command? then ApplyEntry(s, e.data) else s
  }

  // ----- Nodes -----------------------------------------------------------------------------------

  datatype SnapFile = SnapFile(index: nat, bytes: Bytes)

  /** The log store holds entries first+1 to first+|log|; the snapshot store its newest snapshot. */
  datatype Disk = Disk(first: nat, log: seq<Entry>, snap: Option<SnapFile>)

  const BLANK := Disk(0, [], None)

  function SnapIndex(d: Disk): nat {
    if d.snap.Some? then d.snap.value.index else 0
  }

  function LastLog(d: Disk): nat {
    d.first + |d.log|
  }

  /** No hole between the snapshot (or the beginning) and the log. */
  predicate Contiguous(d: Disk) {
    d.first <= SnapIndex(d)
  }

  /** Drops the log up to index k. */
  function DropLog(d: Disk, k: nat): Disk
    requires d.first <= k
  {
    if k <= LastLog(d) then d.(first := k, log := d.log[k - d.first..]) else d.(first := k, log := [])
  }

  datatype Pending = Pending(index: nat, view: State)

  /** A running process. */
  datatype Live = Live(applied: nat, commit: nat, fsm: State, pending: Option<Pending>)

  /** mark is the highest index the node knew to be committed, peak the highest it applied, since its
      stores last lost anything; runs counts its starts. durableLog and durableSnap tell which stores
      survive the process. */
  datatype Node = Node(epoch: nat, disk: Disk, live: Option<Live>, mark: nat, peak: nat, runs: nat,
                       durableLog: bool, durableSnap: bool)

  /** A history and the voters it started from. Forced recovery starts a new one. */
  datatype Epoch = Epoch(history: seq<Entry>, born: nat, voters: map<Bytes, Bytes>)

  datatype Cluster = Cluster(epochs: seq<Epoch>, nodes: map<NodeId, Node>)

  function Max(a: nat, b: nat): nat {
    if a < b then b else a
  }

  // ----- What steps do to a node -----------------------------------------------------------------

  /** A leader proposes, or a follower takes entries over: the log from keep on is replaced. */
  function Appended(n: Node, keep: nat, entries: seq<Entry>): Node
    requires n.disk.first <= keep <= LastLog(n.disk)
  {
    n.(disk := n.disk.(log := n.disk.log[..keep - n.disk.first] + entries))
  }

  function Learned(n: Node, k: nat): Node
    requires n.live.Some?
  {
    n.(live := Some(n.live.value.(commit := k)), mark := Max(n.mark, k))
  }

  predicate CanApply(n: Node) {
    n.live.Some? && n.live.value.applied < n.live.value.commit && n.disk.first <= n.live.value.applied < LastLog(n.disk)
  }

  function Applied(n: Node): Node
    requires CanApply(n)
  {
    var live := n.live.value;
    n.(live := Some(live.(applied := live.applied + 1, fsm := ApplyRaft(live.fsm, n.disk.log[live.applied - n.disk.first]))),
       peak := Max(n.peak, live.applied + 1))
  }

  /** FSM.Snapshot: the view is captured at once, and written out later. */
  function Captured(n: Node): Node
    requires n.live.Some?
  {
    n.(live := Some(n.live.value.(pending := Some(Pending(n.live.value.applied, n.live.value.fsm)))))
  }

  /** fsmSnapshot.Persist; a newer snapshot that was installed meanwhile stays the newest. */
  function Persisted(n: Node): Node
    requires n.live.Some? && n.live.value.pending.Some?
  {
    var p := n.live.value.pending.value;
    n.(disk := if p.index < SnapIndex(n.disk) then n.disk else n.disk.(snap := Some(SnapFile(p.index, PersistBytes(p.view)))),
       live := Some(n.live.value.(pending := None)))
  }

  /** InstallSnapshot: the snapshot is stored, FSM.Restore is called, the log is dropped up to some index. */
  function Installed(n: Node, f: SnapFile, drop: nat): Node
    requires n.live.Some? && n.disk.first <= drop <= f.index && RestoreBytes(f.bytes).Ok?
  {
    var d := DropLog(n.disk, if f.index <= LastLog(n.disk) then drop else f.index);
    var live := n.live.value;
    n.(disk := d.(snap := Some(f)), mark := Max(n.mark, f.index), peak := Max(n.peak, f.index),
       live := Some(live.(applied := f.index, commit := Max(live.commit, f.index), fsm := RestoreBytes(f.bytes).value)))
  }

  /** The log store and what was known are gone; the snapshot store is what is given. */
  function Emptied(n: Node, snap: Option<SnapFile>): Node {
    var at := if snap.Some? then snap.value.index else 0;
    n.(disk := Disk(at, [], snap), mark := at, peak := at)
  }

  /** The process is gone: what was in memory is lost. A log without entries does not remember where it was. */
  function Stopped(n: Node): Node {
    var snap := if n.durableSnap then n.disk.snap else None;
    if n.durableLog && n.disk.log != [] then n.(live := None, disk := n.disk.(snap := snap)) else Emptied(n.(live := None), snap)
  }

  /** raft.NewRaft on existing stores: the newest snapshot is restored into the fresh FSM, and every entry after it
      must be there. */
  function Started(n: Node): Option<Node> {
    if n.disk.log != [] && !Contiguous(n.disk) then None
    else match n.disk.snap
    case None => Some(n.(live := Some(Live(0, 0, EMPTY, None)), runs := n.runs + 1))
    case Some(f) =>
      match RestoreBytes(f.bytes)
      case Err(_) => None
      case Ok(s) => Some(n.(live := Some(Live(f.index, f.index, s, None)), runs := n.runs + 1))
  }

  // ----- Forced recovery -------------------------------------------------------------------------

  /** The entries of the log after the snapshot, up to an index. */
  function Suffix(d: Disk, bound: nat): seq<Entry>
    requires Contiguous(d) && SnapIndex(d) <= bound <= LastLog(d)
  {
    d.log[SnapIndex(d) - d.first..bound - d.first]
  }

  /** What a fresh FSM holds after the newest snapshot and those entries. */
  function Rebuilt(d: Disk, bound: nat): Result<State, string>
    requires Contiguous(d) && SnapIndex(d) <= bound <= LastLog(d)
  {
    var base := if d.snap.Some? then RestoreBytes(d.snap.value.bytes) else Ok(EMPTY);
    match base
    case Err(e) => Err(e)
    case Ok(s) => Ok(Replay(s, Payloads(Suffix(d, bound))))
  }

  /** The stores after recovery: one snapshot of everything held, and no log. */
  function RecoveredDisk(s: State, bound: nat): Disk {
    Disk(bound, [], Some(SnapFile(bound, PersistBytes(s))))
  }

  /** RecoverClusterSingle and the end of its process: a snapshot store in memory does not outlive it. */
  function Recovered(n: Node, bound: nat, epoch: nat): Node
    requires Contiguous(n.disk) && SnapIndex(n.disk) <= bound <= LastLog(n.disk) && Rebuilt(n.disk, bound).Ok?
  {
    var d := RecoveredDisk(Rebuilt(n.disk, bound).value, bound);
    if n.durableSnap then n.(epoch := epoch, disk := d, mark := bound, peak := bound)
    else Emptied(n.(epoch := epoch), None)
  }

  // ----- Steps -----------------------------------------------------------------------------------

  datatype Step =
    | Commit(epoch: nat, entry: Entry)                     // raft decides the next entry of a history
    | Append(n: NodeId, keep: nat, entries: seq<Entry>)    // a leader proposes, a follower takes entries over
    | Learn(n: NodeId, k: nat)                             // a node hears that index k is committed
    | ApplyNext(n: NodeId)
    | TakeSnapshot(n: NodeId)                              // FSM.Snapshot
    | PersistSnapshot(n: NodeId)                           // fsmSnapshot.Persist, any number of steps later
    | Truncate(n: NodeId, k: nat)
    | Crash(n: NodeId)
    | Restart(n: NodeId)
    | Install(n: NodeId, from: NodeId, drop: nat)          // InstallSnapshot calls FSM.Restore
    | Reset(n: NodeId, snapsInside: bool)
    | Adopt(n: NodeId, epoch: nat)                         // a blank node joins a history
    | Recover(n: NodeId, bound: nat, id: Bytes, addr: Bytes)

  predicate Known(c: Cluster, n: NodeId) {
    n in c.nodes && c.nodes[n].epoch < |c.epochs|
  }

  function HistoryOf(c: Cluster, n: NodeId): seq<Entry>
    requires Known(c, n)
  {
    c.epochs[c.nodes[n].epoch].history
  }

  /** Do the held entries with indices in (lo, hi] equal those of the history? */
  predicate AgreeOn(d: Disk, history: seq<Entry>, lo: nat, hi: nat) {
    forall i :: lo <= i < hi && d.first <= i < LastLog(d) && i < |history| ==> history[i] == d.log[i - d.first]
  }

  predicate Enabled(c: Cluster, step: Step) {
    match step
    case Commit(epoch, _) => epoch < |c.epochs|
    case Append(n, keep, _) =>
      && Known(c, n) && c.nodes[n].live.Some?
      && c.nodes[n].mark <= keep && c.nodes[n].disk.first <= keep <= LastLog(c.nodes[n].disk)
    case Learn(n, k) =>
      && Known(c, n) && c.nodes[n].live.Some?
      && c.nodes[n].live.value.commit < k <= |HistoryOf(c, n)|
      && k <= LastLog(c.nodes[n].disk)
      && AgreeOn(c.nodes[n].disk, HistoryOf(c, n), 0, k)
    case ApplyNext(n) => Known(c, n) && CanApply(c.nodes[n])
    case TakeSnapshot(n) => Known(c, n) && c.nodes[n].live.Some?
    case PersistSnapshot(n) => Known(c, n) && c.nodes[n].live.Some? && c.nodes[n].live.value.pending.Some?
    case Truncate(n, k) =>
      Known(c, n) && c.nodes[n].live.Some? && c.nodes[n].disk.first <= k <= SnapIndex(c.nodes[n].disk) && k <= LastLog(c.nodes[n].disk)
    case Crash(n) => Known(c, n) && c.nodes[n].live.Some?
    case Restart(n) => Known(c, n) && c.nodes[n].live.None? && Started(c.nodes[n]).Some?
    case Install(n, from, drop) =>
      && Known(c, n) && Known(c, from) && c.nodes[n].live.Some? && c.nodes[n].epoch == c.nodes[from].epoch
      && c.nodes[from].disk.snap.Some?
      && var f := c.nodes[from].disk.snap.value;
         && RestoreBytes(f.bytes).Ok?
         && c.nodes[n].live.value.applied <= f.index
         && c.nodes[n].disk.first <= drop <= f.index
         && (f.index <= LastLog(c.nodes[n].disk) ==> AgreeOn(c.nodes[n].disk, HistoryOf(c, n), drop, f.index))
    case Reset(n, _) => Known(c, n) && c.nodes[n].live.None?
    case Adopt(n, epoch) =>
      Known(c, n) && epoch < |c.epochs| && c.nodes[n].live.None? && c.nodes[n].disk == BLANK && c.nodes[n].mark == 0
    case Recover(n, bound, _, _) =>
      && Known(c, n) && c.nodes[n].live.None?
      && var d := c.nodes[n].disk;
         && Contiguous(d) && SnapIndex(d) <= |HistoryOf(c, n)|
         && c.nodes[n].peak <= bound && SnapIndex(d) <= bound <= LastLog(d)
         && Rebuilt(d, bound).Ok?
  }

  /** The history a recovered node starts: what it held, up to the bound. */
  function HeldHistory(c: Cluster, n: NodeId, bound: nat): seq<Entry>
    requires Known(c, n) && Contiguous(c.nodes[n].disk) && SnapIndex(c.nodes[n].disk) <= |HistoryOf(c, n)|
    requires SnapIndex(c.nodes[n].disk) <= bound <= LastLog(c.nodes[n].disk)
  {
    HistoryOf(c, n)[..SnapIndex(c.nodes[n].disk)] + Suffix(c.nodes[n].disk, bound)
  }

  function Put(c: Cluster, n: NodeId, node: Node): Cluster {
    c.(nodes := c.nodes[n := node])
  }

  function Do(c: Cluster, step: Step): Cluster
    requires Enabled(c, step)
  {
    match step
    case Commit(epoch, entry) =>
      var e := c.epochs[epoch];
      c.(epochs := c.epochs[epoch := e.(history := e.history + [entry])])
    case Append(n, keep, entries) => Put(c, n, Appended(c.nodes[n], keep, entries))
    case Learn(n, k) => Put(c, n, Learned(c.nodes[n], k))
    case ApplyNext(n) => Put(c, n, Applied(c.nodes[n]))
    case TakeSnapshot(n) => Put(c, n, Captured(c.nodes[n]))
    case PersistSnapshot(n) => Put(c, n, Persisted(c.nodes[n]))
    case Truncate(n, k) => Put(c, n, c.nodes[n].(disk := DropLog(c.nodes[n].disk, k)))
    case Crash(n) => Put(c, n, Stopped(c.nodes[n]))
    case Restart(n) => Put(c, n, Started(c.nodes[n]).value)
    case Install(n, from, drop) => Put(c, n, Installed(c.nodes[n], c.nodes[from].disk.snap.value, drop))
    case Reset(n, snapsInside) => Put(c, n, Emptied(c.nodes[n], if snapsInside then None else c.nodes[n].disk.snap))
    case Adopt(n, epoch) => Put(c, n, c.nodes[n].(epoch := epoch))
    case Recover(n, bound, id, addr) =>
      var epoch := Epoch(HeldHistory(c, n, bound), bound, map[id := addr]);
      c.(epochs := c.epochs + [epoch], nodes := c.nodes[n := Recovered(c.nodes[n], bound, |c.epochs|)])
  }

  // ----- The invariant ---------------------------------------------------------------------------

  ghost predicate SnapInv(history: seq<Entry>, f: SnapFile) {
    f.index <= |history| && f.bytes == PersistBytes(StateAt(history, f.index))
  }

  ghost predicate LiveInv(history: seq<Entry>, live: Live) {
    && live.applied <= live.commit <= |history|
    && live.fsm == StateAt(history, live.applied)
    && (live.pending.Some? ==> live.pending.value.index <= live.applied && live.pending.value.view == StateAt(history, live.pending.value.index))
  }

  /** The log agrees with the history as far as the node knows it to be committed, and reaches that far. */
  ghost predicate LogInv(history: seq<Entry>, n: Node) {
    && SnapIndex(n.disk) <= n.peak <= n.mark <= |history| && n.mark <= LastLog(n.disk)
    && AgreeOn(n.disk, history, 0, n.mark)
    && (n.live.Some? ==> SnapIndex(n.disk) <= n.live.value.applied <= n.peak && n.live.value.commit <= n.mark)
  }

  ghost predicate NodeInv(history: seq<Entry>, n: Node) {
    && LogInv(history, n)
    && (n.disk.snap.Some? ==> SnapInv(history, n.disk.snap.value))
    && (n.live.Some? ==> LiveInv(history, n.live.value))
  }

  ghost predicate Inv(c: Cluster) {
    forall n :: n in c.nodes ==> Known(c, n) && NodeInv(HistoryOf(c, n), c.nodes[n])
  }

  // ----- States along a history ------------------------------------------------------------------

  lemma {:induction false} PayloadsAppend(a: seq<Entry>, b: seq<Entry>)
    ensures Payloads(a + b) == Payloads(a) + Payloads(b)
  {
    if b == [] {
      assert a + b == a;
    } else {
      PayloadsAppend(a, b[..|b| - 1]);
      assert (a + b)[..|a + b| - 1] == a + b[..|b| - 1];
    }
  }

  lemma StateAtStep(history: seq<Entry>, n: nat)
    requires n < |history|
    ensures StateAt(history, n + 1) == ApplyRaft(StateAt(history, n), history[n])
  {
    var p := history[..n + 1];
    assert p[..|p| - 1] == history[..n] && p[|p| - 1] == history[n];
    var a := Payloads(history[..n]);
    if history[n].Command? {
      ReplayAppend(EMPTY, a, [history[n].data]);
      ReplayOne(StateAt(history, n), history[n].data);
    } else {
      assert a + [] == a;
    }
  }

  lemma ReplayOne(s: State, entry: Bytes)
    ensures Replay(s, [entry]) == ApplyEntry(s, entry)
  {
    assert [entry][..0] == [];
  }

  lemma StateAtPrefix(h: seq<Entry>, h': seq<Entry>, n: nat)
    requires n <= |h| && n <= |h'| && h[..n] == h'[..n]
    ensures StateAt(h, n) == StateAt(h', n)
  {
  }

  /** Replaying what follows an index takes the state from there to the end. */
  lemma StateAtJoin(a: seq<Entry>, b: seq<Entry>)
    ensures StateAt(a + b, |a + b|) == Replay(StateAt(a, |a|), Payloads(b))
  {
    assert (a + b)[..|a + b|] == a + b && a[..|a|] == a;
    PayloadsAppend(a, b);
    ReplayAppend(EMPTY, Payloads(a), Payloads(b));
  }

  /** Snapshots of replicas are never refused. */
  lemma SnapRestores(history: seq<Entry>, f: SnapFile)
    requires SnapInv(history, f)
    ensures RestoreBytes(f.bytes) == Ok(StateAt(history, f.index))
  {
    ReachableSnapshotsRestore(Payloads(history[..f.index]));
  }

  // ----- The invariant, step by step -------------------------------------------------------------

  lemma HistoryGrows(h: seq<Entry>, h': seq<Entry>, n: Node)
    requires h <= h' && NodeInv(h, n)
    ensures NodeInv(h', n)
  {
    forall k: nat | k <= |h| ensures StateAt(h', k) == StateAt(h, k) {
      assert h[..k] == h'[..k];
    }
  }

  lemma AppendKeeps(h: seq<Entry>, n: Node, keep: nat, entries: seq<Entry>)
    requires NodeInv(h, n) && n.mark <= keep && n.disk.first <= keep <= LastLog(n.disk)
    ensures NodeInv(h, Appended(n, keep, entries))
  {
  }

  lemma LearnKeeps(h: seq<Entry>, n: Node, k: nat)
    requires NodeInv(h, n) && n.live.Some? && n.live.value.commit < k <= |h| && k <= LastLog(n.disk)
    requires AgreeOn(n.disk, h, 0, k)
    ensures NodeInv(h, Learned(n, k))
  {
  }

  lemma ApplyKeepsLog(h: seq<Entry>, n: Node)
    requires LogInv(h, n) && CanApply(n)
    ensures LogInv(h, Applied(n)) && h[n.live.value.applied] == n.disk.log[n.live.value.applied - n.disk.first]
  {
  }

  lemma ApplyKeepsLive(h: seq<Entry>, live: Live, s: State)
    requires LiveInv(h, live) && live.applied < live.commit && s == ApplyRaft(live.fsm, h[live.applied])
    ensures LiveInv(h, live.(applied := live.applied + 1, fsm := s))
  {
    StateAtStep(h, live.applied);
  }

  lemma ApplyKeeps(h: seq<Entry>, n: Node)
    requires NodeInv(h, n) && CanApply(n)
    ensures NodeInv(h, Applied(n))
  {
    ApplyKeepsLog(h, n);
    var live := n.live.value;
    ApplyKeepsLive(h, live, ApplyRaft(live.fsm, h[live.applied]));
  }

  lemma DropKeepsAgreement(d: Disk, h: seq<Entry>, k: nat, lo: nat, hi: nat)
    requires AgreeOn(d, h, lo, hi) && d.first <= k
    ensures AgreeOn(DropLog(d, k), h, lo, hi)
    ensures LastLog(DropLog(d, k)) == Max(k, LastLog(d)) && DropLog(d, k).first == k && DropLog(d, k).snap == d.snap
  {
  }

  lemma TruncateKeeps(h: seq<Entry>, n: Node, k: nat)
    requires NodeInv(h, n) && n.disk.first <= k <= LastLog(n.disk)
    ensures NodeInv(h, n.(disk := DropLog(n.disk, k)))
  {
    DropKeepsAgreement(n.disk, h, k, 0, n.mark);
  }

  /** What is left of the log after an install agrees up to the snapshot and up to the old mark. */
  lemma InstallAgrees(h: seq<Entry>, d: Disk, mark: nat, index: nat, drop: nat)
    requires AgreeOn(d, h, 0, mark) && mark <= LastLog(d) && d.first <= drop <= index
    requires index <= LastLog(d) ==> AgreeOn(d, h, drop, index)
    ensures var d' := DropLog(d, if index <= LastLog(d) then drop else index);
            AgreeOn(d', h, 0, Max(mark, index)) && Max(mark, index) <= LastLog(d')
  {
    var k := if index <= LastLog(d) then drop else index;
    DropKeepsAgreement(d, h, k, 0, mark);
    if index <= LastLog(d) {
      DropKeepsAgreement(d, h, k, drop, index);
    }
  }

  lemma InstallKeepsLog(h: seq<Entry>, n: Node, f: SnapFile, drop: nat)
    requires LogInv(h, n) && n.live.Some? && f.index <= |h| && RestoreBytes(f.bytes).Ok?
    requires n.live.value.applied <= f.index && n.disk.first <= drop <= f.index
    requires f.index <= LastLog(n.disk) ==> AgreeOn(n.disk, h, drop, f.index)
    ensures LogInv(h, Installed(n, f, drop))
  {
    InstallAgrees(h, n.disk, n.mark, f.index, drop);
  }

  lemma InstallKeepsLive(h: seq<Entry>, live: Live, k: nat, s: State)
    requires LiveInv(h, live) && live.applied <= k <= |h| && s == StateAt(h, k)
    ensures LiveInv(h, live.(applied := k, commit := Max(live.commit, k), fsm := s))
  {
  }

  lemma InstallKeeps(h: seq<Entry>, n: Node, f: SnapFile, drop: nat)
    requires NodeInv(h, n) && n.live.Some? && SnapInv(h, f) && RestoreBytes(f.bytes).Ok?
    requires n.live.value.applied <= f.index && n.disk.first <= drop <= f.index
    requires f.index <= LastLog(n.disk) ==> AgreeOn(n.disk, h, drop, f.index)
    ensures NodeInv(h, Installed(n, f, drop))
  {
    SnapRestores(h, f);
    InstallKeepsLog(h, n, f, drop);
    InstallKeepsLive(h, n.live.value, f.index, RestoreBytes(f.bytes).value);
  }

  lemma PersistKeepsLog(h: seq<Entry>, n: Node)
    requires LogInv(h, n) && n.live.Some? && n.live.value.pending.Some? && n.live.value.pending.value.index <= n.live.value.applied
    ensures LogInv(h, Persisted(n))
  {
  }

  lemma PersistKeeps(h: seq<Entry>, n: Node)
    requires NodeInv(h, n) && n.live.Some? && n.live.value.pending.Some?
    ensures NodeInv(h, Persisted(n))
  {
    PersistKeepsLog(h, n);
    PendingIsSnap(h, n.live.value);
  }

  lemma PendingIsSnap(h: seq<Entry>, live: Live)
    requires LiveInv(h, live) && live.pending.Some?
    ensures SnapInv(h, SnapFile(live.pending.value.index, PersistBytes(live.pending.value.view)))
  {
  }

  lemma EmptiedKeeps(h: seq<Entry>, n: Node, snap: Option<SnapFile>)
    requires n.live.None? && (snap.Some? ==> SnapInv(h, snap.value))
    ensures NodeInv(h, Emptied(n, snap))
  {
  }

  lemma StopKeepsLog(h: seq<Entry>, n: Node)
    requires LogInv(h, n) && n.durableLog && n.disk.log != []
    ensures LogInv(h, Stopped(n))
  {
  }

  lemma StopKeeps(h: seq<Entry>, n: Node)
    requires NodeInv(h, n)
    ensures NodeInv(h, Stopped(n))
  {
    if n.durableLog && n.disk.log != [] {
      StopKeepsLog(h, n);
    } else {
      EmptiedKeeps(h, n.(live := None), if n.durableSnap then n.disk.snap else None);
    }
  }

  lemma StartKeeps(h: seq<Entry>, n: Node)
    requires NodeInv(h, n) && n.live.None?
    ensures Started(n).Some? <==> n.disk.log == [] || Contiguous(n.disk)
    ensures Started(n).Some? ==> NodeInv(h, Started(n).value)
  {
    if n.disk.snap.Some? {
      SnapRestores(h, n.disk.snap.value);
    }
    assert StateAt(h, 0) == EMPTY;
  }

  /** What recovery rebuilds is the fold of what the node held. */
  lemma RebuiltIsHeld(h: seq<Entry>, n: Node, bound: nat)
    requires NodeInv(h, n) && Contiguous(n.disk) && SnapIndex(n.disk) <= bound <= LastLog(n.disk)
    ensures var held := h[..SnapIndex(n.disk)] + Suffix(n.disk, bound);
            |held| == bound && Rebuilt(n.disk, bound) == Ok(StateAt(held, bound))
  {
    var at := SnapIndex(n.disk);
    var a, b := h[..at], Suffix(n.disk, bound);
    StateAtJoin(a, b);
    if n.disk.snap.Some? {
      SnapRestores(h, n.disk.snap.value);
      StateAtPrefix(h, a, at);
    } else {
      assert StateAt(a, 0) == EMPTY;
    }
  }

  /** The applied entries come first in what the node held. */
  lemma HeldKeepsApplied(h: seq<Entry>, d: Disk, mark: nat, peak: nat, bound: nat)
    requires AgreeOn(d, h, 0, mark) && peak <= mark <= |h| && SnapIndex(d) <= |h|
    requires Contiguous(d) && SnapIndex(d) <= bound <= LastLog(d) && peak <= bound
    ensures h[..peak] <= h[..SnapIndex(d)] + Suffix(d, bound)
  {
    var at := SnapIndex(d);
    PrefixOfJoin(h, at, Suffix(d, bound), peak);
  }

  lemma PrefixOfJoin<T>(h: seq<T>, at: nat, tail: seq<T>, n: nat)
    requires at <= |h| && n <= |h| && n <= at + |tail|
    requires forall i :: at <= i < n ==> h[i] == tail[i - at]
    ensures h[..n] <= h[..at] + tail
  {
  }

  lemma RecoverKeeps(h: seq<Entry>, n: Node, bound: nat, epoch: nat)
    requires NodeInv(h, n) && n.live.None? && Contiguous(n.disk) && SnapIndex(n.disk) <= bound <= LastLog(n.disk)
    requires Rebuilt(n.disk, bound).Ok?
    ensures NodeInv(h[..SnapIndex(n.disk)] + Suffix(n.disk, bound), Recovered(n, bound, epoch))
  {
    RebuiltIsHeld(h, n, bound);
    if !n.durableSnap {
      EmptiedKeeps(h[..SnapIndex(n.disk)] + Suffix(n.disk, bound), n.(epoch := epoch), None);
    }
  }

  /** Replacing one node by another of the same history is all that most steps do. */
  lemma PutKeeps(c: Cluster, n: NodeId, node: Node)
    requires Inv(c) && Known(c, n) && node.epoch < |c.epochs| && NodeInv(c.epochs[node.epoch].history, node)
    ensures Inv(Put(c, n, node))
  {
    var c' := Put(c, n, node);
    forall m | m in c'.nodes ensures Known(c', m) && NodeInv(HistoryOf(c', m), c'.nodes[m]) {
      assert m != n ==> Known(c, m) && HistoryOf(c, m) == HistoryOf(c', m) && c'.nodes[m] == c.nodes[m];
    }
  }

  lemma CommitKeepsInv(c: Cluster, epoch: nat, entry: Entry)
    requires Inv(c) && epoch < |c.epochs|
    ensures Inv(Do(c, Commit(epoch, entry)))
  {
    var c' := Do(c, Commit(epoch, entry));
    forall n | n in c'.nodes ensures Known(c', n) && NodeInv(HistoryOf(c', n), c'.nodes[n]) {
      assert Known(c, n);
      HistoryGrows(HistoryOf(c, n), HistoryOf(c', n), c.nodes[n]);
    }
  }

  lemma RecoverKeepsInv(c: Cluster, n: NodeId, bound: nat, id: Bytes, addr: Bytes)
    requires Inv(c) && Enabled(c, Recover(n, bound, id, addr))
    ensures Inv(Do(c, Recover(n, bound, id, addr)))
  {
    var c' := Do(c, Recover(n, bound, id, addr));
    RecoverKeeps(HistoryOf(c, n), c.nodes[n], bound, |c.epochs|);
    forall m | m in c'.nodes ensures Known(c', m) && NodeInv(HistoryOf(c', m), c'.nodes[m]) {
      assert Known(c, m);
      assert m != n ==> HistoryOf(c, m) == HistoryOf(c', m) && c'.nodes[m] == c.nodes[m];
    }
  }

  lemma StoppedStepKeepsInv(c: Cluster, step: Step)
    requires Inv(c) && Enabled(c, step) && (step.Restart? || step.Reset? || step.Adopt?)
    ensures Inv(Do(c, step))
  {
    match step
    case Restart(n) =>
      StartKeeps(HistoryOf(c, n), c.nodes[n]);
      PutKeeps(c, n, Started(c.nodes[n]).value);
    case Reset(n, snapsInside) =>
      var snap := if snapsInside then None else c.nodes[n].disk.snap;
      EmptiedKeeps(HistoryOf(c, n), c.nodes[n], snap);
      PutKeeps(c, n, Emptied(c.nodes[n], snap));
    case Adopt(n, epoch) =>
      EmptiedKeeps(c.epochs[epoch].history, c.nodes[n].(epoch := epoch), None);
      PutKeeps(c, n, c.nodes[n].(epoch := epoch));
  }

  lemma SnapshotStepKeepsInv(c: Cluster, step: Step)
    requires Inv(c) && Enabled(c, step) && (step.TakeSnapshot? || step.PersistSnapshot? || step.Truncate? || step.Install?)
    ensures Inv(Do(c, step))
  {
    match step
    case TakeSnapshot(n) =>
      PutKeeps(c, n, Captured(c.nodes[n]));
    case PersistSnapshot(n) =>
      PersistKeeps(HistoryOf(c, n), c.nodes[n]);
      PutKeeps(c, n, Persisted(c.nodes[n]));
    case Truncate(n, k) =>
      TruncateKeeps(HistoryOf(c, n), c.nodes[n], k);
      PutKeeps(c, n, c.nodes[n].(disk := DropLog(c.nodes[n].disk, k)));
    case Install(n, from, drop) =>
      InstallKeeps(HistoryOf(c, n), c.nodes[n], c.nodes[from].disk.snap.value, drop);
      PutKeeps(c, n, Installed(c.nodes[n], c.nodes[from].disk.snap.value, drop));
  }

  lemma StepKeepsInv(c: Cluster, step: Step)
    requires Inv(c) && Enabled(c, step)
    ensures Inv(Do(c, step))
  {
    match step
    case Commit(epoch, entry) => CommitKeepsInv(c, epoch, entry);
    case Recover(n, bound, id, addr) => RecoverKeepsInv(c, n, bound, id, addr);
    case Append(n, keep, entries) =>
      AppendKeeps(HistoryOf(c, n), c.nodes[n], keep, entries);
      PutKeeps(c, n, Appended(c.nodes[n], keep, entries));
    case Learn(n, k) =>
      LearnKeeps(HistoryOf(c, n), c.nodes[n], k);
      PutKeeps(c, n, Learned(c.nodes[n], k));
    case ApplyNext(n) =>
      ApplyKeeps(HistoryOf(c, n), c.nodes[n]);
      PutKeeps(c, n, Applied(c.nodes[n]));
    case Crash(n) =>
      StopKeeps(HistoryOf(c, n), c.nodes[n]);
      PutKeeps(c, n, Stopped(c.nodes[n]));
    case Restart(_) => StoppedStepKeepsInv(c, step);
    case Reset(_, _) => StoppedStepKeepsInv(c, step);
    case Adopt(_, _) => StoppedStepKeepsInv(c, step);
    case TakeSnapshot(_) => SnapshotStepKeepsInv(c, step);
    case PersistSnapshot(_) => SnapshotStepKeepsInv(c, step);
    case Truncate(_, _) => SnapshotStepKeepsInv(c, step);
    case Install(_, _, _) => SnapshotStepKeepsInv(c, step);
  }
}
