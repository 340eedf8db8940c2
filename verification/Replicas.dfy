/** What holds in every state the cluster can reach, and along every run. */
module Replicas {
  import opened Wrappers
  import opened Utf8
  import opened Codec
  import opened Machine
  import opened SnapshotCodec
  import opened Cluster

  // ----- Runs ------------------------------------------------------------------------------------

  /** Blank nodes around one empty history. */
  ghost predicate Init(c: Cluster) {
    && |c.epochs| == 1 && c.epochs[0].history == [] && c.epochs[0].born == 0
    && forall n :: n in c.nodes ==>
         var x := c.nodes[n];
         x.epoch == 0 && x.disk == BLANK && x.live.None? && x.mark == x.peak == x.runs == 0
  }

  ghost predicate Next(c: Cluster, c': Cluster) {
    exists step :: Enabled(c, step) && Do(c, step) == c'
  }

  /** Consecutive states of a run, of any length, from any state. */
  ghost predicate IsRun(run: seq<Cluster>) {
    run != [] && forall i :: 0 <= i < |run| - 1 ==> Next(run[i], run[i + 1])
  }

  ghost predicate Reachable(c: Cluster) {
    exists run :: IsRun(run) && Init(run[0]) && run[|run| - 1] == c
  }

  lemma InitInv(c: Cluster)
    requires Init(c)
    ensures Inv(c)
  {
    forall n | n in c.nodes ensures Known(c, n) && NodeInv(HistoryOf(c, n), c.nodes[n]) {
      EmptiedKeeps(HistoryOf(c, n), c.nodes[n], None);
    }
  }

  lemma NextKeepsInv(c: Cluster, c': Cluster)
    requires Inv(c) && Next(c, c')
    ensures Inv(c')
  {
    var step :| Enabled(c, step) && Do(c, step) == c';
    StepKeepsInv(c, step);
  }

  lemma {:induction false} RunKeepsInv(run: seq<Cluster>, i: nat)
    requires IsRun(run) && Inv(run[0]) && i < |run|
    ensures Inv(run[i])
  {
    if i > 0 {
      RunKeepsInv(run, i - 1);
      assert Next(run[i - 1], run[i - 1 + 1]);
      NextKeepsInv(run[i - 1], run[i]);
    }
  }

  lemma ReachableInv(c: Cluster)
    requires Reachable(c)
    ensures Inv(c)
  {
    var run :| IsRun(run) && Init(run[0]) && run[|run| - 1] == c;
    InitInv(run[0]);
    RunKeepsInv(run, |run| - 1);
  }

  // ----- Replicas are folds of one history -------------------------------------------------------

  /** Through any mix of snapshots, truncations, restarts, wipes, installs and recoveries, a running FSM
      is the fold of its applied prefix, and so is every snapshot it holds. */
  lemma ReplicaIsFold(c: Cluster, n: NodeId)
    requires Reachable(c) && n in c.nodes
    ensures Known(c, n)
    ensures var h, x := HistoryOf(c, n), c.nodes[n];
            && (x.live.Some? ==> x.live.value.applied <= |h| && x.live.value.fsm == StateAt(h, x.live.value.applied))
            && (x.disk.snap.Some? ==>
                  (x.disk.snap.value.index <= |h|
                   && RestoreBytes(x.disk.snap.value.bytes) == Ok(StateAt(h, x.disk.snap.value.index))))
  {
    ReachableInv(c);
    if c.nodes[n].disk.snap.Some? {
      SnapRestores(HistoryOf(c, n), c.nodes[n].disk.snap.value);
    }
  }

  /** Whatever has been applied, keys and peer strings are valid UTF-8 and peers are filed under their own id. */
  lemma ReplicaIsWellFormed(c: Cluster, n: NodeId)
    requires Reachable(c) && n in c.nodes && c.nodes[n].live.Some?
    ensures WellFormed(c.nodes[n].live.value.fsm)
  {
    ReplicaIsFold(c, n);
    ReplayWellFormed(EMPTY, Payloads(HistoryOf(c, n)[..c.nodes[n].live.value.applied]));
  }

  /** Two replicas of one history differ by the entries between their applied indices, hence not at all
      when these are equal. */
  lemma ReplicasAgree(c: Cluster, m: NodeId, n: NodeId)
    requires Reachable(c) && m in c.nodes && n in c.nodes
    requires c.nodes[m].epoch == c.nodes[n].epoch && c.nodes[m].live.Some? && c.nodes[n].live.Some?
    requires c.nodes[m].live.value.applied <= c.nodes[n].live.value.applied
    ensures Known(c, n) && c.nodes[n].live.value.applied <= |HistoryOf(c, n)|
    ensures var a, b := c.nodes[m].live.value, c.nodes[n].live.value;
            && b.fsm == Replay(a.fsm, Payloads(HistoryOf(c, n)[a.applied..b.applied]))
            && (a.applied == b.applied ==> a.fsm == b.fsm)
  {
    ReplicaIsFold(c, m);
    ReplicaIsFold(c, n);
    StateAtSplit(HistoryOf(c, n), c.nodes[m].live.value.applied, c.nodes[n].live.value.applied);
  }

  lemma StateAtSplit(h: seq<Entry>, i: nat, j: nat)
    requires i <= j <= |h|
    ensures StateAt(h, j) == Replay(StateAt(h, i), Payloads(h[i..j]))
  {
    var a, b := h[..i], h[i..j];
    StateAtJoin(a, b);
    assert a + b == h[..j];
    StateAtPrefix(a + b, h, j);
    StateAtPrefix(a, h, i);
  }

  /** An entry that does not decode, or whose operation is unknown, leaves every replica where it was. */
  lemma NoEffectEverywhere(h: seq<Entry>, i: nat)
    requires i < |h| && (h[i].Command? ==> EffectOf(h[i].data) == NoEffect)
    ensures StateAt(h, i + 1) == StateAt(h, i)
  {
    StateAtStep(h, i);
    if h[i].Command? {
      forall t ensures Lookup(ApplyEntry(StateAt(h, i), h[i].data), t) == Lookup(StateAt(h, i), t) {
        ApplySetsOnePlace(StateAt(h, i), h[i].data, t);
      }
      StateIsItsPlaces(ApplyEntry(StateAt(h, i), h[i].data), StateAt(h, i));
    }
  }

  /** Only a stopped node can have a hole in front of its log, and only one that keeps its log on disk and its
      snapshots in memory. */
  predicate Unbroken(x: Node) {
    Contiguous(x.disk) || (x.live.None? && x.durableLog && !x.durableSnap && x.disk.log != [] && x.disk.snap.None?)
  }

  ghost predicate AllUnbroken(c: Cluster) {
    forall n :: n in c.nodes ==> Unbroken(c.nodes[n])
  }

  lemma StepKeepsUnbroken(c: Cluster, step: Step)
    requires AllUnbroken(c) && Enabled(c, step)
    ensures AllUnbroken(Do(c, step))
  {
    hide RestoreBytes, PersistBytes, Rebuilt, HeldHistory, AgreeOn;
    var c' := Do(c, step);
    forall n | n in c'.nodes ensures Unbroken(c'.nodes[n]) {
      assert n in c.nodes && Unbroken(c.nodes[n]);
    }
  }

  lemma {:induction false} RunKeepsUnbroken(run: seq<Cluster>, i: nat)
    requires IsRun(run) && AllUnbroken(run[0]) && i < |run|
    ensures AllUnbroken(run[i])
  {
    hide Enabled, Do, AllUnbroken;
    if i > 0 {
      RunKeepsUnbroken(run, i - 1);
      assert Next(run[i - 1], run[i - 1 + 1]);
      var step :| Enabled(run[i - 1], step) && Do(run[i - 1], step) == run[i];
      StepKeepsUnbroken(run[i - 1], step);
    }
  }

  lemma ReachableUnbroken(c: Cluster)
    requires Reachable(c)
    ensures AllUnbroken(c)
  {
    var run :| IsRun(run) && Init(run[0]) && run[|run| - 1] == c;
    RunKeepsUnbroken(run, |run| - 1);
  }

  /** A stopped node starts exactly when there is no hole in front of its log, so always unless its log is on disk and
      its snapshots are in memory. Its snapshot is never what stops it. */
  lemma RestoreNeverFails(c: Cluster, n: NodeId)
    requires Reachable(c) && n in c.nodes
    ensures var x := c.nodes[n];
            && (x.live.None? ==> (Enabled(c, Restart(n)) <==> x.disk.log == [] || Contiguous(x.disk)))
            && (x.live.None? && (x.durableSnap || !x.durableLog) ==> Enabled(c, Restart(n)))
            && (x.disk.snap.Some? ==> RestoreBytes(x.disk.snap.value.bytes).Ok?)
  {
    ReachableInv(c);
    ReachableUnbroken(c);
    ReplicaIsFold(c, n);
    if c.nodes[n].live.None? {
      StartKeeps(HistoryOf(c, n), c.nodes[n]);
    }
  }

  // ----- What single steps give ------------------------------------------------------------------

  /** The end of a process, for each kind of stores: no entry outlives a log in memory and no snapshot one in memory,
      stores on disk are as they were, and no other node notices. */
  lemma CrashLeaves(c: Cluster, n: NodeId)
    requires Reachable(c) && n in c.nodes && c.nodes[n].live.Some?
    ensures Enabled(c, Crash(n))
    ensures var c', x := Do(c, Crash(n)), c.nodes[n];
            var x' := c'.nodes[n];
            && x'.live.None? && x'.epoch == x.epoch && x'.runs == x.runs && c'.epochs == c.epochs
            && x'.durableLog == x.durableLog && x'.durableSnap == x.durableSnap
            && x'.disk.log == (if x.durableLog then x.disk.log else [])
            && x'.disk.snap == (if x.durableSnap then x.disk.snap else None)
            && (x.durableLog && x.disk.log != [] ==> x'.disk.first == x.disk.first)
            && (forall m :: m in c.nodes && m != n ==> m in c'.nodes && c'.nodes[m] == c.nodes[m])
  {
    hide RestoreBytes, PersistBytes, StateAt, Reachable, AgreeOn, Rebuilt, HeldHistory;
    ReachableInv(c);
  }

  /** And the start after it: from the newest snapshot on disk, or from nothing. With both stores in memory a node always
      comes back empty. */
  lemma CrashAndRestart(c: Cluster, n: NodeId)
    requires Reachable(c) && n in c.nodes && c.nodes[n].live.Some?
    ensures Enabled(c, Crash(n)) && Known(c, n)
    ensures var c', x := Do(c, Crash(n)), c.nodes[n];
            && (Enabled(c', Restart(n)) <==> x.durableSnap || !x.durableLog || x.disk.log == [] || x.disk.first == 0)
            && (Enabled(c', Restart(n)) ==>
                  var y := Do(c', Restart(n)).nodes[n];
                  var at := if x.durableSnap then SnapIndex(x.disk) else 0;
                  && y.live.Some? && y.disk == c'.nodes[n].disk && y.runs == x.runs + 1 && y.live.value.pending.None?
                  && y.live.value.applied == at <= |HistoryOf(c, n)| && y.live.value.fsm == StateAt(HistoryOf(c, n), at)
                  && (!x.durableSnap ==> y.live.value.fsm == EMPTY)
                  && (!x.durableLog ==> y.disk.log == []))
  {
    hide RestoreBytes, PersistBytes, StateAt, Reachable, AgreeOn, Rebuilt, HeldHistory;
    ReachableInv(c);
    CrashLeaves(c, n);
    CrashedStarts(c, n);
    var c' := Do(c, Crash(n));
    ReachableStep(c, Crash(n));
    StartsFromSnapshot(c', n);
    NothingApplied(HistoryOf(c, n));
  }

  lemma CrashedStarts(c: Cluster, n: NodeId)
    requires Reachable(c) && n in c.nodes && c.nodes[n].live.Some? && Enabled(c, Crash(n))
    ensures var c', x := Do(c, Crash(n)), c.nodes[n];
            Enabled(c', Restart(n)) <==> x.durableSnap || !x.durableLog || x.disk.log == [] || x.disk.first == 0
  {
    hide RestoreBytes, PersistBytes, StateAt, Reachable, AgreeOn, Rebuilt, HeldHistory;
    ReachableUnbroken(c);
    ReachableStep(c, Crash(n));
    RestoreNeverFails(Do(c, Crash(n)), n);
    assert Unbroken(c.nodes[n]);
  }

  lemma NothingApplied(h: seq<Entry>)
    ensures StateAt(h, 0) == EMPTY
  {
  }

  /** A node that starts is the fold of its snapshot. */
  lemma StartsFromSnapshot(c: Cluster, n: NodeId)
    requires Reachable(c) && n in c.nodes && c.nodes[n].live.None?
    ensures Known(c, n)
    ensures Enabled(c, Restart(n)) ==>
              var x, y := c.nodes[n], Do(c, Restart(n)).nodes[n];
              && y.live.Some? && y.disk == x.disk && y.runs == x.runs + 1 && y.live.value.pending.None?
              && y.live.value.applied == SnapIndex(x.disk) <= |HistoryOf(c, n)|
              && y.live.value.fsm == StateAt(HistoryOf(c, n), SnapIndex(x.disk))
  {
    hide RestoreBytes, PersistBytes, StateAt, Reachable, AgreeOn, Rebuilt, HeldHistory;
    ReachableInv(c);
    NothingApplied(HistoryOf(c, n));
    if c.nodes[n].disk.snap.Some? {
      SnapRestores(HistoryOf(c, n), c.nodes[n].disk.snap.value);
    }
  }

  /** A wipe: no entry is left, no snapshot either when they are kept inside, and the node starts again, empty in that
      case. */
  lemma ResetLeaves(c: Cluster, n: NodeId, inside: bool)
    requires Reachable(c) && n in c.nodes && c.nodes[n].live.None?
    ensures Enabled(c, Reset(n, inside)) && Known(c, n)
    ensures var c', x := Do(c, Reset(n, inside)), c.nodes[n];
            && c'.nodes[n].disk.log == [] && c'.nodes[n].disk.snap == (if inside then None else x.disk.snap)
            && c'.epochs == c.epochs && (forall m :: m in c.nodes && m != n ==> m in c'.nodes && c'.nodes[m] == c.nodes[m])
            && Enabled(c', Restart(n))
            && var y := Do(c', Restart(n)).nodes[n];
               && y.live.Some? && y.live.value.applied == (if inside then 0 else SnapIndex(x.disk))
               && y.live.value.applied <= |HistoryOf(c, n)| && y.live.value.fsm == StateAt(HistoryOf(c, n), y.live.value.applied)
               && (inside ==> y.live.value.fsm == EMPTY)
  {
    hide RestoreBytes, PersistBytes, StateAt, Reachable, AgreeOn, Rebuilt, HeldHistory;
    ReachableInv(c);
    var c' := Do(c, Reset(n, inside));
    ReachableStep(c, Reset(n, inside));
    RestoreNeverFails(c', n);
    StartsFromSnapshot(c', n);
    NothingApplied(HistoryOf(c, n));
  }

  /** One entry: the FSM of the node takes the next entry of the history. */
  lemma ApplyTakesNext(c: Cluster, n: NodeId)
    requires Reachable(c) && Enabled(c, ApplyNext(n))
    ensures var h, x, y := HistoryOf(c, n), c.nodes[n], Do(c, ApplyNext(n)).nodes[n];
            var i := x.live.value.applied;
            && i < |h| && y.live.Some? && y.live.value.applied == i + 1 && y.live.value.fsm == ApplyRaft(x.live.value.fsm, h[i])
            && y.disk == x.disk && y.live.value.pending == x.live.value.pending
  {
    hide RestoreBytes, PersistBytes, StateAt, Reachable, Rebuilt, HeldHistory, ApplyRaft;
    ReachableInv(c);
  }

  /** An installed snapshot: the node is where the other node's snapshot is, holds that snapshot, and keeps only entries
      that agree with the history up to there. */
  lemma InstallCatchesUp(c: Cluster, n: NodeId, from: NodeId, drop: nat)
    requires Reachable(c) && Enabled(c, Install(n, from, drop))
    ensures var h, x, y, f := HistoryOf(c, n), c.nodes[n], Do(c, Install(n, from, drop)).nodes[n], c.nodes[from].disk.snap.value;
            && f.index <= |h| && y.live.Some? && y.live.value.applied == f.index && y.live.value.fsm == StateAt(h, f.index)
            && y.disk.snap == Some(f) && LastLog(y.disk) == (if f.index <= LastLog(x.disk) then LastLog(x.disk) else f.index)
            && AgreeOn(y.disk, h, 0, f.index)
  {
    hide RestoreBytes, PersistBytes, StateAt, Reachable, Rebuilt, HeldHistory;
    ReachableInv(c);
    SnapRestores(HistoryOf(c, from), c.nodes[from].disk.snap.value);
    StepKeepsInv(c, Install(n, from, drop));
  }

  /** A snapshot is of the moment it was taken, however much later it is written, and does not replace a newer one. */
  lemma CapturesNow(c: Cluster, n: NodeId)
    requires Reachable(c) && Enabled(c, TakeSnapshot(n))
    ensures var x, y := c.nodes[n], Do(c, TakeSnapshot(n)).nodes[n];
            && y.live.Some? && y.live.value.pending == Some(Pending(x.live.value.applied, x.live.value.fsm))
            && y.live.value.(pending := None) == x.live.value.(pending := None) && y.disk == x.disk
  {
    ReachableInv(c);
  }

  lemma PersistsCaptured(c: Cluster, n: NodeId)
    requires Reachable(c) && Enabled(c, PersistSnapshot(n))
    ensures var h, x, y := HistoryOf(c, n), c.nodes[n], Do(c, PersistSnapshot(n)).nodes[n];
            var p := x.live.value.pending.value;
            && p.index <= |h| && p.view == StateAt(h, p.index)
            && y.live == Some(x.live.value.(pending := None)) && y.disk.log == x.disk.log && y.disk.first == x.disk.first
            && (p.index < SnapIndex(x.disk) ==> y.disk.snap == x.disk.snap)
            && (p.index >= SnapIndex(x.disk) ==>
                  y.disk.snap.Some? && y.disk.snap.value.index == p.index && RestoreBytes(y.disk.snap.value.bytes) == Ok(p.view))
  {
    hide PersistBytes, RestoreBytes;
    ReachableInv(c);
    var x := c.nodes[n];
    var p := x.live.value.pending.value;
    PendingIsSnap(HistoryOf(c, n), x.live.value);
    SnapRestores(HistoryOf(c, n), SnapFile(p.index, PersistBytes(p.view)));
  }

  /** Truncation takes entries from the front that a snapshot covers, and nothing else. */
  lemma TruncateKeepsRest(c: Cluster, n: NodeId, k: nat)
    requires Reachable(c) && Enabled(c, Truncate(n, k))
    ensures var x, y := c.nodes[n], Do(c, Truncate(n, k)).nodes[n];
            && y.live == x.live && y.disk.snap == x.disk.snap
            && x.disk.first <= k <= SnapIndex(x.disk) && LastLog(y.disk) == LastLog(x.disk)
            && y.disk.first == k && y.disk.log == x.disk.log[k - x.disk.first..]
  {
    ReachableInv(c);
  }

  // ----- Forced recovery -------------------------------------------------------------------------

  /** The voters in force: the last membership entry since the epoch was born, or its first voters. */
  function VotersOf(e: Epoch): map<Bytes, Bytes>
    requires e.born <= |e.history|
  {
    var since := e.history[e.born..];
    var i := LastIndex(since, (x: Entry) => x.Membership?);
    if i.Some? then since[i.value].voters else e.voters
  }

  /** Recovery starts a history that keeps everything the node had applied, is exactly as long as the bound
      and has this node for its only voter; nothing else in the cluster changes. */
  lemma RecoveryKeepsApplied(c: Cluster, n: NodeId, bound: nat, id: Bytes, addr: Bytes)
    requires Reachable(c) && Enabled(c, Recover(n, bound, id, addr))
    ensures var c', x := Do(c, Recover(n, bound, id, addr)), c.nodes[n];
            var e := c'.epochs[|c.epochs|];
            && c'.epochs[..|c.epochs|] == c.epochs && c'.nodes[n].epoch == |c.epochs|
            && x.peak <= |HistoryOf(c, n)| && HistoryOf(c, n)[..x.peak] <= e.history
            && |e.history| == e.born == bound && VotersOf(e) == map[id := addr]
            && (forall m :: m in c.nodes && m != n ==> c'.nodes[m] == c.nodes[m])
  {
    ReachableInv(c);
    var x := c.nodes[n];
    HeldKeepsApplied(HistoryOf(c, n), x.disk, x.mark, x.peak, bound);
  }

  /** The recovered node comes back with that history folded exactly when its snapshot store outlives the
      process that recovered it, or there was nothing to fold: recovery empties the log either way. */
  lemma RecoverySurvivesIff(c: Cluster, n: NodeId, bound: nat, id: Bytes, addr: Bytes)
    requires Reachable(c) && Enabled(c, Recover(n, bound, id, addr))
    ensures var c' := Do(c, Recover(n, bound, id, addr));
            && Enabled(c', Restart(n)) && Known(c', n) && |HistoryOf(c', n)| == bound
            && var live := Do(c', Restart(n)).nodes[n].live.value;
               live.fsm == StateAt(HistoryOf(c', n), bound) <==> c.nodes[n].durableSnap || StateAt(HistoryOf(c', n), bound) == EMPTY
  {
    ReachableInv(c);
    var c' := Do(c, Recover(n, bound, id, addr));
    var x := c.nodes[n];
    RebuiltIsHeld(HistoryOf(c, n), x, bound);
    RecoverKeeps(HistoryOf(c, n), x, bound, |c.epochs|);
    StartKeeps(HistoryOf(c', n), c'.nodes[n]);
    if x.durableSnap {
      SnapRestores(HistoryOf(c', n), c'.nodes[n].disk.snap.value);
    }
  }

  /** Recovering a second time changes nothing: what the first one left on the node can be recovered, at that index
      only, and gives the same stores, history and voter again. Snapshots in memory leave nothing. */
  lemma RecoveryIdempotent(c: Cluster, n: NodeId, bound: nat, again: nat, id: Bytes, addr: Bytes)
    requires Reachable(c) && Enabled(c, Recover(n, bound, id, addr))
    ensures var c1 := Do(c, Recover(n, bound, id, addr));
            var left := if c.nodes[n].durableSnap then bound else 0;
            && Enabled(c1, Recover(n, left, id, addr))
            && (Enabled(c1, Recover(n, again, id, addr)) ==>
                  var c2 := Do(c1, Recover(n, again, id, addr));
                  && again == left && c2.nodes[n] == c1.nodes[n].(epoch := |c1.epochs|)
                  && left <= |c1.epochs[|c.epochs|].history|
                  && c2.epochs[|c1.epochs|] == Epoch(c1.epochs[|c.epochs|].history[..left], left, map[id := addr]))
  {
    hide Do, Reachable;
    if c.nodes[n].durableSnap {
      RecoveryIdempotentOnDisk(c, n, bound, again, id, addr);
    } else {
      RecoveryIdempotentInMemory(c, n, bound, again, id, addr);
    }
  }

  lemma RecoveryIdempotentOnDisk(c: Cluster, n: NodeId, bound: nat, again: nat, id: Bytes, addr: Bytes)
    requires Reachable(c) && Enabled(c, Recover(n, bound, id, addr)) && c.nodes[n].durableSnap
    ensures var c1 := Do(c, Recover(n, bound, id, addr));
            && Enabled(c1, Recover(n, bound, id, addr))
            && (Enabled(c1, Recover(n, again, id, addr)) ==>
                  var c2 := Do(c1, Recover(n, again, id, addr));
                  && again == bound && c2.nodes[n] == c1.nodes[n].(epoch := |c1.epochs|)
                  && bound <= |c1.epochs[|c.epochs|].history|
                  && c2.epochs[|c1.epochs|] == Epoch(c1.epochs[|c.epochs|].history[..bound], bound, map[id := addr]))
  {
    hide RestoreBytes, PersistBytes, Rebuilt, StateAt;
    ReachableInv(c);
    var x := c.nodes[n];
    var c1 := Do(c, Recover(n, bound, id, addr));
    RecoveredAgain(HistoryOf(c, n), x, bound, |c.epochs|, |c1.epochs|);
    RebuiltIsHeld(HistoryOf(c, n), x, bound);
    var h1 := HistoryOf(c1, n);
    assert h1[..bound] + [] == h1[..bound];
  }

  lemma RecoveryIdempotentInMemory(c: Cluster, n: NodeId, bound: nat, again: nat, id: Bytes, addr: Bytes)
    requires Reachable(c) && Enabled(c, Recover(n, bound, id, addr)) && !c.nodes[n].durableSnap
    ensures var c1 := Do(c, Recover(n, bound, id, addr));
            && Enabled(c1, Recover(n, 0, id, addr))
            && (Enabled(c1, Recover(n, again, id, addr)) ==>
                  var c2 := Do(c1, Recover(n, again, id, addr));
                  && again == 0 && c2.nodes[n] == c1.nodes[n].(epoch := |c1.epochs|)
                  && c2.epochs[|c1.epochs|] == Epoch(c1.epochs[|c.epochs|].history[..0], 0, map[id := addr]))
  {
    hide RestoreBytes, PersistBytes, Rebuilt, StateAt;
    var c1 := Do(c, Recover(n, bound, id, addr));
    BlankAgain(c1.nodes[n], |c1.epochs|);
  }

  /** With nothing in its stores, recovery leaves nothing. */
  lemma BlankAgain(x: Node, next: nat)
    requires x.disk == BLANK && x.mark == x.peak == 0 && !x.durableSnap
    ensures Rebuilt(x.disk, 0).Ok? && Suffix(x.disk, 0) == [] && Recovered(x, 0, next) == x.(epoch := next)
  {
  }

  /** The same for the node alone: its stores already are what recovery would make of them. */
  lemma RecoveredAgain(h: seq<Entry>, x: Node, bound: nat, epoch: nat, next: nat)
    requires NodeInv(h, x) && x.live.None? && x.durableSnap && Contiguous(x.disk) && SnapIndex(x.disk) <= bound <= LastLog(x.disk)
    requires Rebuilt(x.disk, bound).Ok?
    ensures var x1 := Recovered(x, bound, epoch);
            && Contiguous(x1.disk) && SnapIndex(x1.disk) == bound == LastLog(x1.disk) && x1.peak == bound
            && Suffix(x1.disk, bound) == [] && Rebuilt(x1.disk, bound).Ok? && Recovered(x1, bound, next) == x1.(epoch := next)
  {
    hide RestoreBytes, PersistBytes, Replay;
    var held := h[..SnapIndex(x.disk)] + Suffix(x.disk, bound);
    var x1 := Recovered(x, bound, epoch);
    RebuiltIsHeld(h, x, bound);
    RecoverKeeps(h, x, bound, epoch);
    RebuiltIsHeld(held, x1, bound);
    assert held[..bound] + Suffix(x1.disk, bound) == held;
  }

  // ----- Every history can happen ----------------------------------------------------------------

  lemma ReachableStep(c: Cluster, step: Step)
    requires Reachable(c) && Enabled(c, step)
    ensures Reachable(Do(c, step))
  {
    hide Enabled, Do, Init;
    var run :| IsRun(run) && Init(run[0]) && run[|run| - 1] == c;
    var longer := run + [Do(c, step)];
    forall i | 0 <= i < |longer| - 1 ensures Next(longer[i], longer[i + 1]) {
      if i < |run| - 1 {
        assert Next(run[i], run[i + 1]);
      } else {
        assert longer[i] == c;
      }
    }
    assert IsRun(longer) && longer[0] == run[0];
  }

  /** Which stores outlive the process. */
  datatype Keeps = Keeps(log: bool, snap: bool)

  /** One node that holds a log, knows the first entries to be committed and has applied some. */
  function Serving(history: seq<Entry>, log: seq<Entry>, commit: nat, applied: nat, keeps: Keeps): Cluster
    requires applied <= |history|
  {
    var live := Live(applied, commit, StateAt(history, applied), None);
    Cluster([Epoch(history, 0, map[])], map[0 := Node(0, Disk(0, log, None), Some(live), commit, applied, 1, keeps.log, keeps.snap)])
  }

  /** Any sequence of entries can be committed and applied on a node with any stores: no theorem about reachable
      clusters is empty. */
  lemma {:induction false} EveryHistoryIsServed(h: seq<Entry>, keeps: Keeps)
    ensures Reachable(Serving(h, h, |h|, |h|, keeps))
  {
    hide Reachable, StateAt;
    if h == [] {
      FirstStart(keeps);
    } else {
      var n := |h| - 1;
      var a, e := h[..n], h[n];
      assert h == a + [e];
      EveryHistoryIsServed(a, keeps);
      CommitOne(a, e, keeps);
      AppendOne(a, e, keeps);
      LearnOne(a, e, keeps);
      ApplyOne(a, e, keeps);
    }
  }

  lemma InitReachable(c: Cluster)
    requires Init(c)
    ensures Reachable(c)
  {
    hide Init, Next;
    assert IsRun([c]) && Init([c][0]) && [c][|[c]| - 1] == c;
  }

  lemma FirstStart(keeps: Keeps)
    ensures Reachable(Serving([], [], 0, 0, keeps))
  {
    var c := Cluster([Epoch([], 0, map[])], map[0 := Node(0, BLANK, None, 0, 0, 0, keeps.log, keeps.snap)]);
    InitReachable(c);
    ReachableStep(c, Restart(0));
    assert Do(c, Restart(0)).nodes == Serving([], [], 0, 0, keeps).nodes;
  }

  lemma CommitOne(a: seq<Entry>, e: Entry, keeps: Keeps)
    requires Reachable(Serving(a, a, |a|, |a|, keeps))
    ensures Reachable(Serving(a + [e], a, |a|, |a|, keeps))
  {
    var c := Serving(a, a, |a|, |a|, keeps);
    ReachableStep(c, Step.Commit(0, e));
    StateAtPrefix(a, a + [e], |a|);
    assert Do(c, Step.Commit(0, e)).epochs == Serving(a + [e], a, |a|, |a|, keeps).epochs;
  }

  lemma AppendOne(a: seq<Entry>, e: Entry, keeps: Keeps)
    requires Reachable(Serving(a + [e], a, |a|, |a|, keeps))
    ensures Reachable(Serving(a + [e], a + [e], |a|, |a|, keeps))
  {
    var c := Serving(a + [e], a, |a|, |a|, keeps);
    ReachableStep(c, Append(0, |a|, [e]));
    assert a[..|a|] + [e] == a + [e];
    assert Do(c, Append(0, |a|, [e])).nodes == Serving(a + [e], a + [e], |a|, |a|, keeps).nodes;
  }

  lemma LearnOne(a: seq<Entry>, e: Entry, keeps: Keeps)
    requires Reachable(Serving(a + [e], a + [e], |a|, |a|, keeps))
    ensures Reachable(Serving(a + [e], a + [e], |a| + 1, |a|, keeps))
  {
    var c := Serving(a + [e], a + [e], |a|, |a|, keeps);
    ReachableStep(c, Learn(0, |a| + 1));
    assert Do(c, Learn(0, |a| + 1)).nodes == Serving(a + [e], a + [e], |a| + 1, |a|, keeps).nodes;
  }

  lemma ApplyOne(a: seq<Entry>, e: Entry, keeps: Keeps)
    requires Reachable(Serving(a + [e], a + [e], |a| + 1, |a|, keeps))
    ensures Reachable(Serving(a + [e], a + [e], |a| + 1, |a| + 1, keeps))
  {
    var c := Serving(a + [e], a + [e], |a| + 1, |a|, keeps);
    ReachableStep(c, ApplyNext(0));
    StateAtStep(a + [e], |a|);
    assert Do(c, ApplyNext(0)).nodes == Serving(a + [e], a + [e], |a| + 1, |a| + 1, keeps).nodes;
  }

  /** Forced recovery can lose everything: a node on disk with its snapshots in memory, stopped after it has
      applied any history, is recovered without an error and starts empty. */
  lemma RecoveryCanLoseAll(h: seq<Entry>, id: Bytes, addr: Bytes) returns (c: Cluster)
    ensures Reachable(c) && Enabled(c, Recover(0, |h|, id, addr))
    ensures HistoryOf(c, 0) == h && c.nodes[0].peak == |h|
    ensures var c' := Do(c, Recover(0, |h|, id, addr));
            && Enabled(c', Restart(0)) && HistoryOf(c', 0) == h
            && Do(c', Restart(0)).nodes[0].live.value.fsm == EMPTY
  {
    hide Reachable, RestoreBytes, PersistBytes, StateAt, Rebuilt, Suffix;
    EveryHistoryIsServed(h, Keeps(true, false));
    c := Crashed(h, Keeps(true, false));
    ReachableInv(c);
    NothingKept(h, c.nodes[0]);
    assert h[..0] + h == h;
  }

  /** What is left of such a node, and what recovery makes of it. */
  lemma NothingKept(h: seq<Entry>, x: Node)
    requires NodeInv(h, x) && x == Node(0, Disk(0, h, None), None, |h|, |h|, 1, true, false)
    ensures Contiguous(x.disk) && SnapIndex(x.disk) == 0 && LastLog(x.disk) == |h| && Suffix(x.disk, |h|) == h
    ensures Rebuilt(x.disk, |h|).Ok? && Recovered(x, |h|, 1) == Node(1, BLANK, None, 0, 0, 1, true, false)
  {
    hide RestoreBytes, PersistBytes, StateAt;
    RebuiltIsHeld(h, x, |h|);
  }

  /** A log on disk and snapshots in memory can keep a node from starting: once it has taken a snapshot and truncated
      some of its log, a stop leaves entries that begin with a hole. The node neither starts nor can be recovered,
      whatever the bound, until it is wiped. */
  lemma HoleStopsNode(h: seq<Entry>, k: nat) returns (c: Cluster)
    requires 0 < k < |h|
    ensures Reachable(c) && c.nodes.Keys == {0} && c.epochs == [Epoch(h, 0, map[])]
    ensures c.nodes[0] == Node(0, Disk(k, h[k..], None), None, |h|, |h|, 1, true, false)
    ensures !Enabled(c, Restart(0)) && forall bound, id, addr :: !Enabled(c, Recover(0, bound, id, addr))
    ensures forall inside :: Enabled(c, Reset(0, inside)) && Enabled(Do(c, Reset(0, inside)), Restart(0))
  {
    hide Reachable, RestoreBytes, PersistBytes, StateAt;
    c := Truncated(h, k);
    ReachableStep(c, Crash(0));
    c := Do(c, Crash(0));
  }

  /** The run up to there. */
  lemma Truncated(h: seq<Entry>, k: nat) returns (c: Cluster)
    requires 0 < k < |h|
    ensures Reachable(c) && c.epochs == [Epoch(h, 0, map[])]
    ensures c.nodes == map[0 := Node(0, Disk(k, h[k..], Some(SnapFile(|h|, PersistBytes(StateAt(h, |h|))))),
                                     Some(Live(|h|, |h|, StateAt(h, |h|), None)), |h|, |h|, 1, true, false)]
  {
    hide Reachable, RestoreBytes, PersistBytes, StateAt;
    EveryHistoryIsServed(h, Keeps(true, false));
    c := Serving(h, h, |h|, |h|, Keeps(true, false));
    ReachableStep(c, TakeSnapshot(0));
    c := Do(c, TakeSnapshot(0));
    ReachableStep(c, PersistSnapshot(0));
    c := Do(c, PersistSnapshot(0));
    ReachableStep(c, Truncate(0, k));
    c := Do(c, Truncate(0, k));
  }

  lemma Crashed(h: seq<Entry>, keeps: Keeps) returns (c: Cluster)
    requires Reachable(Serving(h, h, |h|, |h|, keeps)) && keeps.log
    ensures Reachable(c) && c.epochs == [Epoch(h, 0, map[])]
    ensures c.nodes == map[0 := Node(0, Disk(0, h, None), None, |h|, |h|, 1, true, keeps.snap)]
  {
    hide Reachable, StateAt;
    ReachableStep(Serving(h, h, |h|, |h|, keeps), Crash(0));
    c := Do(Serving(h, h, |h|, |h|, keeps), Crash(0));
  }

  // ----- Sessions --------------------------------------------------------------------------------

  /** c' is no earlier than c for node n, as long as n has not been restarted in between. */
  predicate NoEarlier(c: Cluster, c': Cluster, n: NodeId)
    requires Known(c, n) && Known(c', n)
  {
    var x, x' := c.nodes[n], c'.nodes[n];
    && x.runs <= x'.runs
    && (x.runs == x'.runs && x'.live.Some? ==>
          && x.live.Some? && x.epoch == x'.epoch && HistoryOf(c, n) <= HistoryOf(c', n)
          && x.live.value.applied <= x'.live.value.applied)
  }

  /** The same for the node alone. */
  predicate Advances(x: Node, x': Node) {
    && x.runs <= x'.runs
    && (x.runs == x'.runs && x'.live.Some? ==>
          x.live.Some? && x.epoch == x'.epoch && x.live.value.applied <= x'.live.value.applied)
  }

  lemma PutAdvances(c: Cluster, m: NodeId, x': Node, n: NodeId)
    requires Known(c, m) && Known(c, n) && Advances(c.nodes[m], x') && x'.epoch < |c.epochs|
    ensures NoEarlier(c, Put(c, m, x'), n)
  {
  }

  lemma LiveStepsAdvance(x: Node)
    requires x.live.Some?
    ensures CanApply(x) ==> Advances(x, Applied(x))
    ensures Advances(x, Captured(x)) && Advances(x, Stopped(x))
    ensures x.live.value.pending.Some? ==> Advances(x, Persisted(x))
    ensures forall f: SnapFile, drop: nat | x.disk.first <= drop <= f.index && RestoreBytes(f.bytes).Ok? && x.live.value.applied <= f.index ::
              Advances(x, Installed(x, f, drop))
  {
  }

  lemma LiveStepNoEarlier(c: Cluster, step: Step, n: NodeId)
    requires Inv(c) && Enabled(c, step) && n in c.nodes
    requires step.ApplyNext? || step.TakeSnapshot? || step.PersistSnapshot? || step.Crash? || step.Install?
    ensures NoEarlier(c, Do(c, step), n)
  {
    LiveStepsAdvance(c.nodes[step.n]);
    match step
    case ApplyNext(m) => PutAdvances(c, m, Applied(c.nodes[m]), n);
    case TakeSnapshot(m) => PutAdvances(c, m, Captured(c.nodes[m]), n);
    case PersistSnapshot(m) => PutAdvances(c, m, Persisted(c.nodes[m]), n);
    case Crash(m) => PutAdvances(c, m, Stopped(c.nodes[m]), n);
    case Install(m, from, drop) => PutAdvances(c, m, Installed(c.nodes[m], c.nodes[from].disk.snap.value, drop), n);
  }

  lemma StoppedStepNoEarlier(c: Cluster, step: Step, n: NodeId)
    requires Inv(c) && Enabled(c, step) && n in c.nodes && (step.Restart? || step.Reset? || step.Adopt?)
    ensures NoEarlier(c, Do(c, step), n)
  {
    hide RestoreBytes, PersistBytes, Replay;
    match step
    case Restart(m) => PutAdvances(c, m, Started(c.nodes[m]).value, n);
    case Reset(m, inside) => PutAdvances(c, m, Emptied(c.nodes[m], if inside then None else c.nodes[m].disk.snap), n);
    case Adopt(m, epoch) => PutAdvances(c, m, c.nodes[m].(epoch := epoch), n);
  }

  lemma LogStepNoEarlier(c: Cluster, step: Step, n: NodeId)
    requires Inv(c) && Enabled(c, step) && n in c.nodes && (step.Append? || step.Learn? || step.Truncate?)
    ensures NoEarlier(c, Do(c, step), n)
  {
    match step
    case Append(m, keep, entries) => PutAdvances(c, m, Appended(c.nodes[m], keep, entries), n);
    case Learn(m, k) => PutAdvances(c, m, Learned(c.nodes[m], k), n);
    case Truncate(m, k) => PutAdvances(c, m, c.nodes[m].(disk := DropLog(c.nodes[m].disk, k)), n);
  }

  lemma StepNoEarlier(c: Cluster, step: Step, n: NodeId)
    requires Inv(c) && Enabled(c, step) && n in c.nodes && Inv(Do(c, step))
    ensures n in Do(c, step).nodes && NoEarlier(c, Do(c, step), n)
  {
    hide RestoreBytes, PersistBytes, Replay;
    match step
    case Commit(_, _) =>
    case Recover(_, _, _, _) =>
    case Append(_, _, _) => LogStepNoEarlier(c, step, n);
    case Learn(_, _) => LogStepNoEarlier(c, step, n);
    case Truncate(_, _) => LogStepNoEarlier(c, step, n);
    case Restart(_) => StoppedStepNoEarlier(c, step, n);
    case Reset(_, _) => StoppedStepNoEarlier(c, step, n);
    case Adopt(_, _) => StoppedStepNoEarlier(c, step, n);
    case _ => LiveStepNoEarlier(c, step, n);
  }

  lemma NextNoEarlier(c: Cluster, c': Cluster, n: NodeId)
    requires Inv(c) && Next(c, c') && n in c.nodes && Inv(c')
    ensures n in c'.nodes && NoEarlier(c, c', n)
  {
    var step :| Enabled(c, step) && Do(c, step) == c';
    StepNoEarlier(c, step, n);
  }

  lemma NoEarlierTransitive(a: Cluster, b: Cluster, c: Cluster, n: NodeId)
    requires Known(a, n) && Known(b, n) && Known(c, n) && NoEarlier(a, b, n) && NoEarlier(b, c, n)
    ensures NoEarlier(a, c, n)
  {
  }

  /** Within one incarnation a node reads from growing prefixes of one growing history. */
  lemma {:induction false} RunNoEarlier(run: seq<Cluster>, i: nat, n: NodeId)
    requires IsRun(run) && Inv(run[0]) && i < |run| && n in run[0].nodes
    ensures Inv(run[i]) && n in run[i].nodes && NoEarlier(run[0], run[i], n)
  {
    if i > 0 {
      RunNoEarlier(run, i - 1, n);
      assert Next(run[i - 1], run[i - 1 + 1]);
      NextKeepsInv(run[i - 1], run[i]);
      NextNoEarlier(run[i - 1], run[i], n);
      NoEarlierTransitive(run[0], run[i - 1], run[i], n);
    }
  }

  /** Has the entry at this index of n's history been applied by the running process? */
  predicate AppliedHere(c: Cluster, n: NodeId, i: nat, e: Entry) {
    Known(c, n) && c.nodes[n].live.Some? && i < c.nodes[n].live.value.applied && i < |HistoryOf(c, n)| && HistoryOf(c, n)[i] == e
  }

  /** After Put(k, v) has returned nil, which raft allows once its entry is committed and applied here, every
      later read of k in the same incarnation gives the outcome of the last write of k at or after that entry. */
  lemma ReadsFollowWrites(run: seq<Cluster>, n: NodeId, i: nat, k: Bytes, v: Bytes)
    requires IsRun(run) && Reachable(run[0]) && Valid(k)
    requires AppliedHere(run[0], n, i, Entry.Command(EncodeCommand(PutCommand(k, v))))
    requires var c' := run[|run| - 1]; n in c'.nodes && c'.nodes[n].live.Some? && c'.nodes[n].runs == run[0].nodes[n].runs
    ensures var c' := run[|run| - 1];
            && Known(c', n) && i < c'.nodes[n].live.value.applied <= |HistoryOf(c', n)|
            && var since := Payloads(HistoryOf(c', n)[i..c'.nodes[n].live.value.applied]);
               var last := LastWrite(since, KeyTarget(k));
               && last.Some? && since[0] == EncodeCommand(PutCommand(k, v))
               && Lookup(c'.nodes[n].live.value.fsm, KeyTarget(k)) == CellAfter(EffectOf(since[last.value]))
  {
    ReachableInv(run[0]);
    RunNoEarlier(run, |run| - 1, n);
    var c' := run[|run| - 1];
    var h, live := HistoryOf(c', n), c'.nodes[n].live.value;
    StateAtSplit(h, i, live.applied);
    var since := Payloads(h[i..live.applied]);
    PayloadsFirst(h[i..live.applied]);
    PutEffect(k, v);
    LastWriterWins(StateAt(h, i), since, KeyTarget(k));
    LastWriteIsLast(since, KeyTarget(k));
    assert Writes(since[0], KeyTarget(k));
  }

  lemma PayloadsFirst(log: seq<Entry>)
    requires log != [] && log[0].Command?
    ensures Payloads(log) != [] && Payloads(log)[0] == log[0].data
  {
    PayloadsAppend(log[..1], log[1..]);
    assert log == log[..1] + log[1..];
    assert Payloads(log[..1]) == [log[0].data];
  }

  /** A key that is not valid UTF-8 is never found on any replica, whatever was put under it. */
  lemma BrokenKeyNeverRead(c: Cluster, n: NodeId, k: Bytes)
    requires Reachable(c) && n in c.nodes && c.nodes[n].live.Some? && !Valid(k)
    ensures Lookup(c.nodes[n].live.value.fsm, KeyTarget(k)) == Absent
  {
    ReplicaIsFold(c, n);
    ReplayWellFormed(EMPTY, Payloads(HistoryOf(c, n)[..c.nodes[n].live.value.applied]));
  }
}
