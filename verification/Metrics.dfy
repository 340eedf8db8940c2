/** The KV counters and duration histograms, and the accounting they support over a whole run. */
module Metrics {
  // ----- One node's instruments ------------------------------------------------------------------

  type Label = string

  function Count(m: map<Label, nat>, op: Label): nat {
    if op in m then m[op] else 0
  }

  function Samples(m: map<Label, seq<real>>, op: Label): seq<real> {
    if op in m then m[op] else []
  }

  predicate IsWrite(op: Label) {
    op == "put" || op == "delete"
  }

  predicate IsRead(op: Label) {
    op == "get" || op == "list"
  }

  class Metrics {
    var kvOps: map<Label, nat>
    var kvErrors: map<Label, nat>
    var applyDur: map<Label, seq<real>>
    var readDur: map<Label, seq<real>>

    /** Every counted operation was observed in exactly one histogram, the one for its kind. */
    ghost predicate Valid()
      reads this
    {
      forall op :: Balanced(op)
    }

    ghost predicate Balanced(op: Label)
      reads this
    {
      && Count(kvErrors, op) <= Count(kvOps, op)
      && |Samples(applyDur, op)| == (if IsWrite(op) then Count(kvOps, op) else 0)
      && |Samples(readDur, op)| == (if IsRead(op) then Count(kvOps, op) else 0)
    }

    constructor ()
      ensures Valid() && forall op :: Count(kvOps, op) == Count(kvErrors, op) == 0
    {
      kvOps, kvErrors, applyDur, readDur := map[], map[], map[], map[];
    }

    method ObserveKVOp(op: Label, failed: bool, seconds: real)
      requires Valid()
      modifies this
      ensures Valid()
      ensures kvOps == old(kvOps)[op := old(Count(kvOps, op)) + 1]
      ensures kvErrors == if failed then old(kvErrors)[op := old(Count(kvErrors, op)) + 1] else old(kvErrors)
      ensures applyDur == if op == "put" || op == "delete" then old(applyDur)[op := old(Samples(applyDur, op)) + [seconds]] else old(applyDur)
      ensures readDur == if op == "get" || op == "list" then old(readDur)[op := old(Samples(readDur, op)) + [seconds]] else old(readDur)
    {
      kvOps := kvOps[op := Count(kvOps, op) + 1];
      if failed {
        kvErrors := kvErrors[op := Count(kvErrors, op) + 1];
      }
      if IsWrite(op) {
        applyDur := applyDur[op := Samples(applyDur, op) + [seconds]];
      } else if IsRead(op) {
        readDur := readDur[op := Samples(readDur, op) + [seconds]];
      }
      forall o | o != op ensures Balanced(o) {
        assert old(Balanced(o));
      }
      assert Balanced(op) by {
        assert old(Balanced(op));
      }
    }
  }

  // ----- Write calls across the cluster ----------------------------------------------------------

  datatype WriteOp = PutOp | DeleteOp

  /** A call of Store.Put or Store.Delete: entered, its entry handed to raft, back with or without an error. */
  datatype Phase = Entered | Proposed | Returned(failed: bool)

  datatype WriteCall = WriteCall(node: nat, op: WriteOp, phase: Phase, committed: bool)

  /** Counters are per node and operation, as each node keeps its own. The log lists the calls whose entries
      were committed. An entry may still be committed after its call has given up. */
  datatype Ledger = Ledger(calls: map<nat, WriteCall>, log: seq<nat>, ops: map<(nat, WriteOp), nat>, errors: map<(nat, WriteOp), nat>)

  datatype Event =
    | Enter(id: nat, node: nat, op: WriteOp)
    | Refuse(id: nat)                    // not the leader
    | Propose(id: nat)
    | Commit(id: nat)
    | Return(id: nat, failed: bool)      // raft answers nil only for a committed entry

  predicate Enabled(l: Ledger, e: Event) {
    match e
    case Enter(id, _, _) => id !in l.calls
    case Refuse(id) => id in l.calls && l.calls[id].phase.Entered?
    case Propose(id) => id in l.calls && l.calls[id].phase.Entered?
    case Commit(id) =>
      && id in l.calls && !l.calls[id].phase.Entered? && !l.calls[id].committed
      && (l.calls[id].phase.Returned? ==> l.calls[id].phase.failed)
    case Return(id, failed) => id in l.calls && l.calls[id].phase.Proposed? && (!failed ==> l.calls[id].committed)
  }

  function Tally(m: map<(nat, WriteOp), nat>, k: (nat, WriteOp)): map<(nat, WriteOp), nat> {
    m[k := (if k in m then m[k] else 0) + 1]
  }

  function Finished(l: Ledger, id: nat, failed: bool): Ledger
    requires id in l.calls
  {
    var c := l.calls[id];
    var k := (c.node, c.op);
    l.(calls := l.calls[id := c.(phase := Returned(failed))], ops := Tally(l.ops, k), errors := if failed then Tally(l.errors, k) else l.errors)
  }

  function Do(l: Ledger, e: Event): Ledger
    requires Enabled(l, e)
  {
    match e
    case Enter(id, node, op) => l.(calls := l.calls[id := WriteCall(node, op, Entered, false)])
    case Refuse(id) => Finished(l, id, true)
    case Propose(id) => l.(calls := l.calls[id := l.calls[id].(phase := Proposed)])
    case Commit(id) => l.(calls := l.calls[id := l.calls[id].(committed := true)], log := l.log + [id])
    case Return(id, failed) => Finished(l, id, failed)
  }

  // ----- Totals ----------------------------------------------------------------------------------

  /** The counter for op, summed over all nodes. */
  ghost function Total(m: map<(nat, WriteOp), nat>, op: WriteOp): nat {
    if m == map[] then 0 else
      var k :| k in m;
      (if k.1 == op then m[k] else 0) + Total(m - {k}, op)
  }

  lemma {:induction false} TotalSplit(m: map<(nat, WriteOp), nat>, op: WriteOp, k: (nat, WriteOp))
    requires k in m
    ensures Total(m, op) == (if k.1 == op then m[k] else 0) + Total(m - {k}, op)
    decreases |m|
  {
    var p :| p in m && Total(m, op) == (if p.1 == op then m[p] else 0) + Total(m - {p}, op);
    if p != k {
      TotalSplit(m - {p}, op, k);
      TotalSplit(m - {k}, op, p);
      assert m - {p} - {k} == m - {k} - {p};
    }
  }

  lemma TotalTally(m: map<(nat, WriteOp), nat>, k: (nat, WriteOp), op: WriteOp)
    ensures Total(Tally(m, k), op) == Total(m, op) + if k.1 == op then 1 else 0
  {
    TotalSplit(Tally(m, k), op, k);
    assert Tally(m, k) - {k} == m - {k};
    if k in m {
      TotalSplit(m, op, k);
    } else {
      assert m - {k} == m;
    }
  }

  /** Committed log entries of op. */
  function Entries(l: Ledger, op: WriteOp): nat
    requires forall id :: id in l.log ==> id in l.calls
  {
    CountLog(l.calls, l.log, op)
  }

  function CountLog(calls: map<nat, WriteCall>, log: seq<nat>, op: WriteOp): nat
    requires forall id :: id in log ==> id in calls
  {
    if log == [] then 0 else
      CountLog(calls, log[..|log| - 1], op) + if calls[log[|log| - 1]].op == op then 1 else 0
  }

  /** The calls that satisfy p. */
  function Selected(calls: map<nat, WriteCall>, p: WriteCall -> bool): set<nat> {
    set id | id in calls && p(calls[id])
  }

  function Of(op: WriteOp): WriteCall -> bool {
    (c: WriteCall) => c.op == op
  }

  function IsReturned(op: WriteOp): WriteCall -> bool {
    (c: WriteCall) => c.op == op && c.phase.Returned?
  }

  function IsFailed(op: WriteOp): WriteCall -> bool {
    (c: WriteCall) => c.op == op && c.phase == Returned(true)
  }

  function IsCommitted(op: WriteOp): WriteCall -> bool {
    (c: WriteCall) => c.op == op && c.committed
  }

  function CallsOf(l: Ledger, op: WriteOp): set<nat> {
    Selected(l.calls, Of(op))
  }

  function ReturnedCalls(l: Ledger, op: WriteOp): set<nat> {
    Selected(l.calls, IsReturned(op))
  }

  function FailedCalls(l: Ledger, op: WriteOp): set<nat> {
    Selected(l.calls, IsFailed(op))
  }

  function CommittedCalls(l: Ledger, op: WriteOp): set<nat> {
    Selected(l.calls, IsCommitted(op))
  }

  lemma SelectedUpdate(calls: map<nat, WriteCall>, id: nat, c: WriteCall, p: WriteCall -> bool)
    requires id in calls ==> p(calls[id]) ==> p(c)
    ensures var before := id in calls && p(calls[id]);
            |Selected(calls[id := c], p)| == |Selected(calls, p)| + (if p(c) && !before then 1 else 0)
  {
    var now := if p(c) then Selected(calls, p) + {id} else Selected(calls, p);
    assert Selected(calls[id := c], p) == now;
  }

  /** Calls that have not returned. */
  function InFlight(l: Ledger, op: WriteOp): set<nat> {
    CallsOf(l, op) - ReturnedCalls(l, op)
  }

  /** The counters and the log count what their calls say. */
  ghost predicate OpInv(l: Ledger, op: WriteOp)
    requires forall id :: id in l.log ==> id in l.calls
  {
    && Total(l.ops, op) == |ReturnedCalls(l, op)|
    && Total(l.errors, op) == |FailedCalls(l, op)|
    && Entries(l, op) == |CommittedCalls(l, op)|
  }

  ghost predicate Inv(l: Ledger) {
    && (forall id :: id in l.log ==> id in l.calls)
    && (forall id :: id in l.calls && l.calls[id].phase == Returned(false) ==> l.calls[id].committed)
    && forall op :: OpInv(l, op)
  }

  lemma {:induction false} CountLogFrame(calls: map<nat, WriteCall>, calls': map<nat, WriteCall>, log: seq<nat>, op: WriteOp)
    requires forall id :: id in log ==> id in calls && id in calls' && calls[id].op == calls'[id].op
    ensures CountLog(calls, log, op) == CountLog(calls', log, op)
  {
    if log != [] {
      CountLogFrame(calls, calls', log[..|log| - 1], op);
    }
  }

  lemma FinishedKeepsInv(l: Ledger, id: nat, failed: bool)
    requires Inv(l) && id in l.calls && !l.calls[id].phase.Returned? && (!failed ==> l.calls[id].committed)
    ensures Inv(Finished(l, id, failed))
  {
    var l' := Finished(l, id, failed);
    var k := (l.calls[id].node, l.calls[id].op);
    forall op ensures OpInv(l', op) {
      assert OpInv(l, op);
      var c := l'.calls[id];
      SelectedUpdate(l.calls, id, c, IsReturned(op));
      SelectedUpdate(l.calls, id, c, IsFailed(op));
      SelectedUpdate(l.calls, id, c, IsCommitted(op));
      TotalTally(l.ops, k, op);
      TotalTally(l.errors, k, op);
      CountLogFrame(l.calls, l'.calls, l.log, op);
    }
  }

  lemma CommitKeepsInv(l: Ledger, id: nat)
    requires Inv(l) && Enabled(l, Commit(id))
    ensures Inv(Do(l, Commit(id)))
  {
    var l' := Do(l, Commit(id));
    assert l'.log[..|l'.log| - 1] == l.log;
    forall op ensures OpInv(l', op) {
      assert OpInv(l, op);
      var c := l'.calls[id];
      SelectedUpdate(l.calls, id, c, IsReturned(op));
      SelectedUpdate(l.calls, id, c, IsFailed(op));
      SelectedUpdate(l.calls, id, c, IsCommitted(op));
      CountLogFrame(l.calls, l'.calls, l.log, op);
    }
  }

  /** Events that neither return a call nor commit an entry. */
  lemma QuietKeepsInv(l: Ledger, e: Event)
    requires Inv(l) && Enabled(l, e) && (e.Enter? || e.Propose?)
    ensures Inv(Do(l, e))
  {
    var l' := Do(l, e);
    forall op ensures OpInv(l', op) {
      assert OpInv(l, op);
      CountLogFrame(l.calls, l'.calls, l.log, op);
      var c := l'.calls[e.id];
      SelectedUpdate(l.calls, e.id, c, IsReturned(op));
      SelectedUpdate(l.calls, e.id, c, IsFailed(op));
      SelectedUpdate(l.calls, e.id, c, IsCommitted(op));
    }
  }

  const START := Ledger(map[], [], map[], map[])

  ghost predicate Next(l: Ledger, l': Ledger) {
    exists e :: Enabled(l, e) && Do(l, e) == l'
  }

  ghost predicate IsRun(run: seq<Ledger>) {
    run != [] && run[0] == START && forall i :: 0 <= i < |run| - 1 ==> Next(run[i], run[i + 1])
  }

  lemma NextKeepsInv(l: Ledger, l': Ledger)
    requires Inv(l) && Next(l, l')
    ensures Inv(l')
  {
    var e :| Enabled(l, e) && Do(l, e) == l';
    match e
    case Enter(_, _, _) => QuietKeepsInv(l, e);
    case Propose(_) => QuietKeepsInv(l, e);
    case Refuse(id) => FinishedKeepsInv(l, id, true);
    case Return(id, failed) => FinishedKeepsInv(l, id, failed);
    case Commit(id) => CommitKeepsInv(l, id);
  }

  lemma {:induction false} RunInv(run: seq<Ledger>, i: nat)
    requires IsRun(run) && i < |run|
    ensures Inv(run[i])
  {
    if i == 0 {
      forall op ensures OpInv(START, op) {
        assert ReturnedCalls(START, op) == {} && FailedCalls(START, op) == {} && CommittedCalls(START, op) == {};
      }
    } else {
      RunInv(run, i - 1);
      assert Next(run[i - 1], run[i - 1 + 1]);
      NextKeepsInv(run[i - 1], run[i]);
    }
  }

  /** Over any run of any number of nodes: successes are covered by committed entries, and these by calls. */
  lemma CountersBoundLog(run: seq<Ledger>, i: nat, op: WriteOp)
    requires IsRun(run) && i < |run|
    ensures var l := run[i];
            && (forall id :: id in l.log ==> id in l.calls)
            && Total(l.ops, op) - Total(l.errors, op) <= Entries(l, op) <= Total(l.ops, op) + |InFlight(l, op)|
  {
    RunInv(run, i);
    var l := run[i];
    assert OpInv(l, op);
    var succeeded := ReturnedCalls(l, op) - FailedCalls(l, op);
    Subset(succeeded, CommittedCalls(l, op));
    Subset(CommittedCalls(l, op), CallsOf(l, op));
    assert FailedCalls(l, op) <= ReturnedCalls(l, op) <= CallsOf(l, op);
    assert |succeeded| == |ReturnedCalls(l, op)| - |FailedCalls(l, op)|;
    assert |InFlight(l, op)| == |CallsOf(l, op)| - |ReturnedCalls(l, op)|;
  }

  lemma {:induction false} Subset(a: set<nat>, b: set<nat>)
    requires a <= b
    ensures |a| <= |b|
  {
    if a != {} {
      var x :| x in a;
      Subset(a - {x}, b - {x});
    }
  }

  // ----- One node's counters in the ledger -------------------------------------------------------

  ghost predicate Reached(l: Ledger) {
    exists run :: IsRun(run) && run[|run| - 1] == l
  }

  lemma ReachedStep(l: Ledger, e: Event)
    requires Reached(l) && Enabled(l, e)
    ensures Reached(Do(l, e))
  {
    hide Enabled, Do;
    var run :| IsRun(run) && run[|run| - 1] == l;
    var longer := run + [Do(l, e)];
    forall i | 0 <= i < |longer| - 1 ensures Next(longer[i], longer[i + 1]) {
      if i < |run| - 1 {
        assert Next(run[i], run[i + 1]);
      } else {
        assert longer[i] == l;
      }
    }
    assert IsRun(longer) && longer[|longer| - 1] == Do(l, e);
  }

  function OpLabel(op: WriteOp): Label {
    if op.PutOp? then "put" else "delete"
  }

  function TallyOf(m: map<(nat, WriteOp), nat>, node: nat, op: WriteOp): nat {
    if (node, op) in m then m[(node, op)] else 0
  }

  /** The counters of a node's instruments are those the ledger keeps for it. */
  ghost predicate Reflects(kvOps: map<Label, nat>, kvErrors: map<Label, nat>, l: Ledger, node: nat) {
    forall op :: Count(kvOps, OpLabel(op)) == TallyOf(l.ops, node, op) && Count(kvErrors, OpLabel(op)) == TallyOf(l.errors, node, op)
  }

  /** A whole call as the ledger sees it: refused, or handed to raft and answered. */
  lemma WholeCall(l: Ledger, id: nat, node: nat, op: WriteOp, leads: bool, ok: bool) returns (l': Ledger)
    requires Reached(l) && id !in l.calls && (ok ==> leads)
    ensures Reached(l') && l'.calls == l.calls[id := WriteCall(node, op, Returned(!ok), ok)]
    ensures l'.log == if ok then l.log + [id] else l.log
    ensures l'.ops == Tally(l.ops, (node, op)) && l'.errors == if ok then l.errors else Tally(l.errors, (node, op))
  {
    hide Reached;
    ReachedStep(l, Enter(id, node, op));
    l' := Do(l, Enter(id, node, op));
    if !leads {
      ReachedStep(l', Refuse(id));
      l' := Do(l', Refuse(id));
    } else {
      ReachedStep(l', Propose(id));
      l' := Do(l', Propose(id));
      if ok {
        ReachedStep(l', Commit(id));
        l' := Do(l', Commit(id));
      }
      ReachedStep(l', Return(id, !ok));
      l' := Do(l', Return(id, !ok));
    }
  }

  function Counted(m: map<Label, nat>, op: Label): map<Label, nat> {
    m[op := Count(m, op) + 1]
  }

  /** Counting a call in the instruments is tallying it in the ledger. */
  lemma StillReflects(kvOps: map<Label, nat>, kvErrors: map<Label, nat>, l: Ledger, l': Ledger, node: nat, op: WriteOp, failed: bool)
    requires Reflects(kvOps, kvErrors, l, node)
    requires l'.ops == Tally(l.ops, (node, op)) && l'.errors == if failed then Tally(l.errors, (node, op)) else l.errors
    ensures Reflects(Counted(kvOps, OpLabel(op)), if failed then Counted(kvErrors, OpLabel(op)) else kvErrors, l', node)
  {
    forall o: WriteOp
      ensures Count(Counted(kvOps, OpLabel(op)), OpLabel(o)) == TallyOf(l'.ops, node, o)
      ensures failed ==> Count(Counted(kvErrors, OpLabel(op)), OpLabel(o)) == TallyOf(l'.errors, node, o)
    {
      assert o != op ==> OpLabel(o)[0] != OpLabel(op)[0];
    }
  }
}
