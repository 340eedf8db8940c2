/** The two disaster commands: wiping a data directory and forcing a single-node configuration. */
module Recovery {
  import opened Wrappers
  import opened Utf8
  import opened Machine
  import opened SnapshotCodec
  import opened Cluster
  import Fsm

  // ----- Reset -----------------------------------------------------------------------------------

  /** A cleaned path, component by component. */
  type Path = seq<string>

  datatype FileKind = File(content: Bytes) | Directory

  predicate Below(p: Path, dir: Path) {
    dir < p
  }

  /** A file system. Paths in `stuck` cannot be removed, directories in `closed` cannot be read. The empty path
      names nothing. */
  class FileSystem {
    var nodes: map<Path, FileKind>
    const stuck: set<Path>
    const closed: set<Path>

    constructor (nodes: map<Path, FileKind>, stuck: set<Path>, closed: set<Path>)
      ensures this.nodes == nodes && this.stuck == stuck && this.closed == closed
    {
      this.nodes := nodes;
      this.stuck := stuck;
      this.closed := closed;
    }

    /** Every existing path below a directory lies below, or is, one of its entries. */
    ghost predicate Valid()
      reads this
    {
      [] !in nodes && forall p :: p in nodes ==> forall k :: 0 < k < |p| ==> p[..k] in nodes
    }

    /** Does os.ReadDir answer an error that is not "does not exist"? It does for a directory that is closed to
        it, for a file, and for a path that leads through a file. */
    predicate ReadFails(dir: Path)
      reads this
    {
      (dir in nodes && dir in closed) || exists k :: 0 < k <= |dir| && dir[..k] in nodes && nodes[dir[..k]].File?
    }

    /** os.RemoveAll: the whole subtree, unless something in it is stuck. */
    method RemoveAll(p: Path) returns (ok: bool)
      modifies this
      ensures ok <==> forall q :: q in old(nodes) && p <= q ==> q !in stuck
      ensures ok ==> nodes == map q | q in old(nodes) && !(p <= q) :: old(nodes)[q]
      ensures nodes.Keys <= old(nodes).Keys && forall q :: q in old(nodes) && !(p <= q) ==> q in nodes && nodes[q] == old(nodes)[q]
    {
      ok := forall q :: q in nodes ==> p <= q ==> q !in stuck;
      if ok {
        nodes := map q | q in nodes && !(p <= q) :: nodes[q];
      } else {
        nodes := map q | q in nodes && (p <= q ==> q in stuck || nodes[q].Directory?) :: nodes[q];
      }
    }

    /** Removes the entries one after the other and stops at the first that fails. */
    method RemoveEntries(entries: set<Path>) returns (ok: bool)
      modifies this
      ensures ok ==> nodes == Remaining(old(nodes), entries)
      ensures ok <==> Free(old(nodes), entries, stuck)
      ensures forall q :: q in old(nodes) && !Covered(q, entries) ==> q in nodes && nodes[q] == old(nodes)[q]
    {
      ghost var was := nodes;
      var done: set<Path> := {};
      while done != entries
        invariant done <= entries
        invariant nodes == Remaining(was, done) && Free(was, done, stuck)
        decreases |entries - done|
      {
        var e :| e in entries - done;
        ok := RemoveAll(e);
        if !ok {
          RemoveFailed(was, entries, done, e);
          return;
        }
        RemoveOneMore(was, done, e, stuck);
        ghost var rest := entries - done;
        done := done + {e};
        assert entries - done == rest - {e};
      }
      ok := true;
    }

    /** A missing directory is no error. On success nothing is left below the directory and everything
        else is as it was; on failure only paths below it can have gone, and none when it could not be read. */
    method Reset(dataDir: Path) returns (r: Result<(), string>)
      requires Valid()
      modifies this
      ensures r.Ok? <==> !old(ReadFails(dataDir))
                         && (dataDir in old(nodes) ==> forall q :: q in old(nodes) && Below(q, dataDir) ==> q !in stuck)
      ensures r.Ok? && dataDir != [] ==> nodes == Wiped(old(nodes), dataDir)
      ensures old(ReadFails(dataDir)) || dataDir !in old(nodes) ==> nodes == old(nodes)
      ensures forall q :: q in old(nodes) && !Below(q, dataDir) ==> q in nodes && nodes[q] == old(nodes)[q]
    {
      if ReadFails(dataDir) {
        return Err("read directory");
      }
      if dataDir !in nodes {
        if dataDir != [] {
          MissingIsWiped(nodes, dataDir);
        }
        return Ok(());
      }
      var entries := set q | q in nodes && |q| == |dataDir| + 1 && Below(q, dataDir);
      EntriesCover(nodes, dataDir, entries);
      var ok := RemoveEntries(entries);
      return if ok then Ok(()) else Err("remove");
    }
  }

  /** Nothing under these roots is stuck. */
  ghost predicate Free(nodes: map<Path, FileKind>, roots: set<Path>, stuck: set<Path>) {
    forall q :: q in nodes && Covered(q, roots) ==> q !in stuck
  }

  lemma MissingIsWiped(nodes: map<Path, FileKind>, dir: Path)
    requires dir != [] && dir !in nodes && forall p :: p in nodes ==> forall k :: 0 < k < |p| ==> p[..k] in nodes
    ensures nodes == Wiped(nodes, dir)
  {
    forall q | q in nodes ensures !Below(q, dir) {
      assert |dir| < |q| ==> q[..|dir|] in nodes;
      assert dir <= q ==> q[..|dir|] == dir;
    }
  }

  lemma RemoveFailed(nodes: map<Path, FileKind>, entries: set<Path>, done: set<Path>, e: Path)
    requires done <= entries && e in entries
    ensures forall q :: q in nodes && !Covered(q, entries) ==> q in Remaining(nodes, done) && !(e <= q)
    ensures forall q :: q in Remaining(nodes, done) && e <= q ==> q in nodes && Covered(q, entries)
  {
    forall q | q in nodes && Covered(q, done) ensures Covered(q, entries) {
      var x :| x in done && x <= q;
      assert x in entries;
    }
  }

  lemma RemoveOneMore(nodes: map<Path, FileKind>, done: set<Path>, e: Path, stuck: set<Path>)
    ensures Remaining(nodes, done + {e}) == map q | q in Remaining(nodes, done) && !(e <= q) :: nodes[q]
    ensures Free(nodes, done, stuck) && (forall q :: q in Remaining(nodes, done) && e <= q ==> q !in stuck) ==> Free(nodes, done + {e}, stuck)
  {
    forall q ensures Covered(q, done + {e}) <==> Covered(q, done) || e <= q {
      CoveredByOneMore(q, done, e);
    }
  }

  ghost predicate Covered(q: Path, roots: set<Path>) {
    exists e :: e in roots && e <= q
  }

  ghost function Remaining(nodes: map<Path, FileKind>, roots: set<Path>): map<Path, FileKind> {
    map q | q in nodes && !Covered(q, roots) :: nodes[q]
  }

  lemma CoveredByOneMore(q: Path, done: set<Path>, e: Path)
    ensures Covered(q, done + {e}) <==> Covered(q, done) || e <= q
  {
    if Covered(q, done) {
      var x :| x in done && x <= q;
      assert x in done + {e};
    }
    if e <= q {
      assert e in done + {e};
    }
  }

  /** The entries of a directory cover exactly what lies below it. */
  lemma EntriesCover(nodes: map<Path, FileKind>, dir: Path, entries: set<Path>)
    requires forall p :: p in nodes ==> forall k :: 0 < k < |p| ==> p[..k] in nodes
    requires entries == set q | q in nodes && |q| == |dir| + 1 && Below(q, dir)
    ensures forall q :: q in nodes ==> (Covered(q, entries) <==> Below(q, dir))
  {
    forall q | q in nodes ensures Covered(q, entries) <==> Below(q, dir) {
      if Below(q, dir) {
        var e := q[..|dir| + 1];
        assert |q| == |dir| + 1 ==> e == q;
        assert e in entries && e <= q;
      }
    }
  }

  /** What a wipe leaves. */
  function Wiped(nodes: map<Path, FileKind>, dataDir: Path): map<Path, FileKind> {
    map q | q in nodes && !Below(q, dataDir) :: nodes[q]
  }

  // ----- What a wipe reaches ---------------------------------------------------------------------

  /** snapPath is empty when the configuration leaves it out. */
  datatype Settings = Settings(dataDir: Path, snapPath: Path)

  /** Is anything of the store at this path left? */
  predicate Holds(nodes: map<Path, FileKind>, store: Path) {
    exists p :: p in nodes && store <= p
  }

  /** The log is the file raft.db in the data directory. The snapshots are below the directory "snapshots" of the
      configured path, or of the data directory if none is configured. A wipe always takes the log; it takes the
      snapshots exactly when the configured path is empty or not outside the data directory. */
  lemma WipeTakesStoresIff(cfg: Settings)
    ensures forall nodes :: !Holds(Wiped(nodes, cfg.dataDir), cfg.dataDir + ["raft.db"])
    ensures var snaps := (if cfg.snapPath == [] then cfg.dataDir else cfg.snapPath) + ["snapshots"];
            (forall nodes :: !Holds(Wiped(nodes, cfg.dataDir), snaps)) <==> cfg.snapPath == [] || cfg.dataDir <= cfg.snapPath
  {
    var log := cfg.dataDir + ["raft.db"];
    var base := if cfg.snapPath == [] then cfg.dataDir else cfg.snapPath;
    var snaps := base + ["snapshots"];
    forall nodes ensures !Holds(Wiped(nodes, cfg.dataDir), log) {
      StoreBelowIsWiped(nodes, cfg.dataDir, log);
    }
    BelowBase(cfg.dataDir, base, "snapshots");
    if Below(snaps, cfg.dataDir) {
      forall nodes ensures !Holds(Wiped(nodes, cfg.dataDir), snaps) {
        StoreBelowIsWiped(nodes, cfg.dataDir, snaps);
      }
    } else {
      var left := map[snaps := Directory];
      assert snaps in Wiped(left, cfg.dataDir);
      assert Holds(Wiped(left, cfg.dataDir), snaps);
    }
  }

  lemma BelowBase(dir: Path, base: Path, name: string)
    ensures Below(base + [name], dir) <==> dir <= base
  {
    assert |dir| <= |base| ==> (base + [name])[..|dir|] == base[..|dir|];
  }

  lemma StoreBelowIsWiped(nodes: map<Path, FileKind>, dir: Path, store: Path)
    requires Below(store, dir)
    ensures !Holds(Wiped(nodes, dir), store)
  {
    forall p | p in nodes && store <= p ensures Below(p, dir) {
      assert p[..|dir|] == dir;
    }
  }

  // ----- RecoverClusterSingle --------------------------------------------------------------------

  /** A node's durable stores and the configuration in force in them; term tells whether the stable
      store was ever written. */
  class Stores {
    var disk: Disk
    var voters: map<Bytes, Bytes>
    const term: bool

    constructor (disk: Disk, voters: map<Bytes, Bytes>, term: bool)
      ensures this.disk == disk && this.voters == voters && this.term == term
    {
      this.disk := disk;
      this.voters := voters;
      this.term := term;
    }

    /** raft.HasExistingState */
    predicate HasState()
      reads this
    {
      disk.log != [] || disk.snap.Some? || term
    }

    /** The steps of recovery in their order: restore the newest snapshot into a fresh FSM, replay the log up to
        the bound, persist a snapshot of the result with the new configuration, delete the log. A log with a
        hole, a snapshot that does not restore, or a snapshot store without room, stops it before anything is
        written. */
    method RecoverClusterSingle(bound: nat, id: Bytes, addr: Bytes, room: nat, stuck: bool)
      returns (r: Result<(), string>, ghost writes: seq<Disk>)
      requires SnapIndex(disk) <= bound && (Contiguous(disk) ==> bound <= LastLog(disk))
      modifies this
      ensures old(disk.log == [] && disk.snap.None?) && !term ==> r.Ok? && voters == map[id := addr] && disk == Disk(old(disk.first), [Membership(map[id := addr])], None)
      ensures old(disk.log != [] || disk.snap.Some?) || term ==>
                (r.Ok? <==> Contiguous(old(disk)) && Rebuilt(old(disk), bound).Ok?
                            && |PersistBytes(Rebuilt(old(disk), bound).value)| <= room && !stuck)
      ensures (old(disk.log != [] || disk.snap.Some?) || term) && r.Ok? ==>
                && disk == RecoveredDisk(Rebuilt(old(disk), bound).value, bound) && voters == map[id := addr]
                && writes == Stages(old(disk), Rebuilt(old(disk), bound).value, bound)
      ensures r.Err? ==> disk == old(disk) && voters == old(voters)
    {
      hide PersistBytes, Rebuilt, Replay;
      writes := [disk];
      if !HasState() {
        disk := disk.(log := [Membership(map[id := addr])]);
        voters := map[id := addr];
        return Ok(()), writes + [disk];
      }
      var written := SnapshotOf(disk, bound, room, stuck);
      if written.Err? {
        return Err(written.error), writes;
      }
      disk := disk.(snap := Some(SnapFile(bound, written.value)));
      writes := writes + [disk];
      voters := map[id := addr];
      disk := Disk(bound, [], disk.snap);
      return Ok(()), writes + [disk];
    }
  }

  /** The snapshot that recovery writes: of a fresh FSM that has been filled from the stores. */
  method SnapshotOf(d: Disk, bound: nat, room: nat, stuck: bool) returns (r: Result<Bytes, string>)
    requires SnapIndex(d) <= bound && (Contiguous(d) ==> bound <= LastLog(d))
    ensures r.Ok? <==> Contiguous(d) && Rebuilt(d, bound).Ok? && |PersistBytes(Rebuilt(d, bound).value)| <= room && !stuck
    ensures r.Ok? ==> r.value == PersistBytes(Rebuilt(d, bound).value)
  {
    hide PersistBytes, Rebuilt, Replay, LastLog;
    var f := new Fsm.FSM();
    var ok := Load(f, d, bound);
    if !ok {
      return Err("recover cluster");
    }
    var snap := f.Snapshot();
    var sink := new Fsm.Sink(room, stuck);
    var persisted := snap.Persist(sink);
    return if persisted.Ok? then Ok(sink.content) else Err("persist");
  }

  /** Fills a fresh FSM from the newest snapshot and the log after it. */
  method Load(f: Fsm.FSM, d: Disk, bound: nat) returns (ok: bool)
    requires f.View() == EMPTY && SnapIndex(d) <= bound && (Contiguous(d) ==> bound <= LastLog(d))
    modifies f.Repr()
    ensures ok <==> Contiguous(d) && Rebuilt(d, bound).Ok?
    ensures ok ==> f.View() == Rebuilt(d, bound).value
    ensures fresh(f.Repr() - old(f.Repr()))
  {
    if d.snap.Some? {
      var restored := f.Restore(d.snap.value.bytes);
      if restored.Err? {
        return false;
      }
    }
    if !Contiguous(d) {
      return false;
    }
    Replayed(f, Suffix(d, bound));
    return true;
  }

  /** The replay loop: commands go to FSM.Apply, other entries do not. */
  method Replayed(f: Fsm.FSM, tail: seq<Entry>)
    modifies f.data, f.peers
    ensures f.View() == Replay(old(f.View()), Payloads(tail))
    ensures f.data == old(f.data) && f.peers == old(f.peers) && fresh(f.Repr() - old(f.Repr()))
  {
    ghost var start := f.View();
    for i := 0 to |tail|
      invariant f.View() == Replay(start, Payloads(tail[..i]))
      invariant f.data == old(f.data) && f.peers == old(f.peers) && fresh(f.Repr() - old(f.Repr()))
    {
      PayloadsStep(start, tail, i);
      Handed(f, tail[i]);
    }
    assert tail[..|tail|] == tail;
  }

  method Handed(f: Fsm.FSM, e: Entry)
    modifies f.data, f.peers
    ensures f.View() == ApplyRaft(old(f.View()), e)
    ensures f.data == old(f.data) && f.peers == old(f.peers) && fresh(f.Repr() - old(f.Repr()))
  {
    if e.Command? {
      var log := Fsm.Allocate(e.data);
      var _ := f.Apply(log);
    }
  }

  lemma PayloadsStep(s: State, tail: seq<Entry>, i: nat)
    requires i < |tail|
    ensures Replay(s, Payloads(tail[..i + 1])) == ApplyRaft(Replay(s, Payloads(tail[..i])), tail[i])
  {
    var p := tail[..i + 1];
    var a := Payloads(tail[..i]);
    assert p[..|p| - 1] == tail[..i];
    if tail[i].Command? {
      ReplayAppend(s, a, [tail[i].data]);
      ReplayOne(Replay(s, a), tail[i].data);
    } else {
      assert a + [] == a;
    }
  }

  /** The stores after each write of a recovery, in order. */
  function Stages(d: Disk, s: State, bound: nat): seq<Disk> {
    [d, d.(snap := Some(SnapFile(bound, PersistBytes(s)))), RecoveredDisk(s, bound)]
  }

  /** Cut off after any of its writes, a recovery can be run again and rebuilds the same state. */
  lemma RecoveryRestartable(d: Disk, bound: nat, stage: nat)
    requires Contiguous(d) && SnapIndex(d) <= bound <= LastLog(d) && stage < 3
    requires Rebuilt(d, bound).Ok? && Encodable(Rebuilt(d, bound).value)
    ensures var d' := Stages(d, Rebuilt(d, bound).value, bound)[stage];
            Contiguous(d') && SnapIndex(d') <= bound <= LastLog(d') && Rebuilt(d', bound) == Rebuilt(d, bound)
  {
    if stage > 0 {
      RestorePersistIff(Rebuilt(d, bound).value);
    }
  }
}
