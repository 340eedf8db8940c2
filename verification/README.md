# raft-meta in Dafny

raft-meta is a small metadata store in Go: a key-value map and a map of dynamically joined peers, replicated
through hashicorp/raft and served over HTTP. This project models what the repository's own code decides and
proves it:

- every replica is the fold of one log, through any mix of snapshots, truncations, restarts, wipes, snapshot
  installs and forced recoveries (`Cluster`, `Replicas`, `Recovery`);
- the command and the snapshot lose nothing on the wire, at the level of JSON text and bytes, exactly when their
  strings are valid UTF-8 (`Utf8`, `Base64`, `Json`, `Codec`, `SnapshotCodec`), and the reader accepts exactly the
  grammar of RFC 8259 (`JsonGrammar`);
- the in-memory FSM follows the replicated machine, shares no buffer with anybody, and is linearizable under its
  RWMutex, one map entry at a time (`Machine`, `Fsm`, `Mutex`);
- the store writes through the leader, reads locally and counts what it does (`Store`, `Metrics`);
- membership requests are two log entries each, and what that costs (`Membership`);
- the address book of a node, its two look-ups and redirects (`Addresses`);
- the configuration mini-language for sizes and durations (`Decimal`, `Size`, `Duration`).

`dafny verify dfyconfig.toml` checks everything.

## How to read it

Code that changes state in place is a class whose methods are specified by functions: `Fsm.FSM`, whose maps and
buffers are objects on the heap, by `Machine.ApplyEntry`, `Recovery.Stores` by `Cluster.Rebuilt`, `Membership.Leader` by the steps of
`Membership.Do`, `Size.ParseSize` by `Size.Parsed`. The theorems are lemmas about those functions and about step
systems built from them. Go strings are byte sequences and nothing promises that they are UTF-8. Text of
configuration files is a sequence of Unicode scalar values.

hashicorp/raft is assumed, and the assumptions are the guards of `Cluster.Enabled`:

- a history of committed entries grows at its end and is never rewritten; forced recovery starts a new one;
- a node learns that an index is committed only when its log agrees with the history up to there, and entries it
  knows to be committed are never overwritten in its log;
- entries are applied in order, and only commands reach the FSM;
- an `Apply` future answers nil only after its entry has been committed and applied on this node; after an error
  the entry may be committed all the same, now or later;
- a start restores the newest snapshot and replays what follows, and fails when an entry between the snapshot and the
  end of the log is missing; a log that has become empty does not remember where it was; an installed snapshot is one that a node of the same
  history holds, is not behind what was applied, and goes through `Restore`;
- `RecoverCluster` replays what the node holds up to an index at or beyond the applied one. That index is a
  parameter: the comment in `internal/raftnode/recover.go:74` speaks of the commit index, and the theorems hold
  for any choice.

Nothing here claims that a read on a node that believes to lead is linearizable, or that anything survives the
wipe of a majority.

## Findings

- A key that is not valid UTF-8 is accepted by `Put`, replaced on the wire, and never found again; two such keys
  can collide (`Codec.BrokenKeysCollide`, `Store.PutThenGet`, `Replicas.BrokenKeyNeverRead`). Percent-encoding in
  the request path can produce such keys. The codec round trip holds exactly without them (`Codec.RoundTripIff`).
- Forced recovery moves everything into one snapshot and empties the log. With a snapshot store in memory the
  recovered node comes back empty (`Replicas.RecoveryCanLoseAll`, and exactly when in
  `Replicas.RecoverySurvivesIff`).
- The store factories combine a log on disk with snapshots in memory. Once such a node has truncated its log, a restart
  finds entries that begin with a hole: it does not start, and forced recovery does not help
  (`Replicas.HoleStopsNode`, `Replicas.RestoreNeverFails`).
- The design document (`docs/superpowers/specs/2026-06-22-raft-metadata-cluster-design.md:407`) promises that a
  reset wipes log, stable store and snapshots. Snapshots outside the data
  directory survive it (`Recovery.WipeTakesStoresIff`).
- `HTTPAddrForRaft` answers differently for different orders of the same peer map exactly when two dynamic peers
  claim the address with different HTTP addresses and no static one does (`Addresses.OrderIrrelevantIff`); a removal
  that fails half-way and a join at the freed address lead there (`Addresses.OrderCanShow`).
- A join that overlaps a removal of the same id can leave a recorded peer that is no voter although both requests
  succeed (`Membership.OverlapBreaks`); `Membership.UncoveredIff` says exactly when, failures included. A voter that
  joins again at another address without an HTTP address keeps a stale record (`Membership.StaleRecord`,
  `Membership.RejoinAgreesIff`), and so can one whose joins overlap (`Membership.DisagreeIff`).
- A day numeral that starts with a point is rewritten behind the point: `.5d` becomes `.120h`
  (`Duration.PointDays`); `Duration.PointDaysIff` says when the result is right all the same.

## Model

| member | source | states |
|---|---|---|
| `Utf8.DecodeEncode` | internal/fsm/codec.go:28-30 | text survives the trip through bytes, and its bytes are valid UTF-8 |
| `Utf8.SanitizeIdentity` | internal/fsm/codec.go:19-26 | a byte string comes back unchanged from JSON text if and only if it is valid UTF-8 |
| `Base64.DecodeEncode` | internal/fsm/codec.go:22 | base64 of a byte value decodes to that value, for every length and padding |
| `Base64.EncodePlain` | internal/fsm/codec.go:22 | base64 text needs no escape in JSON |
| `Base64.ValueIff` | internal/fsm/codec.go:22 | a character stands for its place in the table of RFC 4648, and no other character for anything |
| `Base64.DecodeIff` | internal/fsm/codec.go:32-38 | line breaks aside, decoded are exactly full groups of table characters with none, one or two equals signs at the end |
| `Json.ReadEscaped` | internal/fsm/codec.go:21-25 | an escaped string reads back as its characters, each broken byte replaced, in front of any text |
| `Json.ParsePrint` | internal/fsm/codec.go:28-38 | parsing a printed document gives its meaning and the text behind it, at any depth the scanner accepts |
| `Json.ReadPrinted` | internal/fsm/fsm.go:135-149 | both the whole-text reader and the stream reader get a printed document back |
| `Json.EscapeFront` | internal/fsm/codec.go:28-30 | how each character of a string is written, by code point, and each byte that starts none |
| `JsonGrammar.WholeIff` | internal/fsm/codec.go:32-38 | log bytes are read as a value if and only if they are, between blanks, a text of that value in the grammar of RFC 8259, nested at most ten thousand deep, in whatever spelling |
| `JsonGrammar.FirstIff` | internal/fsm/fsm.go:146-150 | a stream is read as a value that is no number if and only if it starts, after blanks, with such a text |
| `Codec.DecodeEncodeCommand` | internal/fsm/codec.go:28-38 | every command decodes from its encoding, with broken bytes of its strings replaced and its value bytes intact |
| `Codec.RoundTripIff` | internal/fsm/codec.go:28-38 | the codec loses nothing if and only if the strings are valid UTF-8, for every subset of omitted members |
| `Codec.EncodeInjectiveOnValid` | internal/fsm/codec.go:28-30 | different commands with valid strings have different encodings |
| `Codec.BrokenKeysCollide` | internal/fsm/codec.go:21 | two different keys outside UTF-8 have one encoding |
| `Codec.DecodedStringsValid` | internal/fsm/codec.go:32-38 | every string of a decoded command is valid UTF-8, whatever the log bytes were |
| `Codec.PutText` | internal/fsm/codec.go:19-22 | the JSON text of a put, member by member |
| `Codec.AddPeerText` | internal/fsm/codec.go:19-25 | the JSON text of a peer record, member by member, without the members it leaves empty |
| `Codec.DeleteText` | internal/fsm/codec.go:12-21 | the JSON text of a delete |
| `Codec.RemovePeerText` | internal/fsm/codec.go:14-23 | the JSON text of a peer removal |
| `Codec.SlotOfName` | internal/fsm/codec.go:19-26 | each member name finds its own field under the case folding of encoding/json |
| `Codec.FoldsIff` | internal/fsm/codec.go:32-38 | member names are compared as equal up to letter case, with the long s as an s and the Kelvin sign as a k |
| `Codec.SlotIff` | internal/fsm/codec.go:19-26 | which names set which field, and that no other name does |
| `Codec.DecodeCommandIff` | internal/fsm/codec.go:32-38 | bytes decode to a command if and only if they are a text of null, for the zero command, or of an object whose last members under the six names say it |
| `Machine.ApplySetsOnePlace` | internal/fsm/fsm.go:63-77 | an entry sets the one key or peer it names and leaves all others alone; what does not decode changes nothing |
| `Machine.LastWriteIsLast` | internal/fsm/fsm.go:63-77 | the last writer of a place is the last, and there is none exactly when nothing writes it |
| `Machine.LastWriterWins` | internal/fsm/fsm.go:63-77 | after any log every key and peer holds what its last effective entry put there |
| `Machine.OverlapHarmless` | internal/fsm/fsm.go:52-78 | applying the end of a log a second time changes nothing |
| `Machine.CompactionPreservesState` | internal/fsm/fsm.go:63-77 | dropping any set of superseded entries leaves the final state as it was |
| `Machine.IndependentCommute` | internal/fsm/fsm.go:63-77 | independent entries can be swapped in every state |
| `Machine.CommuteIff` | internal/fsm/fsm.go:63-77 | entries commute in all states if and only if they are independent |
| `Machine.EffectOfEncoded` | internal/fsm/fsm.go:52-78 | applying an encoded command does what the command, as it arrives, does |
| `Machine.PutEffect` | internal/fsm/fsm.go:64-65 | a put stores its value under the key as it arrives, which is the key itself if and only if it is valid UTF-8 |
| `Machine.DeleteEffect` | internal/fsm/fsm.go:66-67 | a delete clears the key as it arrives |
| `Machine.AddPeerEffect` | internal/fsm/fsm.go:68-71 | an added peer is filed under its own id with its addresses |
| `Machine.RemovePeerEffect` | internal/fsm/fsm.go:72-73 | a removal clears the record of the id |
| `Machine.PutTextStores` | internal/fsm/fsm.go:64-65 | the entry with the literal text of a put stores the value under exactly that key, in every state |
| `Machine.DeleteTextClears` | internal/fsm/fsm.go:66-67 | the entry with the literal text of a delete clears exactly that key |
| `Machine.AddPeerTextRecords` | internal/fsm/fsm.go:68-71 | the entry with the literal text of a peer record sets exactly that id |
| `Machine.RemovePeerTextClears` | internal/fsm/fsm.go:72-73 | the entry with the literal text of a peer removal clears exactly that id |
| `Machine.ReplayWellFormed` | internal/fsm/fsm.go:52-78 | after any log bytes all keys and peer strings are valid UTF-8 and every peer is filed under its own non-empty id |
| `SnapshotCodec.StateText` | internal/fsm/fsm.go:110-113 | the JSON text of a snapshot: data, then peers, then a line feed |
| `SnapshotCodec.PeerText` | internal/config/config.go:10-14 | a peer in a snapshot is written under its Go field names |
| `SnapshotCodec.EntryText` | internal/fsm/fsm.go:110-113 | a value is written in base64, an empty one as null |
| `SnapshotCodec.SortedInOrder` | internal/fsm/fsm.go:135-142 | keys are written in increasing byte order, each once |
| `SnapshotCodec.StateSlotIff` | internal/fsm/fsm.go:110-113 | which names set data and peers |
| `SnapshotCodec.PeerSlotIff` | internal/config/config.go:10-14 | which names set the fields of a peer |
| `SnapshotCodec.RestoreIff` | internal/fsm/fsm.go:146-150 | a stream restores to a state if and only if it starts with the text of a value that says it, whatever follows |
| `SnapshotCodec.ReadPeerIff` | internal/fsm/fsm.go:146-150 | a value is read as a peer if and only if it is null, for the empty one, or an object whose last members under the three names say it |
| `SnapshotCodec.RestoreAnyOrder` | internal/fsm/fsm.go:135-163 | Restore reads back the state, in whatever order the maps were written |
| `SnapshotCodec.RestorePersistIff` | internal/fsm/fsm.go:135-163 | a snapshot restores to its state if and only if that state holds valid UTF-8 only |
| `SnapshotCodec.ReachableSnapshotsRestore` | internal/fsm/fsm.go:110-163 | every state that log bytes can produce comes back from its snapshot |
| `SnapshotCodec.RestoredEncodable` | internal/fsm/fsm.go:146-163 | a restored state holds valid UTF-8 only, whatever the stream was |
| `Fsm.FSM.Apply` | internal/fsm/fsm.go:52-78 | the maps of the FSM are updated in place to the machine's next state; undecodable bytes are reported and change nothing; the only new objects are new buffers |
| `Fsm.FSM.Get` | internal/fsm/fsm.go:80-88 | the value of the key in a buffer of the caller's own, or nothing |
| `Fsm.FSM.List` | internal/fsm/fsm.go:90-100 | every entry under the prefix and no other, in a map and buffers shared with nothing, one buffer for each key |
| `Fsm.FSM.Peers` | internal/fsm/fsm.go:42-50 | every peer once, in some order |
| `Fsm.FSM.Len` | internal/fsm/fsm.go:103-107 | the number of keys |
| `Fsm.FSM.Snapshot` | internal/fsm/fsm.go:115-128 | the whole state in new maps and new buffers, shared with nothing |
| `Fsm.FsmSnapshot.Persist` | internal/fsm/fsm.go:135-142 | success if and only if the sink has room for the whole text and can be closed; a sink without room holds a prefix and is cancelled, one that does not close is left alone |
| `Fsm.FSM.Restore` | internal/fsm/fsm.go:146-163 | a failure changes nothing, a success puts new maps with what the stream says in place of both |
| `Fsm.PersistAfterWork` | internal/fsm/fsm.go:115-142 | after any amount of applies, restores and writing into returned buffers and maps, which may touch all the FSM is made of, a snapshot persists the state it was taken of, and the FSM has followed its log alone |
| `Fsm.PerformBeside` | internal/fsm/fsm.go:80-142 | no work on an FSM reaches a snapshot that shares no map and no buffer with it, and none begins to be shared |
| `Mutex.MoveKeepsInv` | internal/fsm/fsm.go:42-163 | every step of every caller, one map entry at a time, keeps readers consistent with the one state they hold the lock on |
| `Mutex.Linearizable` | internal/fsm/fsm.go:42-163 | in every interleaving the returned calls are a sequential execution whose order never changes and whose state is the shared one; each is the operation its caller began, after exactly the calls that had returned by then |
| `Mutex.CallsWereBegun` | internal/fsm/fsm.go:42-163 | each call in the trace was begun by its caller at a step of the run, and no more calls had returned then than stand before it |
| `Mutex.ReaderAnswers` | internal/fsm/fsm.go:90-128 | a finished List, Peers or Snapshot answers from one single state |
| `Mutex.LoopsCanFinish` | internal/fsm/fsm.go:90-128 | a reader that holds the lock can always go on or return |
| `Mutex.WritersCanFinish` | internal/fsm/fsm.go:52-78 | a writer can always go on or return |
| `Mutex.LockIff` | internal/fsm/fsm.go:42-163 | a waiting caller can take the lock if and only if nobody writes and, to write itself, nobody reads |
| `Mutex.UpdateAlone` | internal/fsm/fsm.go:52-78 | an Apply or a Restore on the FSM object alone does what the sequential FSM of the theorem says |
| `Mutex.ReadAlone` | internal/fsm/fsm.go:80-128 | a read of the FSM object answers what the sequential FSM says |
| `Cluster.SnapRestores` | internal/fsm/fsm.go:135-163 | a snapshot of a replica restores to the state of its index |
| `Cluster.ApplyKeeps` | internal/fsm/fsm.go:52-78 | applying the next committed entry keeps a node the fold of its prefix |
| `Cluster.PersistKeeps` | internal/fsm/fsm.go:135-142 | persisting a captured view keeps the node's snapshot the fold of its index |
| `Cluster.InstallKeeps` | internal/fsm/fsm.go:146-163 | installing a snapshot of the same history keeps the node the fold of its prefix |
| `Cluster.StopKeeps` | internal/raftstore/store.go:24-36 | what a stopped process leaves, with stores in memory or on disk, still agrees with the history |
| `Cluster.StartKeeps` | internal/raftnode/raftnode.go:79-103 | a node starts if and only if its log is empty or joins its snapshot, and begins as the fold of the snapshot |
| `Cluster.EmptiedKeeps` | internal/raftnode/recover.go:18-32 | a wiped node agrees with the history again |
| `Cluster.RebuiltIsHeld` | internal/raftnode/recover.go:72-77 | what recovery rebuilds is the fold of exactly what the node held |
| `Cluster.HeldKeepsApplied` | internal/raftnode/recover.go:72-77 | what the node held contains all it had ever applied |
| `Cluster.StepKeepsInv` | internal/raftnode/raftnode.go:38-104 | each of the steps of the cluster keeps the invariant of every node |
| `Replicas.ReplicaIsFold` | internal/fsm/fsm.go:52-163 | in every reachable cluster a running FSM is the fold of its applied prefix, and so is each stored snapshot |
| `Replicas.ReplicaIsWellFormed` | internal/fsm/fsm.go:52-163 | on every reachable replica keys and peer strings are valid UTF-8 and peers are filed under their own non-empty id |
| `Replicas.ReplicasAgree` | internal/fsm/fsm.go:52-163 | replicas of one history differ by the entries between their indices, hence not at all at equal indices |
| `Replicas.CrashLeaves` | internal/raftstore/store.go:24-36 | the end of a process, for each of the four kinds of stores: no entry outlives a log in memory, no snapshot one in memory, stores on disk are unchanged, no other node notices |
| `Replicas.CrashAndRestart` | internal/raftnode/raftnode.go:79-103 | when the node starts again after it, and with what: the fold of the snapshot on disk, or nothing applied and an empty state |
| `Replicas.StartsFromSnapshot` | internal/fsm/fsm.go:146-163 | a node that starts is the fold of its history up to its snapshot |
| `Replicas.ResetLeaves` | internal/raftnode/recover.go:18-32 | a wipe leaves no entry and, with the snapshots inside, no snapshot; the node starts again, empty in that case |
| `Replicas.ApplyTakesNext` | internal/fsm/fsm.go:52-78 | one step applies the next entry of the history and nothing else |
| `Replicas.InstallCatchesUp` | internal/fsm/fsm.go:146-163 | after an install the node is the fold at the index of the snapshot and holds that snapshot |
| `Replicas.CapturesNow` | internal/fsm/fsm.go:115-128 | a snapshot captures the state and index of its moment |
| `Replicas.PersistsCaptured` | internal/fsm/fsm.go:135-142 | what is written later is that moment, restorable, and does not replace a newer snapshot |
| `Replicas.TruncateKeepsRest` | internal/snapshot/store.go:17-26 | truncation takes entries that a snapshot covers from the front and nothing else |
| `Replicas.NoEffectEverywhere` | internal/fsm/fsm.go:53-60 | an entry that does not decode, or has an unknown operation, changes no replica |
| `Replicas.RestoreNeverFails` | internal/raftnode/raftnode.go:79-103 | in every reachable cluster a stopped node starts if and only if there is no hole in front of its log, so always unless only its log is on disk; no stored snapshot is ever refused |
| `Replicas.HoleStopsNode` | internal/snapshot/store.go:17-26 | a log on disk with snapshots in memory: for every history there is a reachable node that neither starts nor can be recovered until it is wiped |
| `Replicas.RecoveryKeepsApplied` | internal/raftnode/recover.go:37-86 | forced recovery starts a history that contains all the node had applied, ends at the bound, has this node for its only voter and touches no other node |
| `Replicas.RecoverySurvivesIff` | internal/raftnode/recover.go:47-50 | the recovered node starts with that history folded if and only if its snapshot store outlives the process or there is nothing to fold |
| `Replicas.RecoveryCanLoseAll` | internal/raftnode/recover.go:47-77 | for every history there is a reachable node that has applied it, is recovered without an error and starts empty |
| `Replicas.RecoveryIdempotent` | internal/raftnode/recover.go:72-77 | a second recovery is possible at one index only, the bound or, with snapshots in memory, the beginning, and changes nothing on the node but its history's name |
| `Replicas.EveryHistoryIsServed` | internal/raftnode/raftnode.go:98-128 | any sequence of entries can be committed and applied by a run of the step system, on a node with any kind of stores, so the theorems about reachable clusters are not empty |
| `Replicas.RunNoEarlier` | internal/store/store.go:98-107 | within one incarnation a node reads from growing prefixes of one growing history |
| `Replicas.ReadsFollowWrites` | internal/store/store.go:31-69 | after a successful Put every later read of the key in this incarnation gives the last put or delete at or after that entry |
| `Replicas.BrokenKeyNeverRead` | internal/fsm/fsm.go:80-88 | a key outside UTF-8 is found on no replica, ever |
| `Recovery.FileSystem.RemoveAll` | internal/raftnode/recover.go:27 | the subtree goes, or the failure leaves everything outside it alone |
| `Recovery.FileSystem.RemoveEntries` | internal/raftnode/recover.go:26-30 | the loop succeeds if and only if no entry is stuck, and then all are gone |
| `Recovery.FileSystem.Reset` | internal/raftnode/recover.go:18-32 | success if and only if the directory can be read, or does not exist, and nothing below it is stuck; then it is empty and all else is as it was; a directory that cannot be read, or is a file, loses nothing |
| `Recovery.WipeTakesStoresIff` | internal/snapshot/store.go:11-26 | a wipe always takes the log, and takes the snapshots if and only if they are kept below the data directory |
| `Recovery.Stores.RecoverClusterSingle` | internal/raftnode/recover.go:37-86 | with state: one snapshot of what was held, an empty log and one voter, or an error, also of the snapshot store, that changes nothing; without: a bootstrapped single voter |
| `Recovery.SnapshotOf` | internal/raftnode/recover.go:72-77 | the snapshot written is that of the rebuilt state, if and only if the stores are contiguous, decodable and have room |
| `Recovery.Load` | internal/raftnode/recover.go:72-77 | a fresh FSM is filled from snapshot and log up to the bound exactly when these are contiguous and decodable |
| `Recovery.Replayed` | internal/raftnode/recover.go:72-77 | the replay loop folds the commands of the entries and skips the rest |
| `Recovery.RecoveryRestartable` | internal/raftnode/recover.go:72-77 | cut off after any of its writes, recovery can be run again and rebuilds the same state |
| `Metrics.Metrics.ObserveKVOp` | internal/metrics/metrics.go:80-95 | one more operation, one more error if it failed, and exactly one histogram for each of the four operations |
| `Metrics.CountersBoundLog` | internal/metrics/metrics.go:80-95 | over any run, per operation and summed over nodes: operations minus errors <= committed entries <= operations plus calls in flight |
| `Metrics.WholeCall` | internal/store/store.go:31-69 | a whole call can be made in every reachable ledger; it is counted once, as an error if it fails, and logged if it succeeds |
| `Metrics.StillReflects` | internal/metrics/metrics.go:84-87 | counting a call in a node's instruments is tallying it in the ledger |
| `Store.Node.Apply` | internal/raftnode/raftnode.go:126-128 | nil means that the entry is last in the history and all of it is applied here |
| `Store.Store.Submit` | internal/store/store.go:40-49 | a node that does not lead changes nothing; success is one encoded entry, committed and applied |
| `Store.Store.Put` | internal/store/store.go:31-49 | the same for a put, counted once, and as an error exactly when it fails |
| `Store.Store.Delete` | internal/store/store.go:51-69 | the same for a delete |
| `Store.PutInLedger` | internal/store/store.go:31-49 | a put does to the node's counters and to the history what one whole call does in a reachable ledger of the cluster |
| `Store.DeleteInLedger` | internal/store/store.go:51-69 | the same for a delete |
| `Store.Store.AddPeer` | internal/store/store.go:71-83 | the same for a peer record, not counted |
| `Store.Store.RemovePeer` | internal/store/store.go:85-96 | the same for its removal |
| `Store.Store.Get` | internal/store/store.go:98-107 | the local value at the applied index, in a fresh buffer, counted once |
| `Store.Store.List` | internal/store/store.go:109-116 | the local entries under the prefix, in fresh buffers, counted once |
| `Store.PutThenGet` | internal/store/store.go:31-107 | a successful put is read back if and only if the key is valid UTF-8, and then with its value |
| `Store.ReadBack` | internal/fsm/fsm.go:61-88 | the same for the machine after any log |
| `Addresses.PeerHTTPAddrs` | internal/raftnode/raftnode.go:177-190 | for every order of the peer map: the static addresses overridden by the dynamic ones, none of them empty |
| `Addresses.FullStatus` | internal/api/api.go:146-168 | one line for this node and one for each other entry of the book, whatever it holds and in any order |
| `Addresses.StatusOfReplica` | internal/raftnode/raftnode.go:177-190 | whatever log bytes the FSM has applied, in whatever order it lists its peers: one outcome, every peer of the book under its address, none reported as not configured |
| `Addresses.HTTPAddrForRaft` | internal/raftnode/raftnode.go:196-208 | static peers first; the first match decides, even without an HTTP address |
| `Addresses.OrderIrrelevantIff` | internal/raftnode/raftnode.go:202-206 | the answer is the same for every order if and only if the address is static or its dynamic claimants agree |
| `Addresses.OrderCanShow` | internal/api/api.go:202-257 | whatever is configured, membership requests can leave two claimants of a raft address that is not, and then the answer depends on the order |
| `Addresses.DistinctAddressesSuffice` | internal/raftnode/raftnode.go:202-206 | in particular when dynamic raft addresses are pairwise distinct |
| `Addresses.LookupsAgree` | internal/raftnode/raftnode.go:177-208 | when ids and addresses each determine an entry with an HTTP address, both look-ups give that address |
| `Addresses.RedirectCases` | internal/api/api.go:289-304 | no redirect without a leader; with one the first peer at its raft address decides, and that address stands in where there is no HTTP address |
| `Addresses.OneHop` | internal/api/api.go:289-314 | with one agreed leader in such books, every node passes a request to it in at most one redirect |
| `Membership.StateIsReplicated` | internal/fsm/fsm.go:52-78 | the records here are those every replica of the cluster owes after the same raft history |
| `Membership.StepKeepsInv` | internal/api/api.go:202-257 | every step of overlapping requests keeps each of them at its place in the history |
| `Membership.RecordsFollowVoters` | internal/api/api.go:216-229 | in every run a recorded peer is preceded by an entry of the same request that made that id a voter at that address |
| `Membership.PeersWereVoters` | internal/api/api.go:216-229 | so every record on any replica belongs to an id that was a voter at its address |
| `Membership.PeerIsLastRecord` | internal/fsm/fsm.go:68-73 | a record is what its last writer wrote |
| `Membership.VoterIsLastChange` | internal/raftnode/raftnode.go:146-154 | an id is a voter if and only if it was added last, or was there and never touched |
| `Membership.RecordWriter` | internal/store/store.go:74-96 | only a join writes a record, its own, and only a join or removal of the id touches it |
| `Membership.FailedMayCommit` | internal/api/api.go:216-252 | in every reachable system the entry of a half that failed is in the history or can still be committed, and it is the one its request proposed |
| `Membership.CoveredStep` | internal/api/api.go:216-252 | exactly which entries keep every recorded peer a voter |
| `Membership.UncoveredIff` | internal/api/api.go:202-257 | at any time in any run, whatever has failed: a recorded peer is no voter if and only if the last change of the voter is a removal, after a join, and that join wrote the record after anything the removal did to it |
| `Membership.CrossedWhenFinished` | internal/api/api.go:202-257 | when both have succeeded the removal fell wholly between the two halves of the join |
| `Membership.OneAtATime` | internal/api/api.go:202-257 | requests that do not overlap and succeed keep every recorded peer a voter |
| `Membership.OverlapBreaks` | internal/api/api.go:216-252 | for every id there is a run of two successful requests after which it is recorded but no voter |
| `Membership.RejoinAgreesIff` | internal/api/api.go:223-228 | after an undisturbed join the record and the voters agree on the address if and only if an HTTP address came along, or there was no record, or it said so already |
| `Membership.DisagreeIff` | internal/api/api.go:202-231 | at any time in any run a voter's record has another address than raft if and only if the last to write it and the last to change the voter are joins at different addresses, and what the second wrote came before |
| `Membership.DisagreeOneAtATime` | internal/api/api.go:202-231 | when requests do not overlap and succeed, the second is a join without an HTTP address |
| `Membership.StaleRecord` | internal/api/api.go:223-228 | a run of two joins, both successful, after which record and voters disagree on the address |
| `Membership.AddressTakenOver` | internal/api/api.go:202-257 | a run after which two records claim the address of one voter |
| `Membership.MemberBodyValid` | internal/api/api.go:196-200 | strings of an accepted request body are valid UTF-8 |
| `Membership.MemberBodyIff` | internal/api/api.go:213-216 | a body is taken for an id and two addresses if and only if it starts with a text of null, for empty ones, or of an object whose last members named id, addr and httpAddr say them |
| `Membership.MemberBodyOf` | internal/api/api.go:196-200 | a body with the members id, addr and, or not, httpAddr, in any order, with any blanks and in any spelling, is read as exactly these |
| `Membership.Leader.Admit` | internal/api/api.go:203-215 | method, leader and body are checked in this order, each with its own reply |
| `Membership.Leader.HandleJoin` | internal/api/api.go:202-231 | a refused request changes nothing; an admitted one is a run of the step system that ends done, or stopped at the half that failed |
| `Membership.Leader.HandleRemove` | internal/api/api.go:232-257 | the same for a removal, which always has a second half |
| `Membership.Leader.Await` | internal/raftnode/raftnode.go:146-154 | one future: its half is committed, or the request is marked as stopped there, whatever others do meanwhile |
| `Decimal.PlainNumeral` | internal/config/types.go:57 | a numeral with sign and point means its digits over a power of ten |
| `Decimal.NumeralIff` | internal/config/types.go:57 | without an exponent a text is a number if and only if it is a sign or none and digits with at most one point among them |
| `Decimal.ExponentNumeral` | internal/config/types.go:57 | an exponent, with or without a sign, moves the point |
| `Decimal.TruncatedIs` | internal/config/types.go:73 | the product with a unit, truncated toward zero, stated without division |
| `Decimal.StripKeepsValue` | internal/config/types.go:86 | dropping trailing zeros of a fraction keeps every multiple of it |
| `Size.ParseSize` | internal/config/types.go:43-74 | the scan computes the reading that the lemmas below are about |
| `Size.UnitNames` | internal/config/types.go:61-73 | the fourteen names in every letter case, the dotless i counting as an i, and their five factors, written out; no other suffix is a unit |
| `Size.SplitUnique` | internal/config/types.go:48-56 | a size splits into numeral and suffix in one way, and the scan finds it |
| `Size.ParsedIff` | internal/config/types.go:43-74 | accepted with a value if and only if the text splits into a plain numeral and the name of a unit, and the value is their product truncated toward zero |
| `Size.SizeMeans` | internal/config/types.go:57-73 | the value is numeral times unit truncated toward zero, stated without division |
| `Size.PrintParse` | internal/config/types.go:61-73 | reading inverts writing a size in any unit that divides it, under every alias in every case |
| `Size.MegabytesOfPrinted` | internal/config/types.go:41 | writing whole megabytes and reading them back through Megabytes gives their number |
| `Size.Megabytes` | internal/config/types.go:41 | the floor of bytes over 1024 squared for sizes that are not negative, the ceiling for others |
| `Duration.RewriteTerms` | internal/config/types.go:82-88 | day terms become hour terms one by one; boundaries and all other terms stay |
| `Duration.UnitNames` | internal/config/types.go:88 | the standard units by name, in nanoseconds |
| `Duration.DayNames` | internal/config/types.go:76-78 | the day units are d, day and days in any letter case, the long s counting as an s, and no other text |
| `Duration.KnownUnit` | internal/config/types.go:76-89 | every numeral that starts with a digit, behind a sign or none, and a standard unit or a day after any blanks: the truncated product, with 86400 seconds to the day |
| `Duration.UnknownUnit` | internal/config/types.go:76-89 | behind such a numeral nothing else is a unit |
| `Duration.HoursKeepTime` | internal/config/types.go:85-86 | a rewritten term lasts as long as it did |
| `Duration.ReadTerms` | internal/config/types.go:88 | the loop of time.ParseDuration adds terms up and fails exactly when the sum leaves the range |
| `Duration.DaysAreHours` | internal/config/types.go:82-89 | any sequence of terms with digit-led numerals, days in any case among them, is read as its sum with 24 hours to the day, or refused exactly when it does not fit |
| `Duration.RewriteUnchangedIff` | internal/config/types.go:82-87 | a text stays as it is if and only if no day term starts anywhere in it |
| `Duration.PointDays` | internal/config/types.go:80 | what becomes of a day numeral that starts with a point |
| `Duration.PointDaysIff` | internal/config/types.go:80-86 | it is read right if and only if its digits are zero or hours have as many digits as days |
| `Duration.BothAreZero` | internal/config/types.go:95-106 | a text that is both a duration and a numeral is zero in both readings |
| `Duration.NumeralsAreSeconds` | internal/config/types.go:95-106 | every bare numeral is decoded as that many seconds, truncated to nanoseconds |

## Left out

- Election, replication and commit rules of hashicorp/raft: assumed, as listed above.
- New, BootstrapCluster and Shutdown beyond the order of restore and replay: configuration passed through to the library.
- BoltDB, the file snapshot store, transports, retention and snapshot thresholds: library behaviour.
- HTTP serving, JSON responses, fetching of peer status, key derivation in handleKV, timeouts, logging: I/O and single branches.
- Prometheus registration, collectors, StatusMap and the HTTP middleware: plumbing.
- YAML decoding and configuration checks, and the second stage of both UnmarshalYAML methods for nodes that are no strings: yaml.v3 turns every scalar into a string first.
- Float64 rounding in sizes and durations: numerals are exact, so the last nanosecond of a fraction such as 0.1d can differ from the program's.
- Hexadecimal numerals, underscores, infinities and NaN in strconv.ParseFloat, and the limit on fraction digits in time.ParseDuration.
- Size.SizeMeans: values beyond an int64 are only said to be out of range, because Go leaves the conversion open.
- Duration.NumeralsAreSeconds: the same.
- Codec.DecodedStringsValid: JSON arrays as byte values are modelled, except that a null element inside a second `value` member keeps the byte of the first one in Go and is zero here.
- Store.Node.Apply: the order of commits and local applies within a successful call is fixed to the one raft promises; failures say nothing about what is committed later.
- Replicas.RecoveryKeepsApplied: entries that other nodes had applied and this one did not hold are lost, as the code warns.
- Membership.OneAtATime: runs with forced recovery are not covered, because recovery drops voters without touching records.
- Membership.StepKeepsInv: that raft refuses some membership changes, such as the removal of the last voter, appears only as a failed future.
- Mutex.Linearizable: waiting and fairness of the RWMutex are not modelled, and the map a reader ranges over is the one it locked.
- Recovery.Stores.RecoverClusterSingle: only the newest snapshot is kept; raft would fall back to an older one if it did not restore, which `Replicas.RestoreNeverFails` shows not to happen to a reachable node.
- Fsm.FSM.Peers: the returned slice is a value, since no caller writes into it.
- Recovery.FileSystem.RemoveAll: a failed removal may leave any part of the subtree.
