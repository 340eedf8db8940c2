/** The address book of a node: static peers from its configuration, dynamic peers from the FSM, in whatever
    order the runtime lists a map. What the two look-ups return, and when the order shows. */
module Addresses {
  import opened Wrappers
  import opened Utf8
  import opened Machine
  import opened SnapshotCodec
  import opened Fsm
  import Membership

  type Addr = Bytes

  // ----- PeerHTTPAddrs ---------------------------------------------------------------------------

  /** The configured HTTP addresses by id; the last entry of an id that has one counts. */
  function StaticAddrs(peers: seq<Peer>): map<Bytes, Addr> {
    if peers == [] then map[] else
      var p := peers[|peers| - 1];
      var rest := StaticAddrs(peers[..|peers| - 1]);
      if p.httpAddr != [] then rest[p.id := p.httpAddr] else rest
  }

  /** The HTTP addresses of a replicated peer map. */
  function DynamicAddrs(peers: map<Bytes, Peer>): map<Bytes, Addr> {
    map id | id in peers && peers[id].httpAddr != [] :: peers[id].httpAddr
  }

  /** One result for every listing of the dynamic peers: the static addresses overridden by the dynamic ones. */
  method PeerHTTPAddrs(configured: seq<Peer>, dynamic: seq<Peer>, ghost ids: seq<Bytes>, ghost peers: map<Bytes, Peer>)
    returns (out: map<Bytes, Addr>)
    requires Lists(dynamic, ids, peers) && Indexed(peers)
    ensures out == StaticAddrs(configured) + DynamicAddrs(peers)
    ensures forall id :: id in out ==> out[id] != []
  {
    out := map[];
    for i := 0 to |configured|
      invariant out == StaticAddrs(configured[..i])
    {
      StaticAddrsStep(configured, i);
      if configured[i].httpAddr != [] {
        out := out[configured[i].id := configured[i].httpAddr];
      }
    }
    assert configured[..|configured|] == configured;
    ghost var base := out;
    for i := 0 to |dynamic|
      invariant out == base + Listed(ids[..i], peers)
    {
      ListedStep(base, dynamic, ids, peers, i);
      if dynamic[i].httpAddr != [] {
        out := out[dynamic[i].id := dynamic[i].httpAddr];
      }
    }
    AllListed(dynamic, ids, peers);
    StaticAddrsNonEmpty(configured);
  }

  lemma StaticAddrsStep(peers: seq<Peer>, i: nat)
    requires i < |peers|
    ensures StaticAddrs(peers[..i + 1]) == Noted(StaticAddrs(peers[..i]), peers[i])
  {
    assert peers[..i + 1][..i] == peers[..i];
  }

  function Noted(book: map<Bytes, Addr>, p: Peer): map<Bytes, Addr> {
    if p.httpAddr != [] then book[p.id := p.httpAddr] else book
  }

  /** The dynamic addresses of some ids only. */
  function Listed(ids: seq<Bytes>, peers: map<Bytes, Peer>): map<Bytes, Addr> {
    map id | id in ids && id in peers && peers[id].httpAddr != [] :: peers[id].httpAddr
  }

  lemma ListedStep(base: map<Bytes, Addr>, dynamic: seq<Peer>, ids: seq<Bytes>, peers: map<Bytes, Peer>, i: nat)
    requires Lists(dynamic, ids, peers) && Indexed(peers) && i < |dynamic|
    ensures base + Listed(ids[..i + 1], peers) == Noted(base + Listed(ids[..i], peers), dynamic[i])
  {
    assert ids[..i + 1] == ids[..i] + [ids[i]];
    assert dynamic[i] == peers[ids[i]];
    assert ids[i] in peers;
  }

  lemma AllListed(dynamic: seq<Peer>, ids: seq<Bytes>, peers: map<Bytes, Peer>)
    requires Lists(dynamic, ids, peers)
    ensures Listed(ids[..|dynamic|], peers) == DynamicAddrs(peers)
  {
    assert ids[..|dynamic|] == ids;
    forall id ensures id in ids <==> id in peers {
      assert id in multiset(ids) <==> id in multiset(peers.Keys);
    }
  }

  lemma {:induction false} StaticAddrsNonEmpty(peers: seq<Peer>)
    ensures forall id :: id in StaticAddrs(peers) ==> StaticAddrs(peers)[id] != []
  {
    if peers != [] {
      StaticAddrsNonEmpty(peers[..|peers| - 1]);
    }
  }

  /** One line of the full status. */
  datatype Line = Self | NotConfigured | Asked(addr: Addr)

  function LineOf(self: Bytes, book: map<Bytes, Addr>, id: Bytes): Line {
    if id == self || id !in book then Self else if book[id] == [] then NotConfigured else Asked(book[id])
  }

  /** handleFullStatus: this node, and every other node of the book by its address, in whatever order. */
  method FullStatus(self: Bytes, book: map<Bytes, Addr>) returns (nodes: map<Bytes, Line>)
    ensures nodes == map id | id in book.Keys + {self} :: LineOf(self, book, id)
  {
    nodes := map[self := Self];
    var todo := book.Keys;
    while todo != {}
      invariant todo <= book.Keys
      invariant nodes == map id | id in (book.Keys - todo) + {self} :: LineOf(self, book, id)
      decreases todo
    {
      var id :| id in todo;
      if id != self {
        nodes := nodes[id := if book[id] == [] then NotConfigured else Asked(book[id])];
      }
      todo := todo - {id};
    }
  }

  /** The book of a node whose FSM has applied some log. */
  function BookAfter(configured: seq<Peer>, log: seq<Bytes>): map<Bytes, Addr> {
    StaticAddrs(configured) + DynamicAddrs(Replay(EMPTY, log).peers)
  }

  /** Whatever log bytes the FSM has applied and in whatever order it lists its peers, the status has one outcome:
      each peer of the book under its address, and none reported as not configured. */
  method StatusOfReplica(f: FSM, ghost log: seq<Bytes>, configured: seq<Peer>, self: Bytes) returns (nodes: map<Bytes, Line>)
    requires f.View() == Replay(EMPTY, log)
    ensures var book := BookAfter(configured, log);
            nodes == map id | id in book.Keys + {self} :: if id == self then Self else Asked(book[id])
    ensures forall id :: id in nodes ==> !nodes[id].NotConfigured? && (nodes[id].Asked? ==> nodes[id].addr != [])
  {
    hide Replay;
    ReplayWellFormed(EMPTY, log);
    var dynamic := f.Peers();
    ghost var ids :| Lists(dynamic, ids, f.peers.m);
    var book := PeerHTTPAddrs(configured, dynamic, ids, f.peers.m);
    nodes := FullStatus(self, book);
  }

  // ----- HTTPAddrForRaft -------------------------------------------------------------------------

  predicate Knows(peers: seq<Peer>, addr: Addr) {
    exists i :: 0 <= i < |peers| && peers[i].addr == addr
  }

  /** The HTTP address of the first peer with the raft address, or empty. */
  function FirstFor(peers: seq<Peer>, addr: Addr): Addr {
    if peers == [] then [] else if peers[0].addr == addr then peers[0].httpAddr else FirstFor(peers[1..], addr)
  }

  /** Static peers are looked at first, and the first match decides even if it has no HTTP address. */
  function Resolve(configured: seq<Peer>, dynamic: seq<Peer>, addr: Addr): Addr {
    if Knows(configured, addr) then FirstFor(configured, addr) else FirstFor(dynamic, addr)
  }

  lemma {:induction false} FirstForAt(peers: seq<Peer>, i: nat)
    requires i < |peers| && forall j :: 0 <= j < i ==> peers[j].addr != peers[i].addr
    ensures FirstFor(peers, peers[i].addr) == peers[i].httpAddr
  {
    if i > 0 {
      FirstForAt(peers[1..], i - 1);
    }
  }

  lemma {:induction false} FirstForNone(peers: seq<Peer>, addr: Addr)
    requires !Knows(peers, addr)
    ensures FirstFor(peers, addr) == []
  {
    if peers != [] {
      assert peers[0].addr != addr;
      forall i | 0 <= i < |peers[1..]| ensures peers[1..][i].addr != addr {
        assert peers[i + 1].addr != addr;
      }
      FirstForNone(peers[1..], addr);
    }
  }

  method HTTPAddrForRaft(configured: seq<Peer>, dynamic: seq<Peer>, addr: Addr) returns (http: Addr)
    ensures http == Resolve(configured, dynamic, addr)
  {
    for i := 0 to |configured|
      invariant forall j :: 0 <= j < i ==> configured[j].addr != addr
    {
      if configured[i].addr == addr {
        FirstForAt(configured, i);
        return configured[i].httpAddr;
      }
    }
    for i := 0 to |dynamic|
      invariant forall j :: 0 <= j < i ==> dynamic[j].addr != addr
    {
      if dynamic[i].addr == addr {
        FirstForAt(dynamic, i);
        return dynamic[i].httpAddr;
      }
    }
    FirstForNone(dynamic, addr);
    return [];
  }

  /** All dynamic peers with this raft address have one HTTP address. */
  predicate Unambiguous(peers: map<Bytes, Peer>, addr: Addr) {
    forall a, b :: a in peers && b in peers && peers[a].addr == addr && peers[b].addr == addr ==> peers[a].httpAddr == peers[b].httpAddr
  }

  /** A listing answers with some dynamic peer of that raft address, or with nothing when there is none. */
  lemma {:induction false} FirstForIsFound(peers: seq<Peer>, addr: Addr)
    ensures Knows(peers, addr) ==> exists i :: 0 <= i < |peers| && peers[i].addr == addr && FirstFor(peers, addr) == peers[i].httpAddr
  {
    if Knows(peers, addr) && peers[0].addr != addr {
      var k :| 0 <= k < |peers| && peers[k].addr == addr;
      assert peers[1..][k - 1].addr == addr;
      FirstForIsFound(peers[1..], addr);
      var i :| 0 <= i < |peers[1..]| && peers[1..][i].addr == addr && FirstFor(peers[1..], addr) == peers[1..][i].httpAddr;
      assert peers[i + 1].addr == addr;
    } else if Knows(peers, addr) {
      assert FirstFor(peers, addr) == peers[0].httpAddr;
    }
  }

  lemma ListedMembers(dynamic: seq<Peer>, ids: seq<Bytes>, peers: map<Bytes, Peer>)
    requires Lists(dynamic, ids, peers)
    ensures forall id :: id in peers ==> exists i :: 0 <= i < |dynamic| && ids[i] == id && dynamic[i] == peers[id]
  {
    forall id | id in peers ensures exists i :: 0 <= i < |dynamic| && ids[i] == id && dynamic[i] == peers[id] {
      assert id in multiset(ids);
      var i :| 0 <= i < |ids| && ids[i] == id;
      assert dynamic[i] == peers[id];
    }
  }

  lemma {:induction false} SortedIsPermutation(s: set<Bytes>)
    ensures multiset(Sorted(s)) == multiset(s)
  {
    if s != {} {
      var k := Least(s);
      SortedIsPermutation(s - {k});
      assert s == (s - {k}) + {k};
    }
  }

  /** Any peer can come first in a listing. */
  lemma ListingFrom(peers: map<Bytes, Peer>, id: Bytes) returns (dynamic: seq<Peer>, ids: seq<Bytes>)
    requires id in peers
    ensures Lists(dynamic, ids, peers) && dynamic != [] && dynamic[0] == peers[id]
  {
    var rest := peers.Keys - {id};
    SortedIsPermutation(rest);
    ids := [id] + Sorted(rest);
    assert peers.Keys == rest + {id};
    assert multiset(ids) == multiset(peers.Keys);
    forall i | 0 <= i < |ids| ensures ids[i] in peers {
      assert ids[i] in multiset(ids);
    }
    dynamic := seq(|ids|, i requires 0 <= i < |ids| => peers[ids[i]]);
  }

  /** Do all listings of the dynamic peers resolve the address alike? */
  ghost predicate OrderIrrelevant(configured: seq<Peer>, peers: map<Bytes, Peer>, addr: Addr) {
    forall d, i, e, j :: Lists(d, i, peers) && Lists(e, j, peers) ==> Resolve(configured, d, addr) == Resolve(configured, e, addr)
  }

  /** The listing order shows exactly when the address is not configured and two dynamic peers that claim it
      have different HTTP addresses. */
  lemma OrderIrrelevantIff(configured: seq<Peer>, peers: map<Bytes, Peer>, addr: Addr)
    ensures OrderIrrelevant(configured, peers, addr) <==> Knows(configured, addr) || Unambiguous(peers, addr)
  {
    if !Knows(configured, addr) {
      if Unambiguous(peers, addr) {
        forall d, i, e, j | Lists(d, i, peers) && Lists(e, j, peers) ensures FirstFor(d, addr) == FirstFor(e, addr) {
          UnambiguousAgree(d, i, e, j, peers, addr);
        }
      } else {
        var a, b :| a in peers && b in peers && peers[a].addr == addr && peers[b].addr == addr && peers[a].httpAddr != peers[b].httpAddr;
        var d, i := ListingFrom(peers, a);
        var e, j := ListingFrom(peers, b);
        assert Resolve(configured, d, addr) != Resolve(configured, e, addr);
      }
    }
  }

  lemma UnambiguousAgree(d: seq<Peer>, i: seq<Bytes>, e: seq<Peer>, j: seq<Bytes>, peers: map<Bytes, Peer>, addr: Addr)
    requires Lists(d, i, peers) && Lists(e, j, peers) && Unambiguous(peers, addr)
    ensures FirstFor(d, addr) == FirstFor(e, addr)
  {
    ListedMembers(d, i, peers);
    ListedMembers(e, j, peers);
    FirstForIsFound(d, addr);
    FirstForIsFound(e, addr);
    if !Knows(d, addr) { FirstForNone(d, addr); }
    if !Knows(e, addr) { FirstForNone(e, addr); }
    if Knows(d, addr) {
      var x :| 0 <= x < |d| && d[x].addr == addr;
      var y :| 0 <= y < |e| && j[y] == i[x] && e[y] == peers[i[x]];
      assert e[y].addr == addr;
    }
    if Knows(e, addr) {
      var x :| 0 <= x < |e| && e[x].addr == addr;
      var y :| 0 <= y < |d| && i[y] == j[x] && d[y] == peers[j[x]];
      assert d[y].addr == addr;
    }
  }

  /** In particular when dynamic raft addresses are pairwise distinct. */
  lemma DistinctAddressesSuffice(configured: seq<Peer>, peers: map<Bytes, Peer>, addr: Addr)
    requires forall a, b :: a in peers && b in peers && peers[a].addr == peers[b].addr ==> a == b
    ensures OrderIrrelevant(configured, peers, addr)
  {
    OrderIrrelevantIff(configured, peers, addr);
  }

  /** It can show for every address that is not configured: membership requests can leave two claimants of it. */
  lemma OrderCanShow(configured: seq<Peer>, a: Peer, b: Peer)
    requires !Knows(configured, a.addr)
    requires ValidPeer(a) && ValidPeer(b) && a.id != [] && b.id != [] && a.id != b.id && a.addr == b.addr
    requires a.httpAddr != [] && b.httpAddr != [] && a.httpAddr != b.httpAddr
    ensures exists s :: Membership.Reachable(s) && !OrderIrrelevant(configured, Membership.Peers(s.log), a.addr)
  {
    hide Membership.Reachable, Membership.Peers;
    var s := Membership.AddressTakenOver(Membership.Join(a.id, a.addr, a.httpAddr), Membership.Join(b.id, b.addr, b.httpAddr));
    var peers := Membership.Peers(s.log);
    assert a.id in peers && b.id in peers && peers[a.id] == a && peers[b.id] == b;
    OrderIrrelevantIff(configured, peers, a.addr);
  }

  // ----- One book --------------------------------------------------------------------------------

  predicate Entry(configured: seq<Peer>, peers: map<Bytes, Peer>, p: Peer) {
    p in configured || (p.id in peers && peers[p.id] == p)
  }

  /** Ids and raft addresses each determine an entry, wherever it stands, and every entry has an HTTP address. */
  ghost predicate OneBook(configured: seq<Peer>, peers: map<Bytes, Peer>) {
    && (forall p, q :: Entry(configured, peers, p) && Entry(configured, peers, q) && (p.id == q.id || p.addr == q.addr) ==> p == q)
    && (forall p :: Entry(configured, peers, p) ==> p.httpAddr != [])
  }

  /** Then the two look-ups agree on every entry. */
  lemma LookupsAgree(configured: seq<Peer>, dynamic: seq<Peer>, ids: seq<Bytes>, peers: map<Bytes, Peer>, p: Peer)
    requires Lists(dynamic, ids, peers) && Indexed(peers) && OneBook(configured, peers) && Entry(configured, peers, p)
    ensures var book := StaticAddrs(configured) + DynamicAddrs(peers);
            p.id in book && book[p.id] == p.httpAddr == Resolve(configured, dynamic, p.addr)
  {
    hide FirstFor;
    ListedMembers(dynamic, ids, peers);
    FirstForIsFound(configured, p.addr);
    FirstForIsFound(dynamic, p.addr);
    if Knows(configured, p.addr) {
      var i :| 0 <= i < |configured| && configured[i].addr == p.addr && FirstFor(configured, p.addr) == configured[i].httpAddr;
      assert Entry(configured, peers, configured[i]);
    } else {
      var k :| 0 <= k < |dynamic| && ids[k] == p.id && dynamic[k] == peers[p.id];
      assert Knows(dynamic, p.addr);
      var i :| 0 <= i < |dynamic| && dynamic[i].addr == p.addr && FirstFor(dynamic, p.addr) == dynamic[i].httpAddr;
      assert Entry(configured, peers, dynamic[i]);
    }
    if p in configured {
      forall q | q in configured && q.id == p.id ensures q == p {
        assert Entry(configured, peers, q);
      }
      StaticAddrsOf(configured, p);
    }
    if p.id in peers {
      assert Entry(configured, peers, peers[p.id]);
    }
  }

  lemma {:induction false} StaticAddrsOf(configured: seq<Peer>, p: Peer)
    requires p in configured && p.httpAddr != [] && forall q :: q in configured && q.id == p.id ==> q == p
    ensures p.id in StaticAddrs(configured) && StaticAddrs(configured)[p.id] == p.httpAddr
  {
    var n := |configured| - 1;
    if configured[n] != p {
      assert p in configured[..n];
      StaticAddrsOf(configured[..n], p);
    }
  }

  // ----- Redirects -------------------------------------------------------------------------------

  datatype Reply = Unavailable | Redirected(to: Addr)

  /** 503 without a known leader; else 307 to its HTTP address, or to the raft address if that is all there is. */
  function RedirectToLeader(configured: seq<Peer>, dynamic: seq<Peer>, leader: Addr): Reply {
    if leader == [] then Unavailable else
      var http := Resolve(configured, dynamic, leader);
      Redirected(if http == [] then leader else http)
  }

  /** Without a known leader there is no redirect; with one, the first static or dynamic peer at its raft address
      decides, and the raft address stands in when there is no such peer or it has no HTTP address. */
  lemma RedirectCases(configured: seq<Peer>, dynamic: seq<Peer>, leader: Addr)
    ensures var all, r := configured + dynamic, RedirectToLeader(configured, dynamic, leader);
            && (leader == [] <==> r == Unavailable)
            && (leader != [] && (forall p :: p in all ==> p.addr != leader) ==> r == Redirected(leader))
            && (forall i :: 0 <= i < |all| && leader != [] && all[i].addr == leader && (forall j :: 0 <= j < i ==> all[j].addr != leader)
                  ==> r == Redirected(if all[i].httpAddr == [] then leader else all[i].httpAddr))
  {
    var all := configured + dynamic;
    ResolveIsFirst(configured, dynamic, leader);
    if forall p :: p in all ==> p.addr != leader {
      FirstForNone(all, leader);
    }
    forall i | 0 <= i < |all| && all[i].addr == leader && (forall j :: 0 <= j < i ==> all[j].addr != leader)
      ensures FirstFor(all, leader) == all[i].httpAddr
    {
      FirstForAt(all, i);
    }
  }

  lemma {:induction false} ResolveIsFirst(configured: seq<Peer>, dynamic: seq<Peer>, addr: Addr)
    ensures Resolve(configured, dynamic, addr) == FirstFor(configured + dynamic, addr)
  {
    if configured == [] {
      assert configured + dynamic == dynamic;
    } else {
      assert (configured + dynamic)[1..] == configured[1..] + dynamic;
      ResolveIsFirst(configured[1..], dynamic, addr);
    }
  }

  /** A node as requests meet it. */
  datatype View = View(raft: Addr, leads: bool, leaderSeen: Addr, configured: seq<Peer>, dynamic: seq<Peer>)

  /** How many redirects a client follows until a leader serves its write or consistent read. */
  function Hops(nodes: map<Addr, View>, at: Addr, patience: nat): Option<nat>
    decreases patience
  {
    if at !in nodes then None
    else if nodes[at].leads then Some(0)
    else if patience == 0 then None
    else match RedirectToLeader(nodes[at].configured, nodes[at].dynamic, nodes[at].leaderSeen)
      case Unavailable => None
      case Redirected(to) =>
        match Hops(nodes, to, patience - 1)
        case None => None
        case Some(n) => Some(n + 1)
  }

  /** With one agreed leader and books that hold its entry, any node sends a request to it in at most one hop. */
  lemma OneHop(nodes: map<Addr, View>, at: Addr, leader: Peer, ids: seq<Bytes>, peers: map<Bytes, Peer>)
    requires at in nodes && leader.httpAddr in nodes && nodes[leader.httpAddr].leads && leader.addr != []
    requires nodes[at].leaderSeen == leader.addr
    requires Lists(nodes[at].dynamic, ids, peers) && Indexed(peers)
    requires OneBook(nodes[at].configured, peers) && Entry(nodes[at].configured, peers, leader)
    ensures Hops(nodes, at, 1) == Some(if nodes[at].leads then 0 else 1)
  {
    LookupsAgree(nodes[at].configured, nodes[at].dynamic, ids, peers, leader);
    assert Entry(nodes[at].configured, peers, leader);
    assert Hops(nodes, leader.httpAddr, 0) == Some(0);
  }
}
