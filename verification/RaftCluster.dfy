/** A cluster of `RaftNode`s exchanging messages over a network that may lose and reorder packets but
    delivers each packet at most once: its steps and runs, and the invariant its steps keep. A heartbeat
    overwrites the receiver's vote inside a term (src/raft.cpp:133), so the invariant allows a second
    vote in a term, but only for the leader that the term already has. */
module RaftCluster {
  import opened Raft

  // The network knows where a packet comes from; the handlers see the message only.
  datatype Packet =
    | VotePacket(src: int, dst: int, req: RequestVote)
    | ReplyPacket(src: int, dst: int, reply: RequestVoteReply)
    | BeatPacket(src: int, dst: int, ae: AppendEntries)

  type Nodes = map<int, NodeState>

  datatype Cluster = Cluster(nodes: Nodes, net: multiset<Packet>)

  datatype Action =
    | Elect(node: int, nowMs: nat, timeoutMs: nat)
    | ClockTick(node: int, nowMs: nat, timeoutMs: nat)
    | Deliver(packet: Packet, nowMs: nat)
    | Lose(packet: Packet)

  function Range<T>(s: seq<T>): set<T> {
    set x | x in s
  }

  predicate Distinct<T(==)>(s: seq<T>) {
    forall i, j :: 0 <= i < j < |s| ==> s[i] != s[j]
  }

  // Every node knows all the others as its peers, each once; no id is the "no vote" mark.
  ghost predicate Configured(nodes: Nodes) {
    && NO_VOTE !in nodes
    && forall n :: n in nodes ==>
         && nodes[n].id == n
         && Distinct(nodes[n].peers)
         && Range(nodes[n].peers) == nodes.Keys - {n}
  }

  ghost predicate Init(c: Cluster) {
    && Configured(c.nodes)
    && (forall n :: n in c.nodes ==> c.nodes[n] == InitNode(n, c.nodes[n].peers, c.nodes[n].electionTimeoutMs))
    && c.net == multiset{}
  }

  ghost function VoteBroadcast(from: int, peers: set<int>, rv: RequestVote): multiset<Packet> {
    multiset(set p | p in peers :: VotePacket(from, p, rv))
  }

  ghost function BeatBroadcast(from: int, peers: set<int>, ae: AppendEntries): multiset<Packet> {
    multiset(set p | p in peers :: BeatPacket(from, p, ae))
  }

  ghost function Send(from: NodeState, out: Outgoing): multiset<Packet> {
    match out
    case Silence => multiset{}
    case Campaign(rv) => VoteBroadcast(from.id, Range(from.peers), rv)
    case Beat(ae) => BeatBroadcast(from.id, Range(from.peers), ae)
  }

  ghost predicate Enabled(c: Cluster, a: Action) {
    match a
    case Elect(n, _, _) => n in c.nodes
    case ClockTick(n, _, _) => n in c.nodes
    case Deliver(p, _) => p in c.net && p.dst in c.nodes
    case Lose(p) => p in c.net
  }

  ghost function Next(c: Cluster, a: Action): Cluster
    requires Enabled(c, a)
  {
    match a
    case Elect(n, now, timeout) =>
      var s := StartElection(c.nodes[n], now, timeout);
      Cluster(c.nodes[n := s], c.net + Send(s, Campaign(VoteRequestOf(s))))
    case ClockTick(n, now, timeout) =>
      var (s, out) := Tick(c.nodes[n], now, timeout);
      Cluster(c.nodes[n := s], c.net + Send(s, out))
    case Deliver(VotePacket(src, dst, req), now) =>
      var (s, rep) := OnRequestVote(c.nodes[dst], req, now);
      Cluster(c.nodes[dst := s], c.net - multiset{a.packet} + multiset{ReplyPacket(dst, src, rep)})
    case Deliver(ReplyPacket(src, dst, reply), now) =>
      Cluster(c.nodes[dst := OnRequestVoteReply(c.nodes[dst], reply, now)], c.net - multiset{a.packet})
    case Deliver(BeatPacket(src, dst, ae), now) =>
      Cluster(c.nodes[dst := OnAppendEntries(c.nodes[dst], ae, now)], c.net - multiset{a.packet})
    case Lose(p) => c.(net := c.net - multiset{p})
  }

  ghost predicate IsRun(run: seq<Cluster>, actions: seq<Action>) {
    && |run| == |actions| + 1
    && Init(run[0])
    && forall i :: 0 <= i < |actions| ==> Enabled(run[i], actions[i]) && run[i + 1] == Next(run[i], actions[i])
  }

  predicate Leads(c: Cluster, n: int, term: nat) {
    n in c.nodes && c.nodes[n].role == Leader && c.nodes[n].term == term
  }

  datatype Grant = Grant(term: nat, voter: int, candidate: int)

  // The vote that a step casts: a campaigning node's for itself, or one granted on request.
  ghost predicate Casts(c: Cluster, a: Action, g: Grant) {
    && Enabled(c, a)
    && match a
       case Elect(n, _, _) => g == Grant(c.nodes[n].term + 1, n, n)
       case ClockTick(n, now, timeout) =>
         Tick(c.nodes[n], now, timeout).1.Campaign? && g == Grant(c.nodes[n].term + 1, n, n)
       case Deliver(VotePacket(src, dst, req), now) =>
         OnRequestVote(c.nodes[dst], req, now).1.voteGranted && g == Grant(req.term, dst, src)
       case _ => false
  }

  // ---------- What the proof remembers about a run ----------

  // All votes ever granted, the voters each campaigning node has counted in its term, and, for
  // every term that has had a leader, that leader and the voters that elected it.
  datatype History = History(
    grants: set<Grant>,
    counted: map<int, set<int>>,
    leader: map<nat, int>,
    quorum: map<nat, set<int>>)

  predicate LedBy(h: History, t: nat, n: int) {
    t in h.leader && h.leader[t] == n
  }

  ghost predicate GrantsArePast(nodes: Nodes, h: History) {
    forall g :: g in h.grants ==>
      && g.voter in nodes && g.candidate in nodes
      && g.term <= nodes[g.voter].term && g.term <= nodes[g.candidate].term
  }

  // A granted vote stands for the rest of the term, unless a heartbeat moved it to the leader.
  ghost predicate VotesStand(nodes: Nodes, h: History) {
    forall g :: g in h.grants && g.voter in nodes && nodes[g.voter].term == g.term ==>
      nodes[g.voter].votedFor == g.candidate || LedBy(h, g.term, nodes[g.voter].votedFor)
  }

  // While a term has no leader, each node grants one candidate in it.
  ghost predicate OneGrantWhileLeaderless(h: History) {
    forall g, g' :: g in h.grants && g' in h.grants && g.term == g'.term && g.voter == g'.voter ==>
      g.candidate == g'.candidate || g.term in h.leader
  }

  // The voters that elected a leader never grant anyone else in its term.
  ghost predicate Loyal(nodes: Nodes, h: History, t: nat, v: int, leader: int) {
    && v in nodes
    && Grant(t, v, leader) in h.grants
    && (forall g :: g in h.grants && g.term == t && g.voter == v ==> g.candidate == leader)
    && (nodes[v].term == t ==> nodes[v].votedFor == leader)
  }

  ghost predicate Elects(nodes: Nodes, h: History, t: nat, voters: set<int>, leader: int) {
    && leader in nodes
    && voters <= nodes.Keys
    && 2 * |voters| > |nodes.Keys|
    && forall v :: v in voters ==> Loyal(nodes, h, t, v, leader)
  }

  ghost predicate QuorumsElect(nodes: Nodes, h: History) {
    forall t :: t in h.leader ==> t in h.quorum && Elects(nodes, h, t, h.quorum[t], h.leader[t])
  }

  // A candidate's counter is the number of distinct nodes whose grant it has received.
  ghost predicate CountsAreGrants(nodes: Nodes, h: History) {
    forall n :: n in nodes && nodes[n].role == Candidate ==>
      && n in h.counted
      && |h.counted[n]| == nodes[n].votesReceived
      && (forall v :: v in h.counted[n] ==> Grant(nodes[n].term, v, n) in h.grants)
  }

  ghost predicate LeadersAreRecorded(nodes: Nodes, h: History) {
    forall n :: n in nodes && nodes[n].role == Leader ==> LedBy(h, nodes[n].term, n)
  }

  ghost predicate NodesInv(nodes: Nodes, h: History) {
    && Configured(nodes)
    && GrantsArePast(nodes, h)
    && VotesStand(nodes, h)
    && OneGrantWhileLeaderless(h)
    && QuorumsElect(nodes, h)
    && CountsAreGrants(nodes, h)
    && LeadersAreRecorded(nodes, h)
  }

  // `candidate` has not counted a vote of `voter` in `term`, and has reached that term.
  ghost predicate Uncounted(nodes: Nodes, h: History, voter: int, candidate: int, term: nat) {
    && candidate in nodes
    && term <= nodes[candidate].term
    && (nodes[candidate].role == Candidate && nodes[candidate].term == term ==>
          candidate in h.counted && voter !in h.counted[candidate])
  }

  ghost predicate PacketFits(nodes: Nodes, h: History, p: Packet) {
    && p.dst in nodes
    && match p
       case VotePacket(src, dst, req) =>
         src != dst && req.candidateId == src && Uncounted(nodes, h, dst, src, req.term)
       case ReplyPacket(src, dst, reply) =>
         reply.voteGranted ==> Grant(reply.term, src, dst) in h.grants && Uncounted(nodes, h, src, dst, reply.term)
       case BeatPacket(src, dst, ae) => LedBy(h, ae.term, ae.leaderId)
  }

  ghost predicate PacketsFit(nodes: Nodes, h: History, net: multiset<Packet>) {
    forall p :: p in net ==> PacketFits(nodes, h, p)
  }

  function GrantReply(voter: int, candidate: int, term: nat): Packet {
    ReplyPacket(voter, candidate, RequestVoteReply(term, true))
  }

  predicate SameVote(p: Packet, q: Packet) {
    p.VotePacket? && q.VotePacket? && p.src == q.src && p.dst == q.dst && p.req.term == q.req.term
  }

  // For each candidate, voter and term the network holds one request, or one granting reply.
  ghost predicate VotesTravelOnce(net: multiset<Packet>) {
    && (forall p :: p in net && (p.VotePacket? || (p.ReplyPacket? && p.reply.voteGranted)) ==> net[p] == 1)
    && (forall p :: p in net && p.VotePacket? ==> GrantReply(p.dst, p.src, p.req.term) !in net)
    && (forall p, q :: p in net && q in net && SameVote(p, q) ==> p == q)
  }

  ghost predicate Inv(c: Cluster, h: History) {
    NodesInv(c.nodes, h) && PacketsFit(c.nodes, h, c.net) && VotesTravelOnce(c.net)
  }

  // The record of votes and leaders only grows.
  ghost predicate Extends(h: History, h': History) {
    h.grants <= h'.grants && forall t :: t in h.leader ==> LedBy(h', t, h.leader[t])
  }

  // ---------- Majorities ----------

  lemma {:induction false} DistinctCardinality<T>(s: seq<T>)
    requires Distinct(s)
    ensures |Range(s)| == |s|
  {
    if s != [] {
      var rest := s[..|s| - 1];
      DistinctCardinality(rest);
      assert s == rest + [s[|s| - 1]];
      assert Range(s) == Range(rest) + {s[|s| - 1]};
    }
  }

  // The count a node computes from its peer list is a strict majority of the cluster.
  lemma MajorityIsStrict(nodes: Nodes, n: int)
    requires Configured(nodes) && n in nodes
    ensures 2 * MajorityCount(|nodes[n].peers|) > |nodes.Keys|
  {
    DistinctCardinality(nodes[n].peers);
    assert nodes.Keys == Range(nodes[n].peers) + {n};
  }
}
