/** What the steps of a cluster bring about (src/raft.cpp): when a node campaigns, that terms spread, who gets
    a vote, and that a node whose requests reach a majority in time comes to lead its term. */
module ElectionProgress {
  import opened Bytes
  import opened Raft
  import opened RaftCluster

  // ---------- Single steps ----------

  /** A tick of a clock that runs forward: a node that does not lead campaigns for the next term if and only if
      more than its timeout has passed, a leader sends heartbeats if and only if 50 ms have. */
  lemma TickActs(c: Cluster, n: int, now: nat, timeout: nat, p: int)
    requires n in c.nodes && c.nodes[n].id == n && p in c.nodes[n].peers
    requires c.nodes[n].lastHeartbeatMs <= now < UINT64_SIZE
    ensures var s := c.nodes[n];
            var c' := Next(c, ClockTick(n, now, timeout));
            var s' := c'.nodes[n];
            var elapsed := now - s.lastHeartbeatMs;
            && (s.role != Leader && elapsed > s.electionTimeoutMs ==>
                  && s'.role == Candidate && s'.term == s.term + 1 && s'.votedFor == n && s'.votesReceived == 1
                  && s'.lastHeartbeatMs == now && s'.electionTimeoutMs == timeout
                  && VotePacket(n, p, RequestVote(s.term + 1, n, s.lastLogIndex, s.lastLogTerm)) in c'.net)
            && (s.role == Leader && elapsed >= 50 ==>
                  && s' == s.(lastHeartbeatMs := now)
                  && BeatPacket(n, p, AppendEntries(s.term, n)) in c'.net)
            && ((s.role != Leader && elapsed <= s.electionTimeoutMs) || (s.role == Leader && elapsed < 50) ==> c' == c)
  {
    var s := c.nodes[n];
    assert Elapsed(now, s.lastHeartbeatMs) == now - s.lastHeartbeatMs;
    if Tick(s, now, timeout).1 == Silence {
      assert c.nodes[n := s] == c.nodes;
    }
  }

  // The term a packet carries.
  function TermOf(p: Packet): nat {
    match p
    case VotePacket(_, _, req) => req.term
    case ReplyPacket(_, _, reply) => reply.term
    case BeatPacket(_, _, ae) => ae.term
  }

  /** Every packet but a reply to a node that does not campaign brings its receiver at least to its term, and
      makes it a follower if the term is new to it. A heartbeat of the same term does so too. */
  lemma DeliverySpreadsTerm(c: Cluster, p: Packet, now: nat)
    requires p in c.net && p.dst in c.nodes
    requires p.ReplyPacket? ==> c.nodes[p.dst].role == Candidate
    ensures var s, s' := c.nodes[p.dst], Next(c, Deliver(p, now)).nodes[p.dst];
            && s'.term == (if TermOf(p) > s.term then TermOf(p) else s.term)
            && (TermOf(p) > s.term ==> s'.role == Follower)
            && (TermOf(p) > s.term && p.ReplyPacket? ==> s'.votedFor == NO_VOTE)
            && (TermOf(p) > s.term && p.VotePacket? ==> s'.votedFor == NO_VOTE || s'.votedFor == p.req.candidateId)
            && (p.BeatPacket? && TermOf(p) >= s.term ==>
                  s'.role == Follower && s'.votedFor == p.ae.leaderId && s'.lastHeartbeatMs == now)
            && (TermOf(p) < s.term ==> s' == s)
  {
  }

  /** A vote request is answered with the voter's term, and with its vote if and only if the request is not
      stale, the candidate's log is not behind, and the voter has not voted for another in the term. */
  lemma VoteIsAnswered(c: Cluster, src: int, dst: int, req: RequestVote, now: nat)
    requires VotePacket(src, dst, req) in c.net && dst in c.nodes
    ensures var s, c' := c.nodes[dst], Next(c, Deliver(VotePacket(src, dst, req), now));
            var s' := c'.nodes[dst];
            var granted := && req.term >= s.term
                           && (req.term > s.term || s.votedFor == NO_VOTE || s.votedFor == req.candidateId)
                           && (|| req.lastLogTerm > s.lastLogTerm
                               || (req.lastLogTerm == s.lastLogTerm && req.lastLogIndex >= s.lastLogIndex));
            && ReplyPacket(dst, src, RequestVoteReply(s'.term, granted)) in c'.net
            && (granted ==> s'.votedFor == req.candidateId && s'.lastHeartbeatMs == now)
            && (!granted ==> s'.lastHeartbeatMs == s.lastHeartbeatMs)
  {
  }

  /** A candidate counts a vote granted in its term, and leads once its votes are more than half of the
      cluster; nothing else makes a leader. */
  lemma ReplyIsCounted(c: Cluster, src: int, dst: int, reply: RequestVoteReply, now: nat)
    requires ReplyPacket(src, dst, reply) in c.net && dst in c.nodes && c.nodes[dst].role != Leader
    ensures var s, s' := c.nodes[dst], Next(c, Deliver(ReplyPacket(src, dst, reply), now)).nodes[dst];
            var counts := s.role == Candidate && reply.voteGranted && reply.term == s.term;
            && (counts ==> s'.votesReceived == s.votesReceived + 1 && s'.term == s.term)
            && (s'.role == Leader <==> counts && 2 * (s.votesReceived + 1) > |s.peers| + 1)
  {
  }

  /** Terms never go back, and a node that leads goes on leading until it learns of a newer term or another
      heartbeat of its own. */
  lemma TermsGrow(c: Cluster, a: Action, n: int)
    requires Enabled(c, a) && n in c.nodes
    ensures var s, s' := c.nodes[n], Next(c, a).nodes[n];
            && s'.term >= s.term
            && (s.role != Leader && s'.role == Leader ==> a.Deliver? && a.packet.ReplyPacket? && s'.term == s.term)
            && (s.role == Leader && s'.role != Leader ==>
                  a.Elect? || (a.Deliver? && TermOf(a.packet) > s.term) ||
                  (a.Deliver? && a.packet.BeatPacket? && TermOf(a.packet) == s.term))
  {
  }

  // ---------- A round of votes ----------

  // From the first cluster on, each action leads to the next.
  ghost predicate IsPath(run: seq<Cluster>, actions: seq<Action>) {
    && |run| == |actions| + 1
    && forall i :: 0 <= i < |actions| ==> Enabled(run[i], actions[i]) && run[i + 1] == Next(run[i], actions[i])
  }

  lemma PathCons(c: Cluster, a: Action, run: seq<Cluster>, actions: seq<Action>)
    requires IsPath(run, actions) && Enabled(c, a) && run[0] == Next(c, a)
    ensures IsPath([c] + run, [a] + actions)
  {
  }

  // Each voter gets the request, and the candidate its reply.
  function Rounds(n: int, voters: seq<int>, req: RequestVote, now: nat): seq<Action> {
    if voters == [] then []
    else
      var v := voters[0];
      [Deliver(VotePacket(n, v, req), now), Deliver(GrantReply(v, n, req.term), now)] + Rounds(n, voters[1..], req, now)
  }

  // The voter is of an older term, has no longer log, and has the request before it.
  ghost predicate CanVote(c: Cluster, n: int, v: int, req: RequestVote) {
    && v in c.nodes && v != n && c.nodes[v].term < req.term && LogOk(c.nodes[v], req)
    && VotePacket(n, v, req) in c.net
  }

  ghost predicate Campaigns(c: Cluster, n: int, req: RequestVote) {
    n in c.nodes && c.nodes[n].term == req.term && c.nodes[n].role != Follower && req.candidateId == n
  }

  // What counting one more granted vote makes of a node.
  ghost predicate Counted(s: NodeState, s': NodeState) {
    && s'.term == s.term && s'.peers == s.peers && s'.role != Follower
    && (s'.role == Leader <==> s.role == Leader || 2 * (s.votesReceived + 1) > |s.peers| + 1)
    && (s'.role == Candidate ==> s'.votesReceived == s.votesReceived + 1)
  }

  lemma Round(c: Cluster, n: int, v: int, req: RequestVote, now: nat) returns (c1: Cluster, c2: Cluster)
    requires Campaigns(c, n, req) && CanVote(c, n, v, req)
    ensures Enabled(c, Deliver(VotePacket(n, v, req), now)) && c1 == Next(c, Deliver(VotePacket(n, v, req), now))
    ensures Enabled(c1, Deliver(GrantReply(v, n, req.term), now))
    ensures c2 == Next(c1, Deliver(GrantReply(v, n, req.term), now))
    ensures Campaigns(c2, n, req) && Counted(c.nodes[n], c2.nodes[n])
    ensures forall w :: w != v && CanVote(c, n, w, req) ==> CanVote(c2, n, w, req)
  {
    c1 := Next(c, Deliver(VotePacket(n, v, req), now));
    assert GrantReply(v, n, req.term) in c1.net;
    c2 := Next(c1, Deliver(GrantReply(v, n, req.term), now));
  }

  lemma RoundInFront(c: Cluster, ask: Action, c1: Cluster, answer: Action, rest: seq<Cluster>, actions: seq<Action>)
    returns (run: seq<Cluster>)
    requires IsPath(rest, actions) && Enabled(c, ask) && c1 == Next(c, ask)
    requires Enabled(c1, answer) && rest[0] == Next(c1, answer)
    ensures IsPath(run, [ask, answer] + actions) && run[0] == c && run[|run| - 1] == rest[|rest| - 1]
  {
    PathCons(c1, answer, rest, actions);
    PathCons(c, ask, [c1] + rest, [answer] + actions);
    run := [c] + ([c1] + rest);
    assert [ask] + ([answer] + actions) == [ask, answer] + actions;
  }

  lemma {:induction false} RoundsCount(c: Cluster, n: int, voters: seq<int>, req: RequestVote, now: nat)
    returns (run: seq<Cluster>)
    requires Campaigns(c, n, req) && Distinct(voters)
    requires forall v :: v in voters ==> CanVote(c, n, v, req)
    ensures IsPath(run, Rounds(n, voters, req, now)) && run[0] == c
    ensures var s, s' := c.nodes[n], run[|run| - 1].nodes;
            && n in s' && s'[n].term == req.term
            && (s'[n].role == Leader <==>
                  s.role == Leader || (voters != [] && 2 * (s.votesReceived + |voters|) > |s.peers| + 1))
    decreases |voters|
  {
    run := [c];
    if voters != [] {
      var v := voters[0];
      var ask, answer := Deliver(VotePacket(n, v, req), now), Deliver(GrantReply(v, n, req.term), now);
      var c1, c2 := Round(c, n, v, req, now);
      var rest := RoundsCount(c2, n, voters[1..], req, now);
      run := RoundInFront(c, ask, c1, answer, rest, Rounds(n, voters[1..], req, now));
    }
  }

  // ---------- Progress ----------

  // No node has a log, as in every run: the source never writes to it.
  ghost predicate LogsEmpty(nodes: Nodes) {
    forall n :: n in nodes ==> nodes[n].lastLogIndex == 0 && nodes[n].lastLogTerm == 0
  }

  predicate SameShape(s: NodeState, s': NodeState) {
    && s'.id == s.id && s'.peers == s.peers
    && s'.lastLogIndex == s.lastLogIndex && s'.lastLogTerm == s.lastLogTerm
  }

  // One node changes, and becomes what its handler makes of it.
  lemma StepKeepsNode(c: Cluster, a: Action, n: int)
    requires Enabled(c, a) && n in c.nodes
    ensures n in Next(c, a).nodes && SameShape(c.nodes[n], Next(c, a).nodes[n])
  {
    match a
    case Elect(m, now, timeout) =>
      assert SameShape(c.nodes[m], StartElection(c.nodes[m], now, timeout));
    case ClockTick(m, now, timeout) =>
      assert SameShape(c.nodes[m], Tick(c.nodes[m], now, timeout).0);
    case Deliver(p, now) =>
      DeliveryKeepsNode(c, p, now, n);
    case Lose(p) =>
  }

  lemma DeliveryKeepsNode(c: Cluster, p: Packet, now: nat, n: int)
    requires p in c.net && p.dst in c.nodes && n in c.nodes
    ensures var nodes' := Next(c, Deliver(p, now)).nodes; n in nodes' && SameShape(c.nodes[n], nodes'[n])
  {
    var s := c.nodes[p.dst];
    match p
    case VotePacket(_, _, req) =>
      assert SameShape(s, OnRequestVote(s, req, now).0);
    case ReplyPacket(_, _, reply) =>
      assert SameShape(s, OnRequestVoteReply(s, reply, now));
    case BeatPacket(_, _, ae) =>
      assert SameShape(s, OnAppendEntries(s, ae, now));
  }

  lemma StepKeepsKeys(c: Cluster, a: Action)
    requires Enabled(c, a)
    ensures Next(c, a).nodes.Keys == c.nodes.Keys
  {
  }

  lemma SameShapes(nodes: Nodes, nodes': Nodes)
    requires Configured(nodes) && LogsEmpty(nodes) && nodes'.Keys == nodes.Keys
    requires forall n :: n in nodes ==> SameShape(nodes[n], nodes'[n])
    ensures Configured(nodes') && LogsEmpty(nodes')
  {
  }

  lemma StepKeepsShape(c: Cluster, a: Action)
    requires Enabled(c, a) && Configured(c.nodes) && LogsEmpty(c.nodes)
    ensures Configured(Next(c, a).nodes) && LogsEmpty(Next(c, a).nodes)
    ensures Next(c, a).nodes.Keys == c.nodes.Keys
  {
    var nodes' := Next(c, a).nodes;
    StepKeepsKeys(c, a);
    forall n | n in c.nodes ensures SameShape(c.nodes[n], nodes'[n]) {
      StepKeepsNode(c, a, n);
    }
    SameShapes(c.nodes, nodes');
  }

  lemma {:induction false} RunsKeepShape(run: seq<Cluster>, actions: seq<Action>, i: nat)
    requires IsRun(run, actions) && i < |run|
    ensures Configured(run[i].nodes) && LogsEmpty(run[i].nodes) && run[i].nodes.Keys == run[0].nodes.Keys
  {
    if i > 0 {
      RunsKeepShape(run, actions, i - 1);
      StepKeepsShape(run[i - 1], actions[i - 1]);
    }
  }

  /** A node whose timeout has passed campaigns; if some of its peers, all of terms no newer than its own, get
      its request and it gets their replies, it leads the next term exactly when these peers and the node
      itself are more than half of the cluster, provided there is any such peer. */
  lemma MajorityElects(c: Cluster, n: int, voters: seq<int>, now: nat, timeout: nat) returns (run: seq<Cluster>)
    requires Configured(c.nodes) && LogsEmpty(c.nodes) && n in c.nodes && c.nodes[n].role != Leader
    requires c.nodes[n].lastHeartbeatMs <= now < UINT64_SIZE
    requires now - c.nodes[n].lastHeartbeatMs > c.nodes[n].electionTimeoutMs
    requires Distinct(voters)
    requires forall v :: v in voters ==> v in c.nodes && v in c.nodes[n].peers && c.nodes[v].term <= c.nodes[n].term
    ensures var term := c.nodes[n].term + 1;
            && IsPath(run, [ClockTick(n, now, timeout)] + Rounds(n, voters, RequestVote(term, n, 0, 0), now))
            && run[0] == c
            && (Leads(run[|run| - 1], n, term) <==> voters != [] && 2 * (1 + |voters|) > |c.nodes.Keys|)
  {
    var req := RequestVote(c.nodes[n].term + 1, n, 0, 0);
    var c1 := Next(c, ClockTick(n, now, timeout));
    PeerCount(c.nodes, n);
    forall v | v in voters ensures CanVote(c1, n, v, req) {
      TickActs(c, n, now, timeout, v);
    }
    if voters == [] { Campaigned(c, n, now, timeout); } else { TickActs(c, n, now, timeout, voters[0]); }
    var rest := RoundsCount(c1, n, voters, req, now);
    PathCons(c, ClockTick(n, now, timeout), rest, Rounds(n, voters, req, now));
    run := [c] + rest;
  }

  lemma PeerCount(nodes: Nodes, n: int)
    requires Configured(nodes) && n in nodes
    ensures |nodes.Keys| == |nodes[n].peers| + 1
  {
    DistinctCardinality(nodes[n].peers);
    assert nodes.Keys == Range(nodes[n].peers) + {n};
  }

  lemma Campaigned(c: Cluster, n: int, now: nat, timeout: nat)
    requires n in c.nodes && c.nodes[n].role != Leader && c.nodes[n].lastHeartbeatMs <= now < UINT64_SIZE
    requires now - c.nodes[n].lastHeartbeatMs > c.nodes[n].electionTimeoutMs
    ensures var s' := Next(c, ClockTick(n, now, timeout)).nodes[n];
            s'.role == Candidate && s'.term == c.nodes[n].term + 1 && s'.votesReceived == 1
  {
  }

  // ---------- A node without peers ----------

  // Nothing travels, and nobody leads.
  ghost predicate Alone(c: Cluster) {
    c.net == multiset{} && forall n :: n in c.nodes ==> c.nodes[n].peers == [] && c.nodes[n].role != Leader
  }

  lemma AloneStays(c: Cluster, a: Action)
    requires Alone(c) && Enabled(c, a)
    ensures Alone(Next(c, a))
  {
  }

  /** In a cluster of one node no run ever makes it a leader, although its own vote is a majority: votes are
      only counted when a reply arrives. */
  lemma {:induction false} LoneNodeNeverLeads(run: seq<Cluster>, actions: seq<Action>, i: nat)
    requires IsRun(run, actions) && i < |run| && |run[0].nodes.Keys| == 1
    ensures Alone(run[i])
  {
    if i == 0 {
      forall n | n in run[0].nodes ensures run[0].nodes[n].peers == [] {
        PeerCount(run[0].nodes, n);
      }
    } else {
      LoneNodeNeverLeads(run, actions, i - 1);
      AloneStays(run[i - 1], actions[i - 1]);
    }
  }
}
