/** Every step of the cluster keeps the invariant of `RaftCluster`, hence Election Safety
    (section 5.2 and Figure 3 of Ongaro and Ousterhout, "In Search of an Understandable
    Consensus Algorithm") holds of all runs. */
module ElectionSafety {
  import opened Raft
  import opened RaftCluster
  import opened Sets

  // ---------- A node's state changes, the history does not ----------

  // The change neither casts a vote for a non-leader, nor counts one, nor starts a campaign.
  ghost predicate Settles(h: History, s: NodeState, s': NodeState) {
    && s'.id == s.id && s'.peers == s.peers && s'.term >= s.term
    && (s'.term == s.term ==> s'.votedFor == s.votedFor || LedBy(h, s.term, s'.votedFor))
    && (s'.role == Candidate ==> s.role == Candidate && s'.term == s.term && s'.votesReceived == s.votesReceived)
    && (s'.role == Leader ==> LedBy(h, s'.term, s'.id))
  }

  lemma QuorumsSettle(nodes: Nodes, h: History, n: int, s: NodeState)
    requires n in nodes && Settles(h, nodes[n], s) && GrantsArePast(nodes, h) && QuorumsElect(nodes, h)
    ensures QuorumsElect(nodes[n := s], h)
  {
  }

  lemma ConfigurationStays(nodes: Nodes, n: int, s: NodeState)
    requires Configured(nodes) && n in nodes && s.id == n && s.peers == nodes[n].peers
    ensures Configured(nodes[n := s]) && nodes[n := s].Keys == nodes.Keys
  {
  }

  lemma NodeSettles(nodes: Nodes, h: History, n: int, s: NodeState)
    requires NodesInv(nodes, h) && n in nodes && Settles(h, nodes[n], s)
    ensures NodesInv(nodes[n := s], h)
  {
    ConfigurationStays(nodes, n, s);
    QuorumsSettle(nodes, h, n, s);
  }

  lemma PacketsSettle(nodes: Nodes, h: History, n: int, s: NodeState, net: multiset<Packet>)
    requires n in nodes && Settles(h, nodes[n], s) && PacketsFit(nodes, h, net)
    ensures PacketsFit(nodes[n := s], h, net)
  {
  }

  lemma Overwrite(nodes: Nodes, n: int, s: NodeState, s': NodeState)
    ensures nodes[n := s][n := s'] == nodes[n := s']
  {
  }

  lemma FewerPackets(net: multiset<Packet>, net': multiset<Packet>)
    requires VotesTravelOnce(net) && net' <= net
    ensures VotesTravelOnce(net')
  {
  }

  // A vote that respects the node's standing vote takes nobody out of a quorum.
  lemma QuorumsOutliveGrant(nodes: Nodes, h: History, s: NodeState, h': History)
    requires s.id in nodes && QuorumsElect(nodes, h) && GrantsArePast(nodes, h) && NO_VOTE !in nodes
    requires h'.leader == h.leader && h'.quorum == h.quorum
    requires h'.grants == h.grants + {Grant(s.term, s.id, s.votedFor)}
    requires s.term >= nodes[s.id].term
    requires s.term == nodes[s.id].term ==> nodes[s.id].votedFor in {NO_VOTE, s.votedFor}
    ensures QuorumsElect(nodes[s.id := s], h')
  {
  }

  // ---------- A campaign starts ----------

  ghost function AfterCampaign(h: History, s: NodeState): History {
    h.(grants := h.grants + {Grant(s.term, s.id, s.id)}, counted := h.counted[s.id := {s.id}])
  }

  lemma CampaignKeepsVotes(nodes: Nodes, h: History, s: NodeState)
    requires GrantsArePast(nodes, h) && VotesStand(nodes, h) && OneGrantWhileLeaderless(h)
    requires s.id in nodes && s.term > nodes[s.id].term && s.votedFor == s.id
    ensures VotesStand(nodes[s.id := s], AfterCampaign(h, s)) && OneGrantWhileLeaderless(AfterCampaign(h, s))
  {
  }

  lemma CampaignKeepsNodes(nodes: Nodes, h: History, n: int, nowMs: nat, timeoutMs: nat)
    requires NodesInv(nodes, h) && n in nodes
    ensures var s := StartElection(nodes[n], nowMs, timeoutMs); NodesInv(nodes[n := s], AfterCampaign(h, s))
  {
    var s := StartElection(nodes[n], nowMs, timeoutMs);
    var h' := AfterCampaign(h, s);
    ConfigurationStays(nodes, n, s);
    QuorumsOutliveGrant(nodes, h, s, h');
    CampaignKeepsVotes(nodes, h, s);
  }

  // Packets already under way speak of earlier terms of the campaigning node.
  lemma OldPacketsFit(nodes: Nodes, h: History, s: NodeState, p: Packet)
    requires s.id in nodes && nodes[s.id].term < s.term && PacketFits(nodes, h, p)
    ensures PacketFits(nodes[s.id := s], AfterCampaign(h, s), p)
    ensures p.VotePacket? && p.src == s.id ==> p.req.term < s.term
    ensures p.ReplyPacket? && p.reply.voteGranted && p.dst == s.id ==> p.reply.term < s.term
  {
  }

  lemma CampaignKeepsPackets(nodes: Nodes, h: History, s: NodeState, net: multiset<Packet>)
    requires s.id in nodes && nodes[s.id].term < s.term && s.id !in s.peers
    requires (forall p :: p in s.peers ==> p in nodes) && PacketsFit(nodes, h, net) && VotesTravelOnce(net)
    ensures var net' := net + Send(s, Campaign(VoteRequestOf(s)));
            PacketsFit(nodes[s.id := s], AfterCampaign(h, s), net') && VotesTravelOnce(net')
  {
    var nodes', h' := nodes[s.id := s], AfterCampaign(h, s);
    var sent := Send(s, Campaign(VoteRequestOf(s)));
    forall p | p in net
      ensures PacketFits(nodes', h', p)
      ensures p.VotePacket? && p.src == s.id ==> p.req.term < s.term
      ensures p.ReplyPacket? && p.reply.voteGranted && p.dst == s.id ==> p.reply.term < s.term
    {
      OldPacketsFit(nodes, h, s, p);
    }
    forall p | p in sent ensures PacketFits(nodes', h', p) {
      assert p == VotePacket(s.id, p.dst, VoteRequestOf(s)) && p.dst in s.peers;
    }
    CampaignTravelsOnce(s, net);
  }

  lemma CampaignTravelsOnce(s: NodeState, net: multiset<Packet>)
    requires VotesTravelOnce(net)
    requires forall p :: p in net && p.VotePacket? && p.src == s.id ==> p.req.term < s.term
    requires forall p :: p in net && p.ReplyPacket? && p.reply.voteGranted && p.dst == s.id ==> p.reply.term < s.term
    ensures VotesTravelOnce(net + Send(s, Campaign(VoteRequestOf(s))))
  {
  }

  lemma CampaignKeeps(c: Cluster, h: History, a: Action)
    requires Inv(c, h) && a.Elect? && Enabled(c, a)
    ensures Inv(Next(c, a), AfterCampaign(h, Next(c, a).nodes[a.node]))
  {
    CampaignKeepsNodes(c.nodes, h, a.node, a.nowMs, a.timeoutMs);
    var s := Next(c, a).nodes[a.node];
    forall p | p in s.peers ensures p in c.nodes && p != s.id {
      assert p in Range(s.peers);
    }
    CampaignKeepsPackets(c.nodes, h, s, c.net);
  }

  // ---------- A vote request arrives ----------

  ghost function AfterGrant(h: History, g: Grant): History {
    h.(grants := h.grants + {g})
  }

  // Any earlier grant of the node in its term went to the same candidate or the candidate leads.
  lemma EarlierGrantsAgree(nodes: Nodes, h: History, n: int, candidate: int, g: Grant)
    requires NodesInv(nodes, h) && n in nodes && candidate in nodes
    requires nodes[n].votedFor == NO_VOTE || nodes[n].votedFor == candidate
    requires g in h.grants && g.voter == n && g.term == nodes[n].term
    ensures g.candidate == candidate || LedBy(h, g.term, candidate)
  {
  }

  lemma GrantKeepsVotes(nodes: Nodes, h: History, n: int, candidate: int, s: NodeState)
    requires NodesInv(nodes, h) && n in nodes && candidate in nodes
    requires nodes[n].votedFor == NO_VOTE || nodes[n].votedFor == candidate
    requires s == nodes[n].(votedFor := candidate, lastHeartbeatMs := s.lastHeartbeatMs)
    ensures VotesStand(nodes[n := s], AfterGrant(h, Grant(s.term, n, candidate)))
    ensures OneGrantWhileLeaderless(AfterGrant(h, Grant(s.term, n, candidate)))
  {
  }

  // Casting a free vote, or repeating the standing one.
  lemma GrantKeepsNodes(nodes: Nodes, h: History, n: int, candidate: int, s: NodeState)
    requires NodesInv(nodes, h) && n in nodes && candidate in nodes
    requires nodes[n].votedFor == NO_VOTE || nodes[n].votedFor == candidate
    requires nodes[n].term <= nodes[candidate].term
    requires s == nodes[n].(votedFor := candidate, lastHeartbeatMs := s.lastHeartbeatMs)
    ensures NodesInv(nodes[n := s], AfterGrant(h, Grant(s.term, n, candidate)))
  {
    ConfigurationStays(nodes, n, s);
    QuorumsOutliveGrant(nodes, h, s, AfterGrant(h, Grant(s.term, n, candidate)));
    GrantKeepsVotes(nodes, h, n, candidate, s);
  }

  lemma GrantsKeepPackets(nodes: Nodes, h: History, n: int, s: NodeState, g: Grant, net: multiset<Packet>)
    requires PacketsFit(nodes, h, net) && n in nodes
    requires s.term == nodes[n].term && s.role == nodes[n].role
    ensures PacketsFit(nodes[n := s], AfterGrant(h, g), net)
  {
  }

  // The granting reply takes the place of the request it answers.
  lemma ReplyReplacesRequest(net: multiset<Packet>, p: Packet, reply: RequestVoteReply)
    requires VotesTravelOnce(net) && p in net && p.VotePacket?
    requires reply.voteGranted ==> reply.term == p.req.term
    ensures VotesTravelOnce(net - multiset{p} + multiset{ReplyPacket(p.dst, p.src, reply)})
  {
  }

  ghost function AfterVote(h: History, p: Packet, rep: RequestVoteReply): History
    requires p.VotePacket?
  {
    if rep.voteGranted then AfterGrant(h, Grant(rep.term, p.dst, p.src)) else h
  }

  lemma GrantedVoteKeeps(nodes: Nodes, h: History, p: Packet, s: NodeState, rest: multiset<Packet>)
    requires NodesInv(nodes, h) && PacketsFit(nodes, h, rest) && p.VotePacket? && PacketFits(nodes, h, p)
    requires nodes[p.dst].votedFor == NO_VOTE || nodes[p.dst].votedFor == p.src
    requires nodes[p.dst].term == p.req.term
    requires s == nodes[p.dst].(votedFor := p.src, lastHeartbeatMs := s.lastHeartbeatMs)
    ensures var h' := AfterGrant(h, Grant(s.term, p.dst, p.src));
            && NodesInv(nodes[p.dst := s], h')
            && PacketsFit(nodes[p.dst := s], h', rest + multiset{GrantReply(p.dst, p.src, s.term)})
  {
    var g := Grant(s.term, p.dst, p.src);
    GrantKeepsNodes(nodes, h, p.dst, p.src, s);
    GrantsKeepPackets(nodes, h, p.dst, s, g, rest);
    assert PacketFits(nodes[p.dst := s], AfterGrant(h, g), GrantReply(p.dst, p.src, s.term)) by {
      assert Uncounted(nodes, h, p.dst, p.src, s.term);
    }
  }

  // A newer term is adopted, or nothing changes; then no vote stands in the way of the term.
  lemma AdoptionKeeps(c: Cluster, h: History, n: int, term: nat)
    requires Inv(c, h) && n in c.nodes
    ensures var s := AdoptTerm(c.nodes[n], term);
            NodesInv(c.nodes[n := s], h) && PacketsFit(c.nodes[n := s], h, c.net)
  {
    var s := AdoptTerm(c.nodes[n], term);
    assert Settles(h, c.nodes[n], s);
    NodeSettles(c.nodes, h, n, s);
    PacketsSettle(c.nodes, h, n, s, c.net);
  }

  lemma VoteKeeps(c: Cluster, h: History, a: Action)
    requires Inv(c, h) && a.Deliver? && a.packet.VotePacket? && Enabled(c, a)
    ensures Inv(Next(c, a), AfterVote(h, a.packet, OnRequestVote(c.nodes[a.packet.dst], a.packet.req, a.nowMs).1))
  {
    var p := a.packet;
    var (s, rep) := OnRequestVote(c.nodes[p.dst], p.req, a.nowMs);
    var nodes := c.nodes[p.dst := AdoptTerm(c.nodes[p.dst], p.req.term)];
    var rest := c.net - multiset{p};
    AdoptionKeeps(c, h, p.dst, p.req.term);
    ReplyReplacesRequest(c.net, p, rep);
    VoteCaseKeeps(nodes, h, p, s, rep, rest);
    Overwrite(c.nodes, p.dst, AdoptTerm(c.nodes[p.dst], p.req.term), s);
  }

  lemma VoteCaseKeeps(nodes: Nodes, h: History, p: Packet, s: NodeState, rep: RequestVoteReply, rest: multiset<Packet>)
    requires NodesInv(nodes, h) && PacketsFit(nodes, h, rest) && p.VotePacket? && PacketFits(nodes, h, p)
    requires rep.voteGranted ==>
               && (nodes[p.dst].votedFor == NO_VOTE || nodes[p.dst].votedFor == p.src)
               && nodes[p.dst].term == p.req.term == rep.term
               && s == nodes[p.dst].(votedFor := p.src, lastHeartbeatMs := s.lastHeartbeatMs)
    requires !rep.voteGranted ==> s == nodes[p.dst]
    ensures NodesInv(nodes[p.dst := s], AfterVote(h, p, rep))
    ensures PacketsFit(nodes[p.dst := s], AfterVote(h, p, rep), rest + multiset{ReplyPacket(p.dst, p.src, rep)})
  {
    if rep.voteGranted {
      assert rep == RequestVoteReply(s.term, true);
      GrantedVoteKeeps(nodes, h, p, s, rest);
    } else {
      assert nodes[p.dst := s] == nodes;
    }
  }

  // ---------- A reply arrives ----------

  ghost function AfterCount(h: History, n: int, v: int): History
    requires n in h.counted
  {
    h.(counted := h.counted[n := h.counted[n] + {v}])
  }

  lemma CountKeepsNodes(nodes: Nodes, h: History, n: int, v: int, s: NodeState)
    requires NodesInv(nodes, h) && n in nodes && nodes[n].role == Candidate
    requires Uncounted(nodes, h, v, n, nodes[n].term) && Grant(nodes[n].term, v, n) in h.grants
    requires s == nodes[n].(votesReceived := nodes[n].votesReceived + 1)
    ensures NodesInv(nodes[n := s], AfterCount(h, n, v))
  {
    var nodes', h' := nodes[n := s], AfterCount(h, n, v);
    ConfigurationStays(nodes, n, s);
    forall t | t in h.leader
      ensures t in h'.quorum && Elects(nodes', h', t, h'.quorum[t], h'.leader[t])
    {
      forall w | w in h.quorum[t] ensures Loyal(nodes', h', t, w, h.leader[t]) {
        assert Loyal(nodes, h, t, w, h.leader[t]);
      }
    }
  }

  // No other packet carries the vote that is counted.
  lemma CountKeepsPackets(nodes: Nodes, h: History, p: Packet, s: NodeState, net: multiset<Packet>)
    requires PacketsFit(nodes, h, net) && VotesTravelOnce(net) && p in net
    requires p.ReplyPacket? && p.reply.voteGranted
    requires p.dst in nodes && nodes[p.dst].role == Candidate && nodes[p.dst].term == p.reply.term
    requires p.dst in h.counted
    requires s == nodes[p.dst].(votesReceived := nodes[p.dst].votesReceived + 1)
    ensures PacketsFit(nodes[p.dst := s], AfterCount(h, p.dst, p.src), net - multiset{p})
  {
  }

  // A leader that enters the record leads now.
  ghost predicate LeadersAreNew(h: History, h': History, c: Cluster) {
    forall t :: t in h'.leader ==> LedBy(h, t, h'.leader[t]) || Leads(c, h'.leader[t], t)
  }

  ghost function AfterWin(h: History, t: nat, n: int): History
    requires n in h.counted
  {
    if t in h.leader then h
    else h.(leader := h.leader[t := n], quorum := h.quorum[t := h.counted[n]])
  }

  // A candidate that reaches the majority in a term with a leader is that leader: the two
  // majorities share a voter, and the leader's voters are loyal.
  lemma WinnerIsUnopposed(nodes: Nodes, h: History, n: int)
    requires NodesInv(nodes, h) && n in nodes && nodes[n].role == Candidate
    requires nodes[n].votesReceived >= MajorityCount(|nodes[n].peers|)
    ensures n in h.counted && h.counted[n] <= nodes.Keys && 2 * |h.counted[n]| > |nodes.Keys|
    ensures nodes[n].term in h.leader ==> h.leader[nodes[n].term] == n
  {
    var t, voters := nodes[n].term, h.counted[n];
    MajorityIsStrict(nodes, n);
    forall v | v in voters ensures v in nodes.Keys {
      assert Grant(t, v, n) in h.grants;
    }
    if t in h.leader {
      assert Elects(nodes, h, t, h.quorum[t], h.leader[t]);
      var v := MajoritiesMeet(nodes.Keys, h.quorum[t], voters);
      assert Loyal(nodes, h, t, v, h.leader[t]);
      assert Grant(t, v, n) in h.grants;
    }
  }

  // In a leaderless term a node that granted a candidate granted and stays with it alone.
  lemma LeaderlessVoterIsLoyal(nodes: Nodes, h: History, t: nat, v: int, n: int)
    requires NodesInv(nodes, h) && t !in h.leader && Grant(t, v, n) in h.grants
    ensures Loyal(nodes, h, t, v, n)
  {
  }

  // Every recorded quorum, also the new one, elects its leader.
  lemma WinnersElect(nodes: Nodes, h: History, n: int, u: nat)
    requires NodesInv(nodes, h) && n in nodes && nodes[n].role == Candidate && n in h.counted
    requires nodes[n].votesReceived >= MajorityCount(|nodes[n].peers|) && nodes[n].term !in h.leader
    requires u in h.leader || u == nodes[n].term
    ensures var h' := AfterWin(h, nodes[n].term, n);
            u in h'.leader && u in h'.quorum && Elects(nodes, h', u, h'.quorum[u], h'.leader[u])
  {
    var t := nodes[n].term;
    var h' := AfterWin(h, t, n);
    WinnerIsUnopposed(nodes, h, n);
    forall v | v in h'.quorum[u] ensures Loyal(nodes, h', u, v, h'.leader[u]) {
      if u == t {
        LeaderlessVoterIsLoyal(nodes, h, t, v, n);
      } else {
        assert Loyal(nodes, h, u, v, h.leader[u]);
      }
    }
  }

  lemma WinRecordsLeader(nodes: Nodes, h: History, n: int)
    requires NodesInv(nodes, h) && n in nodes && nodes[n].role == Candidate
    requires nodes[n].votesReceived >= MajorityCount(|nodes[n].peers|) && n in h.counted
    ensures var h' := AfterWin(h, nodes[n].term, n);
            NodesInv(nodes, h') && Extends(h, h') && LedBy(h', nodes[n].term, n)
  {
    var t := nodes[n].term;
    var h' := AfterWin(h, t, n);
    if t in h.leader {
      WinnerIsUnopposed(nodes, h, n);
    } else {
      forall u | u in h'.leader
        ensures u in h'.quorum && Elects(nodes, h', u, h'.quorum[u], h'.leader[u])
      {
        WinnersElect(nodes, h, n, u);
      }
    }
  }

  lemma WinKeepsPackets(nodes: Nodes, h: History, n: int, net: multiset<Packet>)
    requires PacketsFit(nodes, h, net) && n in h.counted && n in nodes
    ensures PacketsFit(nodes, AfterWin(h, nodes[n].term, n), net)
  {
  }

  ghost function AfterReply(h: History, p: Packet, s: NodeState, s': NodeState): History
    requires p.ReplyPacket?
  {
    if s.role == Candidate && p.reply.voteGranted && p.reply.term == s.term && p.dst in h.counted then
      var counted := AfterCount(h, p.dst, p.src);
      if s'.role == Leader then AfterWin(counted, s.term, p.dst) else counted
    else h
  }

  lemma WinKeeps(nodes: Nodes, h: History, n: int, s: NodeState, net: multiset<Packet>)
    requires NodesInv(nodes, h) && PacketsFit(nodes, h, net) && n in nodes && nodes[n].role == Candidate
    requires nodes[n].votesReceived >= MajorityCount(|nodes[n].peers|) && n in h.counted
    requires s == nodes[n].(role := Leader, lastHeartbeatMs := s.lastHeartbeatMs)
    ensures var h' := AfterWin(h, nodes[n].term, n); NodesInv(nodes[n := s], h') && PacketsFit(nodes[n := s], h', net)
  {
    var h' := AfterWin(h, nodes[n].term, n);
    WinRecordsLeader(nodes, h, n);
    WinKeepsPackets(nodes, h, n, net);
    NodeSettles(nodes, h', n, s);
    PacketsSettle(nodes, h', n, s, net);
  }

  lemma CountedReplyKeeps(c: Cluster, h: History, a: Action)
    requires Inv(c, h) && a.Deliver? && a.packet.ReplyPacket? && Enabled(c, a)
    requires a.packet.reply.voteGranted
    requires c.nodes[a.packet.dst].role == Candidate && c.nodes[a.packet.dst].term == a.packet.reply.term
    ensures Inv(Next(c, a), AfterReply(h, a.packet, c.nodes[a.packet.dst], Next(c, a).nodes[a.packet.dst]))
  {
    var p := a.packet;
    var n, s0 := p.dst, c.nodes[p.dst];
    var s1 := s0.(votesReceived := s0.votesReceived + 1);
    var s2 := OnRequestVoteReply(s0, p.reply, a.nowMs);
    var nodes1, rest := c.nodes[n := s1], c.net - multiset{p};
    assert PacketFits(c.nodes, h, p);
    CountKeepsNodes(c.nodes, h, n, p.src, s1);
    CountKeepsPackets(c.nodes, h, p, s1, c.net);
    FewerPackets(c.net, rest);
    if s2.role == Leader {
      WinKeeps(nodes1, AfterCount(h, n, p.src), n, s2, rest);
      Overwrite(c.nodes, n, s1, s2);
    }
  }

  // ---------- Steps that only settle a node ----------

  lemma SettledDeliveryKeeps(c: Cluster, h: History, a: Action)
    requires Inv(c, h) && a.Deliver? && !a.packet.VotePacket? && Enabled(c, a)
    requires Settles(h, c.nodes[a.packet.dst], Next(c, a).nodes[a.packet.dst])
    ensures Inv(Next(c, a), h)
  {
    var n, s := a.packet.dst, Next(c, a).nodes[a.packet.dst];
    NodeSettles(c.nodes, h, n, s);
    PacketsSettle(c.nodes, h, n, s, c.net);
    FewerPackets(c.net, Next(c, a).net);
  }

  lemma BeatArrivalKeeps(c: Cluster, h: History, a: Action)
    requires Inv(c, h) && a.Deliver? && a.packet.BeatPacket? && Enabled(c, a)
    ensures Inv(Next(c, a), h)
  {
    assert PacketFits(c.nodes, h, a.packet);
    SettledDeliveryKeeps(c, h, a);
  }

  // A tick that starts no election moves the clock field and may send heartbeats of the leader.
  lemma QuietTickKeeps(c: Cluster, h: History, a: Action)
    requires Inv(c, h) && a.ClockTick? && Enabled(c, a)
    requires !Tick(c.nodes[a.node], a.nowMs, a.timeoutMs).1.Campaign?
    ensures Inv(Next(c, a), h)
  {
    var n := a.node;
    var (s, out) := Tick(c.nodes[n], a.nowMs, a.timeoutMs);
    NodeSettles(c.nodes, h, n, s);
    PacketsSettle(c.nodes, h, n, s, c.net);
    var sent := Send(s, out);
    forall p | p in sent ensures p.BeatPacket? && PacketFits(c.nodes[n := s], h, p) {}
    BeatsTravelFreely(c.net, sent);
  }

  lemma BeatsTravelFreely(net: multiset<Packet>, beats: multiset<Packet>)
    requires VotesTravelOnce(net) && forall p :: p in beats ==> p.BeatPacket?
    ensures VotesTravelOnce(net + beats)
  {
  }

  // ---------- Whole runs ----------

  lemma ReplyKeeps(c: Cluster, h: History, a: Action)
    requires Inv(c, h) && a.Deliver? && a.packet.ReplyPacket? && Enabled(c, a)
    ensures Inv(Next(c, a), AfterReply(h, a.packet, c.nodes[a.packet.dst], Next(c, a).nodes[a.packet.dst]))
  {
    var s, reply := c.nodes[a.packet.dst], a.packet.reply;
    if s.role == Candidate && reply.voteGranted && reply.term == s.term {
      CountedReplyKeeps(c, h, a);
    } else {
      SettledDeliveryKeeps(c, h, a);
    }
  }

  ghost function AfterStep(c: Cluster, h: History, a: Action): History
    requires Enabled(c, a)
  {
    match a
    case Elect(n, _, _) => AfterCampaign(h, Next(c, a).nodes[n])
    case ClockTick(n, now, timeout) =>
      if Tick(c.nodes[n], now, timeout).1.Campaign? then AfterCampaign(h, Next(c, a).nodes[n]) else h
    case Deliver(VotePacket(_, dst, req), now) => AfterVote(h, a.packet, OnRequestVote(c.nodes[dst], req, now).1)
    case Deliver(ReplyPacket(_, dst, _), _) => AfterReply(h, a.packet, c.nodes[dst], Next(c, a).nodes[dst])
    case Deliver(BeatPacket(_, _, _), _) => h
    case Lose(_) => h
  }

  lemma StepKeeps(c: Cluster, h: History, a: Action)
    requires Inv(c, h) && Enabled(c, a)
    ensures Inv(Next(c, a), AfterStep(c, h, a))
  {
    match a
    case Elect(_, _, _) => CampaignKeeps(c, h, a);
    case ClockTick(n, now, timeout) =>
      if Tick(c.nodes[n], now, timeout).1.Campaign? {
        var e := Elect(n, now, timeout);
        assert Next(c, a) == Next(c, e);
        CampaignKeeps(c, h, e);
      } else {
        QuietTickKeeps(c, h, a);
      }
    case Deliver(VotePacket(_, _, _), _) => VoteKeeps(c, h, a);
    case Deliver(ReplyPacket(_, _, _), _) => ReplyKeeps(c, h, a);
    case Deliver(BeatPacket(_, _, _), _) => BeatArrivalKeeps(c, h, a);
    case Lose(_) => FewerPackets(c.net, Next(c, a).net);
  }

  // What a step adds to the history.
  lemma StepExtends(c: Cluster, h: History, a: Action)
    requires Enabled(c, a)
    ensures Extends(h, AfterStep(c, h, a)) && LeadersAreNew(h, AfterStep(c, h, a), Next(c, a))
  {
  }

  lemma VotesAreRecorded(c: Cluster, h: History, a: Action, g: Grant)
    requires Configured(c.nodes) && Casts(c, a, g)
    ensures g in AfterStep(c, h, a).grants
  {
  }

  lemma RunKeeps(run: seq<Cluster>, actions: seq<Action>, i: nat, j: nat) returns (h: History, h': History)
    requires IsRun(run, actions) && i <= j < |run|
    ensures Inv(run[i], h) && Inv(run[j], h') && Extends(h, h')
    decreases j
  {
    if j == 0 {
      h := History({}, map[], map[], map[]);
      h' := h;
    } else {
      h, h' := RunKeeps(run, actions, if i == j then i - 1 else i, j - 1);
      StepKeeps(run[j - 1], h', actions[j - 1]);
      StepExtends(run[j - 1], h', actions[j - 1]);
      h' := AfterStep(run[j - 1], h', actions[j - 1]);
      if i == j { h := h'; }
    }
  }

  /** Election Safety: over a whole run, no two nodes ever lead the same term. */
  lemma AtMostOneLeaderPerTerm(run: seq<Cluster>, actions: seq<Action>, i: nat, j: nat, m: int, n: int, term: nat)
    requires IsRun(run, actions) && i < |run| && j < |run|
    requires Leads(run[i], m, term) && Leads(run[j], n, term)
    ensures m == n
  {
    if i <= j {
      var h, h' := RunKeeps(run, actions, i, j);
    } else {
      var h, h' := RunKeeps(run, actions, j, i);
    }
  }

  // ---------- Second votes ----------

  // The history knows every vote of the run so far, and only leaders that have led in it.
  ghost predicate Remembers(run: seq<Cluster>, actions: seq<Action>, j: nat, h: History)
    requires |run| == |actions| + 1 && j < |run|
  {
    && (forall i, g :: 0 <= i < j && Casts(run[i], actions[i], g) ==> g in h.grants)
    && (forall t :: t in h.leader ==> HasLed(run, j, h.leader[t], t))
  }

  ghost predicate HasLed(run: seq<Cluster>, j: nat, n: int, term: nat)
    requires j < |run|
  {
    exists k :: 0 <= k <= j && Leads(run[k], n, term)
  }

  lemma {:induction false} RunRemembers(run: seq<Cluster>, actions: seq<Action>, j: nat) returns (h: History)
    requires IsRun(run, actions) && j < |run|
    ensures Inv(run[j], h) && Remembers(run, actions, j, h)
  {
    if j == 0 {
      h := History({}, map[], map[], map[]);
    } else {
      var before := RunRemembers(run, actions, j - 1);
      StepKeeps(run[j - 1], before, actions[j - 1]);
      StepExtends(run[j - 1], before, actions[j - 1]);
      h := AfterStep(run[j - 1], before, actions[j - 1]);
      forall g | Casts(run[j - 1], actions[j - 1], g) ensures g in h.grants {
        VotesAreRecorded(run[j - 1], before, actions[j - 1], g);
      }
      forall t | t in h.leader ensures HasLed(run, j, h.leader[t], t) {
        if LedBy(before, t, h.leader[t]) {
          assert HasLed(run, j - 1, h.leader[t], t);
        } else {
          assert Leads(run[j], h.leader[t], t);
        }
      }
    }
  }

  /** A node may vote for two candidates in one term, but the second is then a node that leads, or has
      led, that term. */
  lemma SecondVoteIsForLeader(run: seq<Cluster>, actions: seq<Action>, i: nat, j: nat, g: Grant, g': Grant)
    requires IsRun(run, actions) && i < j < |actions|
    requires Casts(run[i], actions[i], g) && Casts(run[j], actions[j], g')
    requires g.term == g'.term && g.voter == g'.voter && g.candidate != g'.candidate
    ensures HasLed(run, j, g'.candidate, g'.term)
  {
    var h := RunRemembers(run, actions, j);
    var c, a := run[j], actions[j];
    assert g in h.grants;
    if a.Deliver? {
      AdoptionKeeps(c, h, g.voter, a.packet.req.term);
      assert PacketFits(c.nodes, h, a.packet);
      var nodes := c.nodes[g.voter := AdoptTerm(c.nodes[g.voter], a.packet.req.term)];
      EarlierGrantsAgree(nodes, h, g.voter, g'.candidate, g);
    }
  }
}
