/** A run of three nodes in which a term gets its leader and a node then votes a second time in it. */
module ElectionWitness {
  import opened Raft
  import opened RaftCluster

  function Node(id: int, peers: seq<int>, role: Role, term: nat, votedFor: int, votes: int, heartbeat: nat): NodeState {
    NodeState(id, peers, role, term, votedFor, votes, heartbeat, 150, 0, 0)
  }

  function Fresh(id: int, peers: seq<int>): NodeState {
    Node(id, peers, Follower, 0, NO_VOTE, 0, 0)
  }

  function Campaigning(id: int, peers: seq<int>): NodeState {
    Node(id, peers, Candidate, 1, id, 1, 0)
  }

  function Three(a: NodeState, b: NodeState, c: NodeState): Nodes {
    map[1 := a, 2 := b, 3 := c]
  }

  function Ask(src: int, dst: int): Packet {
    VotePacket(src, dst, RequestVote(1, src, 0, 0))
  }

  const BEAT: Packet := BeatPacket(2, 1, AppendEntries(1, 2))

  // A run and its actions.
  datatype Trace = Trace(run: seq<Cluster>, actions: seq<Action>) {
    ghost predicate Valid() {
      IsRun(run, actions)
    }

    function Last(): Cluster
      requires run != []
    {
      run[|run| - 1]
    }

    ghost function Then(a: Action): Trace
      requires run != [] && Enabled(Last(), a)
    {
      Trace(run + [Next(Last(), a)], actions + [a])
    }

    // One step further.
    ghost predicate Grows(t: Trace) {
      t.Valid() && run <= t.run && actions <= t.actions && |t.actions| == |actions| + 1
    }

    lemma ThenIsValid(a: Action)
      requires Valid() && Enabled(Last(), a)
      ensures Then(a).Valid()
    {
    }
  }

  lemma Start() returns (t: Trace)
    ensures t.Valid() && |t.actions| == 0
    ensures t.Last().nodes == Three(Fresh(1, [2, 3]), Fresh(2, [1, 3]), Fresh(3, [1, 2]))
  {
    var c := Cluster(Three(Fresh(1, [2, 3]), Fresh(2, [1, 3]), Fresh(3, [1, 2])), multiset{});
    assert Range([2, 3]) == {2, 3} == c.nodes.Keys - {1};
    assert Range([1, 3]) == {1, 3} == c.nodes.Keys - {2};
    assert Range([1, 2]) == {1, 2} == c.nodes.Keys - {3};
    t := Trace([c], []);
  }

  // What an election does to the nodes and the network.
  lemma Election(c: Cluster, n: int)
    requires n in c.nodes
    ensures var c' := Next(c, Elect(n, 0, 150));
            var s := StartElection(c.nodes[n], 0, 150);
            && c'.nodes == c.nodes[n := s]
            && forall p :: p in s.peers ==> VotePacket(s.id, p, VoteRequestOf(s)) in c'.net
  {
    var s := StartElection(c.nodes[n], 0, 150);
    forall p | p in s.peers
      ensures VotePacket(s.id, p, VoteRequestOf(s)) in VoteBroadcast(s.id, Range(s.peers), VoteRequestOf(s))
    {
      assert p in Range(s.peers);
    }
  }

  lemma LastOfThen(t: Trace, a: Action)
    requires t.Valid() && Enabled(t.Last(), a)
    ensures t.Then(a).Last() == Next(t.Last(), a) && t.Grows(t.Then(a))
  {
    t.ThenIsValid(a);
  }

  // Nodes 1 and 2 campaign in the first term.
  lemma FirstCampaign(t: Trace) returns (t': Trace)
    requires t.Valid() && t.Last().nodes == Three(Fresh(1, [2, 3]), Fresh(2, [1, 3]), Fresh(3, [1, 2]))
    ensures t.Grows(t') && t'.actions == t.actions + [Elect(1, 0, 150)]
    ensures t'.Last().nodes == Three(Campaigning(1, [2, 3]), Fresh(2, [1, 3]), Fresh(3, [1, 2]))
  {
    var e := Elect(1, 0, 150);
    assert Enabled(t.Last(), e);
    t' := t.Then(e);
    LastOfThen(t, e);
    Election(t.Last(), 1);
  }

  lemma SecondCampaign(t: Trace) returns (t': Trace)
    requires t.Valid() && t.Last().nodes == Three(Campaigning(1, [2, 3]), Fresh(2, [1, 3]), Fresh(3, [1, 2]))
    ensures t.Grows(t')
    ensures t'.Last().nodes == Three(Campaigning(1, [2, 3]), Campaigning(2, [1, 3]), Fresh(3, [1, 2]))
    ensures Ask(2, 1) in t'.Last().net && Ask(2, 3) in t'.Last().net
  {
    var e := Elect(2, 0, 150);
    assert Enabled(t.Last(), e);
    t' := t.Then(e);
    LastOfThen(t, e);
    Election(t.Last(), 2);
    assert 1 in [1, 3] && 3 in [1, 3];
  }

  // Node 3 votes for node 2, and two of three votes make it the leader.
  lemma Vote(t: Trace) returns (t': Trace)
    requires t.Valid() && t.Last().nodes == Three(Campaigning(1, [2, 3]), Campaigning(2, [1, 3]), Fresh(3, [1, 2]))
    requires Ask(2, 1) in t.Last().net && Ask(2, 3) in t.Last().net
    ensures t.Grows(t')
    ensures t'.Last().nodes
         == Three(Campaigning(1, [2, 3]), Campaigning(2, [1, 3]), Node(3, [1, 2], Follower, 1, 2, 0, 0))
    ensures Ask(2, 1) in t'.Last().net && GrantReply(3, 2, 1) in t'.Last().net
  {
    t' := t.Then(Deliver(Ask(2, 3), 0));
    t.ThenIsValid(Deliver(Ask(2, 3), 0));
  }

  lemma Win(t: Trace) returns (t': Trace)
    requires t.Valid()
    requires t.Last().nodes
          == Three(Campaigning(1, [2, 3]), Campaigning(2, [1, 3]), Node(3, [1, 2], Follower, 1, 2, 0, 0))
    requires Ask(2, 1) in t.Last().net && GrantReply(3, 2, 1) in t.Last().net
    ensures t.Grows(t')
    ensures t'.Last().nodes
         == Three(Campaigning(1, [2, 3]), Node(2, [1, 3], Leader, 1, 2, 2, 0), Node(3, [1, 2], Follower, 1, 2, 0, 0))
    ensures Ask(2, 1) in t'.Last().net
  {
    t' := t.Then(Deliver(GrantReply(3, 2, 1), 0));
    t.ThenIsValid(Deliver(GrantReply(3, 2, 1), 0));
  }

  // The leader's heartbeat moves the vote of node 1.
  lemma SendBeat(t: Trace) returns (t': Trace)
    requires t.Valid() && Ask(2, 1) in t.Last().net
    requires t.Last().nodes
          == Three(Campaigning(1, [2, 3]), Node(2, [1, 3], Leader, 1, 2, 2, 0), Node(3, [1, 2], Follower, 1, 2, 0, 0))
    ensures t.Grows(t')
    ensures 1 in t'.Last().nodes && t'.Last().nodes[1] == Campaigning(1, [2, 3])
    ensures Ask(2, 1) in t'.Last().net && BEAT in t'.Last().net
  {
    t' := t.Then(ClockTick(2, 50, 150));
    t.ThenIsValid(ClockTick(2, 50, 150));
    assert Range([1, 3]) == {1, 3};
    assert BEAT in BeatBroadcast(2, Range([1, 3]), AppendEntries(1, 2));
  }

  lemma ReceiveBeat(t: Trace) returns (t': Trace)
    requires t.Valid() && 1 in t.Last().nodes && t.Last().nodes[1] == Campaigning(1, [2, 3])
    requires Ask(2, 1) in t.Last().net && BEAT in t.Last().net
    ensures t.Grows(t')
    ensures 1 in t'.Last().nodes && t'.Last().nodes[1] == Node(1, [2, 3], Follower, 1, 2, 1, 50)
    ensures Ask(2, 1) in t'.Last().net
  {
    t' := t.Then(Deliver(BEAT, 50));
    t.ThenIsValid(Deliver(BEAT, 50));
  }

  // The vote request, still under way, is now granted.
  lemma VoteAgain(t: Trace) returns (t': Trace)
    requires t.Valid() && Ask(2, 1) in t.Last().net
    requires 1 in t.Last().nodes && t.Last().nodes[1] == Node(1, [2, 3], Follower, 1, 2, 1, 50)
    ensures t.Grows(t')
    ensures Casts(t.Last(), t'.actions[|t.actions|], Grant(1, 1, 2))
  {
    t' := t.Then(Deliver(Ask(2, 1), 60));
    t.ThenIsValid(Deliver(Ask(2, 1), 60));
  }

  /** Node 1 votes for itself and, once node 2 leads the term, for node 2 in the same term. */
  lemma NodeVotesTwice() returns (run: seq<Cluster>, actions: seq<Action>)
    ensures IsRun(run, actions) && |actions| == 7
    ensures Leads(run[4], 2, 1)
    ensures Casts(run[0], actions[0], Grant(1, 1, 1)) && Casts(run[6], actions[6], Grant(1, 1, 2))
  {
    var t0 := Start();
    var t1 := FirstCampaign(t0);
    assert Casts(t1.run[0], t1.actions[0], Grant(1, 1, 1));
    var t2 := SecondCampaign(t1);
    var t3 := Vote(t2);
    var t4 := Win(t3);
    assert Leads(t4.run[4], 2, 1);
    var t5 := SendBeat(t4);
    var t6 := ReceiveBeat(t5);
    var t7 := VoteAgain(t6);
    run, actions := t7.run, t7.actions;
  }
}
