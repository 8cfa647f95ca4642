/** Leader election of `RaftNode` (src/raft.cpp): one node's handlers, as functions on the
    node's state and as a class that updates its fields in place.

    Times are milliseconds of the monotonic clock; the clock reading and the freshly drawn
    election timeout are parameters of the handlers. */
module Raft {
  import opened Bytes

  datatype Role = Follower | Candidate | Leader

  datatype RequestVote = RequestVote(term: nat, candidateId: int, lastLogIndex: nat, lastLogTerm: nat)

  datatype RequestVoteReply = RequestVoteReply(term: nat, voteGranted: bool)

  datatype AppendEntries = AppendEntries(term: nat, leaderId: int)

  const NO_VOTE: int := -1
  const HEARTBEAT_INTERVAL_MS: nat := 50

  datatype NodeState = NodeState(
    id: int,
    peers: seq<int>,
    role: Role,
    term: nat,
    votedFor: int,
    votesReceived: int,
    lastHeartbeatMs: nat,
    electionTimeoutMs: nat,
    lastLogIndex: nat,
    lastLogTerm: nat)

  // What a clock tick hands to the broadcast callbacks.
  datatype Outgoing = Silence | Campaign(rv: RequestVote) | Beat(ae: AppendEntries)

  function InitNode(id: int, peers: seq<int>, timeoutMs: nat): NodeState {
    NodeState(id, peers, Follower, 0, NO_VOTE, 0, 0, timeoutMs, 0, 0)
  }

  function MajorityCount(peerCount: nat): nat {
    (peerCount + 1) / 2 + 1
  }

  // The unsigned 64-bit difference of two clock readings.
  function Elapsed(nowMs: nat, sinceMs: nat): nat {
    (nowMs - sinceMs) % UINT64_SIZE
  }

  function VoteRequestOf(s: NodeState): RequestVote {
    RequestVote(s.term, s.id, s.lastLogIndex, s.lastLogTerm)
  }

  function StartElection(s: NodeState, nowMs: nat, timeoutMs: nat): NodeState {
    s.(role := Candidate, term := s.term + 1, votedFor := s.id, votesReceived := 1,
       lastHeartbeatMs := nowMs, electionTimeoutMs := timeoutMs)
  }

  function Tick(s: NodeState, nowMs: nat, timeoutMs: nat): (NodeState, Outgoing) {
    var elapsed := Elapsed(nowMs, s.lastHeartbeatMs);
    if s.role != Leader && elapsed > s.electionTimeoutMs then
      var s' := StartElection(s, nowMs, timeoutMs);
      (s', Campaign(VoteRequestOf(s')))
    else if s.role == Leader && elapsed >= HEARTBEAT_INTERVAL_MS then
      (s.(lastHeartbeatMs := nowMs), Beat(AppendEntries(s.term, s.id)))
    else
      (s, Silence)
  }

  predicate LogOk(s: NodeState, req: RequestVote) {
    || req.lastLogTerm > s.lastLogTerm
    || (req.lastLogTerm == s.lastLogTerm && req.lastLogIndex >= s.lastLogIndex)
  }

  // A request or reply of a newer term makes the node a follower of that term, without a vote.
  function AdoptTerm(s: NodeState, term: nat): NodeState {
    if term > s.term then s.(term := term, role := Follower, votedFor := NO_VOTE) else s
  }

  function OnRequestVote(s: NodeState, req: RequestVote, nowMs: nat): (NodeState, RequestVoteReply) {
    if req.term < s.term then
      (s, RequestVoteReply(s.term, false))
    else
      var a := AdoptTerm(s, req.term);
      if (a.votedFor == NO_VOTE || a.votedFor == req.candidateId) && LogOk(a, req) then
        (a.(votedFor := req.candidateId, lastHeartbeatMs := nowMs), RequestVoteReply(a.term, true))
      else
        (a, RequestVoteReply(a.term, false))
  }

  function OnRequestVoteReply(s: NodeState, reply: RequestVoteReply, nowMs: nat): NodeState {
    if s.role != Candidate then s
    else if reply.term > s.term then AdoptTerm(s, reply.term).(votesReceived := 0)
    else if !reply.voteGranted || reply.term != s.term then s
    else
      var c := s.(votesReceived := s.votesReceived + 1);
      if c.votesReceived >= MajorityCount(|c.peers|) then c.(role := Leader, lastHeartbeatMs := nowMs) else c
  }

  function OnAppendEntries(s: NodeState, req: AppendEntries, nowMs: nat): NodeState {
    if req.term < s.term then s
    else s.(term := req.term, role := Follower, votedFor := req.leaderId, lastHeartbeatMs := nowMs)
  }

  /** The node as an object whose handlers update its fields. */
  class RaftNode {
    const id: int
    const peers: seq<int>
    var role: Role
    var term: nat
    var votedFor: int
    var votesReceived: int
    var lastHeartbeatMs: nat
    var electionTimeoutMs: nat
    const lastLogIndex: nat := 0
    const lastLogTerm: nat := 0

    ghost function State(): NodeState
      reads this
    {
      NodeState(id, peers, role, term, votedFor, votesReceived, lastHeartbeatMs, electionTimeoutMs,
                lastLogIndex, lastLogTerm)
    }

    constructor (id: int, peers: seq<int>, timeoutMs: nat)
      ensures State() == InitNode(id, peers, timeoutMs)
      ensures role == Follower && term == 0 && votedFor == -1 && votesReceived == 0 && lastHeartbeatMs == 0
      ensures this.id == id && this.peers == peers && electionTimeoutMs == timeoutMs
    {
      this.id, this.peers := id, peers;
      role, term, votedFor, votesReceived := Follower, 0, NO_VOTE, 0;
      lastHeartbeatMs, electionTimeoutMs := 0, timeoutMs;
    }

    method StartElectionLocked(nowMs: nat, timeoutMs: nat) returns (rv: RequestVote)
      modifies this
      ensures State() == StartElection(old(State()), nowMs, timeoutMs)
      ensures rv == VoteRequestOf(State())
      ensures role == Candidate && term == old(term) + 1 && votedFor == id && votesReceived == 1
      ensures lastHeartbeatMs == nowMs && electionTimeoutMs == timeoutMs
    {
      role := Candidate;
      term := term + 1;
      votedFor := id;
      votesReceived := 1;
      lastHeartbeatMs := nowMs;
      electionTimeoutMs := timeoutMs;
      rv := RequestVote(term, id, lastLogIndex, lastLogTerm);
    }

    /** With the clock running forward, a node that does not lead campaigns exactly when more than its timeout
        has passed since it last heard or voted, and a leader sends a heartbeat exactly when 50 ms have passed
        since its last. A clock that has gone back wraps around. */
    method HandleTick(nowMs: nat, timeoutMs: nat) returns (out: Outgoing)
      modifies this
      ensures (State(), out) == Tick(old(State()), nowMs, timeoutMs)
      ensures old(lastHeartbeatMs) <= nowMs < UINT64_SIZE ==>
        && (out.Campaign? <==> old(role) != Leader && nowMs - old(lastHeartbeatMs) > old(electionTimeoutMs))
        && (out.Beat? <==> old(role) == Leader && nowMs - old(lastHeartbeatMs) >= 50)
      ensures nowMs < old(lastHeartbeatMs) < UINT64_SIZE ==>
        var elapsed := UINT64_SIZE - (old(lastHeartbeatMs) - nowMs);
        && (out.Campaign? <==> old(role) != Leader && elapsed > old(electionTimeoutMs))
        && (out.Beat? <==> old(role) == Leader && elapsed >= 50)
      ensures out.Campaign? ==> term == old(term) + 1 && role == Candidate && out.rv.term == term
      ensures out.Beat? ==> out.ae == AppendEntries(old(term), id) && role == Leader && term == old(term)
      ensures !out.Campaign? ==> role == old(role) && term == old(term) && votedFor == old(votedFor)
      ensures lastHeartbeatMs == if out.Silence? then old(lastHeartbeatMs) else nowMs
    {
      var elapsed := Elapsed(nowMs, lastHeartbeatMs);
      if (role == Follower || role == Candidate) && elapsed > electionTimeoutMs {
        var rv := StartElectionLocked(nowMs, timeoutMs);
        return Campaign(rv);
      }
      out := Silence;
      if role == Leader && elapsed >= HEARTBEAT_INTERVAL_MS {
        lastHeartbeatMs := nowMs;
        out := Beat(AppendEntries(term, id));
      }
    }

    /** The node moves up to the term of a newer request, as a follower. It grants its vote if the request is
        not stale, its log is not behind, and it has not voted for another candidate in the term; the reply
        carries the node's term. */
    method HandleRequestVote(req: RequestVote, nowMs: nat) returns (rep: RequestVoteReply)
      modifies this
      ensures (State(), rep) == OnRequestVote(old(State()), req, nowMs)
      ensures term == (if req.term > old(term) then req.term else old(term)) && rep.term == term
      ensures req.term > old(term) ==> role == Follower
      ensures req.term <= old(term) ==> role == old(role)
      ensures rep.voteGranted <==>
        && req.term >= old(term)
        && (req.term > old(term) || old(votedFor) == NO_VOTE || old(votedFor) == req.candidateId)
        && (req.lastLogTerm > lastLogTerm || (req.lastLogTerm == lastLogTerm && req.lastLogIndex >= lastLogIndex))
      ensures rep.voteGranted ==> votedFor == req.candidateId && lastHeartbeatMs == nowMs
    {
      rep := RequestVoteReply(term, false);
      if req.term < term {
        return;
      }
      if req.term > term {
        term := req.term;
        role := Follower;
        votedFor := NO_VOTE;
      }
      var logOk := req.lastLogTerm > lastLogTerm ||
                   (req.lastLogTerm == lastLogTerm && req.lastLogIndex >= lastLogIndex);
      if (votedFor == NO_VOTE || votedFor == req.candidateId) && logOk {
        votedFor := req.candidateId;
        rep := RequestVoteReply(rep.term, true);
        lastHeartbeatMs := nowMs;
      }
      rep := RequestVoteReply(term, rep.voteGranted);
    }

    /** A candidate steps down for a newer term, counts a vote granted in its own, and leads once it has more
        votes than half of its cluster, itself included. */
    method HandleRequestVoteReply(reply: RequestVoteReply, nowMs: nat) returns (becameLeader: bool)
      modifies this
      ensures State() == OnRequestVoteReply(old(State()), reply, nowMs)
      ensures becameLeader == (old(role) != Leader && role == Leader)
      ensures old(role) == Candidate && reply.term > old(term) ==>
        role == Follower && term == reply.term && votedFor == NO_VOTE && votesReceived == 0
      ensures becameLeader ==> lastHeartbeatMs == nowMs
      ensures becameLeader <==>
        && old(role) == Candidate && reply.voteGranted && reply.term == old(term)
        && 2 * (old(votesReceived) + 1) > |peers| + 1
      ensures old(role) != Candidate ==> State() == old(State())
    {
      becameLeader := false;
      if role != Candidate {
        return;
      }
      if reply.term > term {
        term := reply.term;
        role := Follower;
        votedFor := NO_VOTE;
        votesReceived := 0;
        return;
      }
      if !reply.voteGranted || reply.term != term {
        return;
      }
      votesReceived := votesReceived + 1;
      if votesReceived >= MajorityCount(|peers|) {
        role := Leader;
        lastHeartbeatMs := nowMs;
        becameLeader := true;
      }
    }

    /** A heartbeat that is not stale makes the node a follower of its sender. */
    method HandleAppendEntries(req: AppendEntries, nowMs: nat)
      modifies this
      ensures State() == OnAppendEntries(old(State()), req, nowMs)
      ensures req.term >= old(term) ==>
        role == Follower && term == req.term && votedFor == req.leaderId && lastHeartbeatMs == nowMs
      ensures req.term < old(term) ==> State() == old(State())
    {
      if req.term < term {
        return;
      }
      term := req.term;
      role := Follower;
      votedFor := req.leaderId;
      lastHeartbeatMs := nowMs;
    }
  }
}
