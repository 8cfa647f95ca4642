/** A leader that replicates its writes to followers (src/replication.cpp, src/storage_engine.cpp),
    each node a store of `Lsm`. Node 0 is the leader; followers are written only by it. A request is
    applied at a follower, perhaps repeatedly, before the next write or never, and a follower
    acknowledges only after applying. Any node may flush, compact or reopen at any time. */
module ReplicatedStore {
  import opened Bytes
  import opened Results
  import opened Lsm
  import opened LsmRefinement
  import opened Replication
  import opened Sets

  // What one follower does with a request: one application per element, each with or without a
  // flush, and the answer the leader sees.
  datatype Delivery = Delivery(flushes: seq<bool>, response: Response)

  datatype Step =
    | LeaderWrite(key: bytes, value: bytes, tombstone: bool, accepted: bool, flush: bool,
                  deliveries: seq<Delivery>, inTime: nat)
    | Internal(node: nat, event: Event)

  datatype Attempt = Attempt(value: bytes, tombstone: bool, acked: bool)

  // The nodes, and the leader's latest attempt on each key.
  datatype Cluster = Cluster(nodes: seq<Store>, last: map<bytes, Attempt>)

  function Responses(ds: seq<Delivery>): seq<Response> {
    seq(|ds|, i requires 0 <= i < |ds| => ds[i].response)
  }

  function NetworkOf(step: Step): Network
    requires step.LeaderWrite?
  {
    Network(true, Responses(step.deliveries), step.inTime)
  }

  ghost predicate Allowed(c: Cluster, step: Step) {
    match step
    case LeaderWrite(_, _, _, _, _, ds, _) =>
      && |ds| == |c.nodes| - 1
      && forall i :: 0 <= i < |ds| && ds[i].response == Ready(true) ==> ds[i].flushes != []
    case Internal(n, e) => n < |c.nodes| && !e.Write? && !e.FlushLost?
  }

  ghost predicate Acked(step: Step, quorum: nat)
    requires step.LeaderWrite?
  {
    1 + |Ackers(NetworkOf(step))| >= EffectiveQuorum(quorum)
  }

  // One write, with or without the flush it triggers.
  function Put(s: Store, e: Event, flush: bool): Store {
    if flush then Apply(Apply(s, e), Flush) else Apply(s, e)
  }

  // A follower applies the request once per element.
  function Deliver(s: Store, key: bytes, value: bytes, tombstone: bool, flushes: seq<bool>): Store
    decreases |flushes|
  {
    if flushes == [] then s
    else Deliver(Put(s, Write(key, value, tombstone, Applied), flushes[0]), key, value, tombstone, flushes[1..])
  }

  // The leader applies its write if it reached the quorum.
  ghost function Lead(s: Store, step: Step, quorum: nat): Store
    requires step.LeaderWrite?
  {
    if Acked(step, quorum) then Put(s, Write(step.key, step.value, step.tombstone, Applied), step.flush)
    else Apply(s, Write(step.key, step.value, step.tombstone, LoggedOnly))
  }

  ghost function Next(c: Cluster, step: Step, quorum: nat): Cluster
    requires Allowed(c, step) && c.nodes != []
  {
    match step
    case LeaderWrite(key, value, tombstone, accepted, flush, ds, _) =>
      if key == [] || !accepted then c
      else
        Cluster(seq(|c.nodes|, i requires 0 <= i < |c.nodes| =>
                      if i == 0 then Lead(c.nodes[0], step, quorum)
                      else Deliver(c.nodes[i], key, value, tombstone, ds[i - 1].flushes)),
                c.last[key := Attempt(value, tombstone, Acked(step, quorum))])
    case Internal(n, e) => c.(nodes := c.nodes[n := Apply(c.nodes[n], e)])
  }

  ghost predicate IsRun(run: seq<Cluster>, steps: seq<Step>, quorum: nat) {
    && |run| == |steps| + 1
    && run[0].nodes != [] && run[0].last == map[]
    && (forall i :: 0 <= i < |run[0].nodes| ==> run[0].nodes[i] == EMPTY)
    && forall i :: 0 <= i < |steps| ==>
         run[i].nodes != [] && Allowed(run[i], steps[i]) && run[i + 1] == Next(run[i], steps[i], quorum)
  }

  // ---------- Nodes that have a value ----------

  // The node reads the value, and its log agrees, so it reads it after a reopen too.
  ghost predicate Has(s: Store, k: bytes, v: bytes) {
    Inv(s) && Get(s, k) == Some(v) && View(LastIn(s.log, k)) == Some(v)
  }

  ghost function Holders(nodes: seq<Store>, k: bytes, v: bytes): set<nat> {
    set i: nat | 0 <= i < |nodes| && Has(nodes[i], k, v)
  }

  ghost predicate ClusterInv(c: Cluster, quorum: nat) {
    && c.nodes != []
    && (forall i :: 0 <= i < |c.nodes| ==> Inv(c.nodes[i]))
    && forall k :: k in c.last && c.last[k].acked && !c.last[k].tombstone ==>
         |Holders(c.nodes, k, c.last[k].value)| >= EffectiveQuorum(quorum)
  }

  lemma PutKeepsInv(s: Store, e: Event, flush: bool)
    requires Inv(s)
    ensures Inv(Put(s, e, flush))
  {
    StepKeeps(s, e);
    StepKeeps(Apply(s, e), Flush);
  }

  lemma PutGivesValue(s: Store, key: bytes, value: bytes, flush: bool)
    requires Inv(s) && key != []
    ensures Has(Put(s, Write(key, value, false, Applied), flush), key, value)
  {
    var e := Write(key, value, false, Applied);
    PutKeepsInv(s, e, flush);
    AppliedSetIsVisible(s, key, value);
    var log := s.log + [NextRecord(s, key, value, false)];
    assert Put(s, e, flush).log == log && log[..|s.log|] == s.log;
  }

  lemma OtherWriteKeepsValue(s: Store, e: Event, k: bytes, v: bytes)
    requires Has(s, k, v) && e.Write? && e.key != k
    ensures Has(Apply(s, e), k, v)
  {
    StepKeeps(s, e);
    OtherWriteKeeps(s, e, k);
    if e.key != [] && !e.outcome.Refused? {
      var log := s.log + [NextRecord(s, e.key, e.value, e.tombstone)];
      assert Apply(s, e).log == log && log[..|s.log|] == s.log;
    }
  }

  lemma InternalKeepsValue(s: Store, e: Event, k: bytes, v: bytes)
    requires Has(s, k, v) && !e.Write? && !e.FlushLost?
    ensures Has(Apply(s, e), k, v)
  {
    StepKeeps(s, e);
    match e
    case Flush => LiveSurvivesFlush(s, k);
    case FlushOnly => RotateReads(s, k);
    case Compact => LiveSurvivesFlush(s, k);
    case Reopen => RecoveryReadsLog(s, k);
  }

  lemma OtherPutKeepsValue(s: Store, e: Event, flush: bool, k: bytes, v: bytes)
    requires Has(s, k, v) && e.Write? && e.key != k
    ensures Has(Put(s, e, flush), k, v)
  {
    OtherWriteKeepsValue(s, e, k, v);
    InternalKeepsValue(Apply(s, e), Flush, k, v);
  }

  lemma {:induction false} DeliverKeepsInv(s: Store, key: bytes, value: bytes, tombstone: bool, flushes: seq<bool>)
    requires Inv(s)
    ensures Inv(Deliver(s, key, value, tombstone, flushes))
    decreases |flushes|
  {
    if flushes != [] {
      var e := Write(key, value, tombstone, Applied);
      PutKeepsInv(s, e, flushes[0]);
      DeliverKeepsInv(Put(s, e, flushes[0]), key, value, tombstone, flushes[1..]);
    }
  }

  lemma {:induction false} DeliverGivesValue(s: Store, key: bytes, value: bytes, flushes: seq<bool>)
    requires Inv(s) && key != [] && (flushes != [] || Has(s, key, value))
    ensures Has(Deliver(s, key, value, false, flushes), key, value)
    decreases |flushes|
  {
    if flushes != [] {
      PutGivesValue(s, key, value, flushes[0]);
      DeliverGivesValue(Put(s, Write(key, value, false, Applied), flushes[0]), key, value, flushes[1..]);
    }
  }

  lemma {:induction false} DeliverKeepsOthers(s: Store, key: bytes, value: bytes, tombstone: bool, flushes: seq<bool>,
                                              k: bytes, v: bytes)
    requires Has(s, k, v) && key != k
    ensures Has(Deliver(s, key, value, tombstone, flushes), k, v)
    decreases |flushes|
  {
    if flushes != [] {
      var e := Write(key, value, tombstone, Applied);
      OtherPutKeepsValue(s, e, flushes[0], k, v);
      DeliverKeepsOthers(Put(s, e, flushes[0]), key, value, tombstone, flushes[1..], k, v);
    }
  }

  // ---------- Every step keeps the invariant ----------

  lemma InternalKeeps(c: Cluster, step: Step, quorum: nat)
    requires ClusterInv(c, quorum) && Allowed(c, step) && step.Internal?
    ensures ClusterInv(Next(c, step, quorum), quorum)
  {
    var n, e, c' := step.node, step.event, Next(c, step, quorum);
    StepKeeps(c.nodes[n], e);
    forall k | k in c.last && c.last[k].acked && !c.last[k].tombstone
      ensures |Holders(c'.nodes, k, c.last[k].value)| >= EffectiveQuorum(quorum)
    {
      var v := c.last[k].value;
      forall i | i in Holders(c.nodes, k, v) ensures i in Holders(c'.nodes, k, v) {
        if i == n { InternalKeepsValue(c.nodes[n], e, k, v); }
      }
      SubsetIsSmaller(Holders(c.nodes, k, v), Holders(c'.nodes, k, v));
    }
  }

  // The leader and the followers that acknowledged have the value of an acked Set.
  lemma AckedSetHasHolders(c: Cluster, step: Step, quorum: nat)
    requires ClusterInv(c, quorum) && Allowed(c, step) && step.LeaderWrite?
    requires step.key != [] && step.accepted && !step.tombstone && Acked(step, quorum)
    ensures |Holders(Next(c, step, quorum).nodes, step.key, step.value)| >= EffectiveQuorum(quorum)
  {
    var c' := Next(c, step, quorum);
    var ackers := Ackers(NetworkOf(step));
    PutGivesValue(c.nodes[0], step.key, step.value, step.flush);
    var holders := Holders(c'.nodes, step.key, step.value);
    forall i | i in ackers ensures i + 1 in holders {
      assert step.deliveries[i].response == Ready(true);
      DeliverGivesValue(c.nodes[i + 1], step.key, step.value, step.deliveries[i].flushes);
    }
    assert 0 in holders;
    LeaderAndFollowers(ackers, holders);
  }

  // Follower i is node i + 1.
  lemma {:induction false} LeaderAndFollowers(followers: set<nat>, nodes: set<nat>)
    requires 0 in nodes && forall i :: i in followers ==> i + 1 in nodes
    ensures |nodes| >= 1 + |followers|
    decreases followers
  {
    if followers == {} {
      SubsetIsSmaller({0}, nodes);
    } else {
      var i :| i in followers;
      LeaderAndFollowers(followers - {i}, nodes - {i + 1});
    }
  }

  lemma LeadKeepsOthers(s: Store, step: Step, quorum: nat, k: bytes, v: bytes)
    requires Has(s, k, v) && step.LeaderWrite? && step.key != k
    ensures Has(Lead(s, step, quorum), k, v)
  {
    OtherPutKeepsValue(s, Write(step.key, step.value, step.tombstone, Applied), step.flush, k, v);
    OtherWriteKeepsValue(s, Write(step.key, step.value, step.tombstone, LoggedOnly), k, v);
  }

  lemma WriteKeepsOtherKey(c: Cluster, step: Step, quorum: nat, k: bytes)
    requires ClusterInv(c, quorum) && Allowed(c, step) && step.LeaderWrite?
    requires k in c.last && c.last[k].acked && !c.last[k].tombstone && k != step.key
    ensures |Holders(Next(c, step, quorum).nodes, k, c.last[k].value)| >= EffectiveQuorum(quorum)
  {
    var c', v := Next(c, step, quorum), c.last[k].value;
    if step.key != [] && step.accepted {
      forall i | i in Holders(c.nodes, k, v) ensures i in Holders(c'.nodes, k, v) {
        if i == 0 {
          LeadKeepsOthers(c.nodes[0], step, quorum, k, v);
        } else {
          DeliverKeepsOthers(c.nodes[i], step.key, step.value, step.tombstone, step.deliveries[i - 1].flushes, k, v);
        }
      }
      SubsetIsSmaller(Holders(c.nodes, k, v), Holders(c'.nodes, k, v));
    }
  }

  lemma WriteKeepsNodes(c: Cluster, step: Step, quorum: nat, i: nat)
    requires ClusterInv(c, quorum) && Allowed(c, step) && step.LeaderWrite? && i < |c.nodes|
    ensures |Next(c, step, quorum).nodes| == |c.nodes| && Inv(Next(c, step, quorum).nodes[i])
  {
    if step.key != [] && step.accepted {
      if i == 0 {
        PutKeepsInv(c.nodes[0], Write(step.key, step.value, step.tombstone, Applied), step.flush);
        StepKeeps(c.nodes[0], Write(step.key, step.value, step.tombstone, LoggedOnly));
      } else {
        DeliverKeepsInv(c.nodes[i], step.key, step.value, step.tombstone, step.deliveries[i - 1].flushes);
      }
    }
  }

  lemma WriteKeeps(c: Cluster, step: Step, quorum: nat)
    requires ClusterInv(c, quorum) && Allowed(c, step) && step.LeaderWrite?
    ensures ClusterInv(Next(c, step, quorum), quorum)
  {
    var c' := Next(c, step, quorum);
    WriteKeepsNodes(c, step, quorum, 0);
    forall i | 0 <= i < |c'.nodes| ensures Inv(c'.nodes[i]) {
      WriteKeepsNodes(c, step, quorum, i);
    }
    forall k | k in c'.last && c'.last[k].acked && !c'.last[k].tombstone
      ensures |Holders(c'.nodes, k, c'.last[k].value)| >= EffectiveQuorum(quorum)
    {
      if k == step.key && step.key != [] && step.accepted {
        AckedSetHasHolders(c, step, quorum);
      } else if k != step.key {
        WriteKeepsOtherKey(c, step, quorum, k);
      }
    }
  }

  lemma {:induction false} RunKeepsValues(run: seq<Cluster>, steps: seq<Step>, quorum: nat, i: nat)
    requires IsRun(run, steps, quorum) && i < |run|
    ensures ClusterInv(run[i], quorum)
  {
    if i > 0 {
      RunKeepsValues(run, steps, quorum, i - 1);
      if steps[i - 1].Internal? {
        InternalKeeps(run[i - 1], steps[i - 1], quorum);
      } else {
        WriteKeeps(run[i - 1], steps[i - 1], quorum);
      }
    }
  }

  /** If the leader's latest attempt on a key was a Set that reached its quorum, then at every later
      moment at least that many nodes read its value, and one still does after losing any fewer. */
  lemma AckedSetSurvives(run: seq<Cluster>, steps: seq<Step>, quorum: nat, i: nat, k: bytes, lost: set<nat>)
    returns (survivor: nat)
    requires IsRun(run, steps, quorum) && i < |run|
    requires k in run[i].last && run[i].last[k].acked && !run[i].last[k].tombstone
    requires |lost| < EffectiveQuorum(quorum)
    ensures |set n: nat | 0 <= n < |run[i].nodes| && Get(run[i].nodes[n], k) == Some(run[i].last[k].value)|
              >= EffectiveQuorum(quorum)
    ensures survivor < |run[i].nodes| && survivor !in lost
    ensures Get(run[i].nodes[survivor], k) == Some(run[i].last[k].value)
  {
    RunKeepsValues(run, steps, quorum, i);
    var v := run[i].last[k].value;
    var holders := Holders(run[i].nodes, k, v);
    var readers := set n: nat | 0 <= n < |run[i].nodes| && Get(run[i].nodes[n], k) == Some(v);
    SubsetIsSmaller(holders, readers);
    if holders - lost == {} {
      assert forall n :: n in holders ==> n in holders - lost || n in lost;
      SubsetIsSmaller(holders, lost);
      assert false;
    }
    survivor :| survivor in holders - lost;
  }
}
