/** Counting replication acknowledgements (src/replication.cpp). The answers of the peers, and when the
    deadline passes, are inputs. */
module Replication {
  import opened Results
  import opened Sets

  datatype Response = Ready(acked: bool) | TimedOut

  // What the network does during one replication: one response per peer, in peer order, and the
  // number of peers whose response is looked at before the deadline.
  datatype Network = Network(hasTransport: bool, responses: seq<Response>, inTime: nat)

  function EffectiveQuorum(quorumSize: nat): nat {
    if quorumSize == 0 then 1 else quorumSize
  }

  // The peers among the first n that acknowledge.
  ghost function AckersBelow(rs: seq<Response>, n: nat): set<nat> {
    set i: nat | i < |rs| && i < n && rs[i] == Ready(true)
  }

  // The peers whose acknowledgement counts: those looked at before the deadline.
  ghost function Ackers(net: Network): set<nat> {
    if net.hasTransport then AckersBelow(net.responses, net.inTime) else {}
  }

  /** Answers that come after the deadline make no difference. */
  lemma LateAnswersAreIgnored(net: Network, late: seq<Response>)
    requires net.inTime <= |net.responses|
    ensures Ackers(net.(responses := net.responses[..net.inTime] + late)) == Ackers(net)
    ensures net.hasTransport ==>
              forall i: nat :: i in Ackers(net) <==> i < net.inTime && net.responses[i] == Ready(true)
  {
  }

  lemma NextAcker(rs: seq<Response>, i: nat)
    requires i < |rs|
    ensures |AckersBelow(rs, i + 1)| == |AckersBelow(rs, i)| + if rs[i] == Ready(true) then 1 else 0
  {
    assert AckersBelow(rs, i + 1) == AckersBelow(rs, i) + if rs[i] == Ready(true) then {i} else {};
  }

  /** A write reaches its quorum if and only if the leader and the peers that acknowledge in time are at
      least that many; the call then returns as soon as they are. */
  method ReplicateToQuorum(net: Network, quorumSize: nat) returns (r: Result<nat>)
    ensures r.Ok? <==> 1 + |Ackers(net)| >= EffectiveQuorum(quorumSize)
    ensures r.Ok? ==> r.value == EffectiveQuorum(quorumSize)
    ensures quorumSize <= 1 ==> r == Ok(1)
    ensures quorumSize > 1 ==> (r == Ok(quorumSize) <==> 1 + |Ackers(net)| >= quorumSize)
    ensures r.Err? ==> r.code == NoQuorum
  {
    var quorum := EffectiveQuorum(quorumSize);
    var ackCount := 1;
    if ackCount >= quorum {
      return Ok(ackCount);
    }
    if !net.hasTransport {
      return Err(NoQuorum);
    }
    if net.responses == [] {
      return Err(NoQuorum);
    }
    ghost var rs := net.responses;
    for i := 0 to |net.responses|
      invariant i <= net.inTime && ackCount == 1 + |AckersBelow(rs, i)| < quorum
    {
      if i >= net.inTime {
        break;
      }
      NextAcker(rs, i);
      if net.responses[i] == Ready(true) {
        ackCount := ackCount + 1;
        if ackCount >= quorum {
          SubsetIsSmaller(AckersBelow(rs, i + 1), Ackers(net));
          return Ok(ackCount);
        }
      }
    }
    assert 1 + |Ackers(net)| < quorum by {
      assert net.inTime >= |rs| ==> Ackers(net) == AckersBelow(rs, |rs|);
    }
    r := Err(NoQuorum);
  }
}
