// internal/cluster: the peers a node replicates to, as replicaTargets, ClusterCanAcceptWrites
// and the sync worker's Trigger pick them from the healthy nodes in priority order.
module Peers {

  type Node = string

  /** health_status of a row of cluster_nodes. */
  datatype Status = Healthy | Degraded | Unavailable | Unknown | Dead | StoragePressure

  /** The healthy nodes other than this one, in order. */
  function Others(healthy: seq<Node>, localID: Node): seq<Node> {
    if healthy == [] then []
    else (if healthy[0] == localID then [] else [healthy[0]]) + Others(healthy[1..], localID)
  }

  /** At most factor - 1 of them. */
  function Targets(factor: int, healthy: seq<Node>, localID: Node): seq<Node>
    requires factor >= 1
  {
    var others := Others(healthy, localID);
    if |others| <= factor - 1 then others else others[..factor - 1]
  }

  lemma {:induction false} OthersAppend(healthy: seq<Node>, n: Node, localID: Node)
    ensures Others(healthy + [n], localID) == Others(healthy, localID) + if n == localID then [] else [n]
    decreases |healthy|
  {
    if healthy == [] {
      assert healthy + [n] == [n] && [n][1..] == [];
    } else {
      assert (healthy + [n])[1..] == healthy[1..] + [n];
      OthersAppend(healthy[1..], n, localID);
    }
  }

  lemma {:induction false} OthersPrefix(healthy: seq<Node>, i: nat, localID: Node)
    requires i <= |healthy|
    ensures Others(healthy[..i], localID) <= Others(healthy, localID)
    decreases |healthy| - i
  {
    if i < |healthy| {
      OthersAppend(healthy[..i], healthy[i], localID);
      assert healthy[..i + 1] == healthy[..i] + [healthy[i]];
      OthersPrefix(healthy, i + 1, localID);
    } else {
      assert healthy[..i] == healthy;
    }
  }

  lemma {:induction false} OthersAreOthers(healthy: seq<Node>, localID: Node)
    ensures localID !in Others(healthy, localID)
    ensures forall n :: n in Others(healthy, localID) ==> n in healthy
    decreases |healthy|
  {
    if healthy != [] {
      OthersAreOthers(healthy[1..], localID);
    }
  }

  predicate Distinct(ns: seq<Node>) {
    forall i, j :: 0 <= i < j < |ns| ==> ns[i] != ns[j]
  }

  lemma {:induction false} OthersDistinct(healthy: seq<Node>, localID: Node)
    requires Distinct(healthy)
    ensures Distinct(Others(healthy, localID))
    decreases |healthy|
  {
    if healthy != [] {
      OthersDistinct(healthy[1..], localID);
      OthersAreOthers(healthy[1..], localID);
      var rest := Others(healthy[1..], localID);
      forall i | 0 <= i < |rest| ensures rest[i] != healthy[0] {
        assert rest[i] in rest;
        assert rest[i] in healthy[1..];
      }
    }
  }
}
