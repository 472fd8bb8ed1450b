// internal/cluster/manager.go and internal/cluster/ha_object_manager.go: admission of a
// write, its fan-out to replicas, and the quorum check.
module Quorum {
  import opened Options
  import opened Peers

  /**
   * What one request reads of the cluster: the reads of the local id and of the table may fail, and
   * `factor` is what GetReplicationFactor gives.
   */
  datatype Snapshot = Snapshot(enabled: bool, factor: int, localID: Option<Node>, healthy: Option<seq<Node>>)

  /** GetReplicationFactor: the configured factor, or 1 with no error when it cannot be read. */
  predicate Reads(c: Snapshot, configured: int) {
    c.factor == configured || c.factor == 1
  }

  /** Peer confirmations required, next to the local copy. */
  function Needed(factor: int): int {
    (factor + 1) / 2 - 1
  }

  /** Copies an acknowledged write must have: half the factor, rounded up. */
  function QuorumSize(factor: nat): nat {
    (factor + 1) / 2
  }

  predicate Readable(c: Snapshot) {
    c.localID.Some? && c.healthy.Some?
  }

  function PeersOf(c: Snapshot): seq<Node>
    requires Readable(c)
  {
    Others(c.healthy.value, c.localID.value)
  }

  // ----- admission -----

  /** ClusterCanAcceptWrites: `None` is an error. */
  method ClusterCanAcceptWrites(c: Snapshot) returns (r: Option<bool>)
    ensures r == CanAccept(c)
  {
    if !c.enabled {
      return Some(true);
    }
    if c.factor <= 1 {
      return Some(true);
    }
    var neededReplicas := (c.factor + 1) / 2 - 1;
    if neededReplicas == 0 {
      return Some(true);
    }
    if c.localID.None? || c.healthy.None? {
      return None;
    }
    var available := 0;
    var healthy := c.healthy.value;
    for i := 0 to |healthy|
      invariant available == |Others(healthy[..i], c.localID.value)|
    {
      OthersAppend(healthy[..i], healthy[i], c.localID.value);
      assert healthy[..i + 1] == healthy[..i] + [healthy[i]];
      if healthy[i] == c.localID.value {
        continue;
      }
      available := available + 1;
    }
    assert healthy[..|healthy|] == healthy;
    return Some(available >= neededReplicas);
  }

  function CanAccept(c: Snapshot): Option<bool> {
    if !c.enabled || c.factor <= 1 || Needed(c.factor) == 0 then Some(true)
    else if !Readable(c) then None
    else Some(|PeersOf(c)| >= Needed(c.factor))
  }

  // ----- fan-out -----

  /** replicaTargets: `active` is false when replication is off or nobody is left to replicate to. */
  method ReplicaTargets(c: Snapshot) returns (targets: seq<Node>, needed: int, active: bool)
    ensures active == FanoutActive(c)
    ensures active ==> targets == Targets(c.factor, c.healthy.value, c.localID.value) && needed == Needed(c.factor)
  {
    if !c.enabled || c.factor <= 1 || c.localID.None? || c.healthy.None? {
      return [], 0, false;
    }
    targets := [];
    var healthy := c.healthy.value;
    var i := 0;
    while i < |healthy|
      invariant 0 <= i <= |healthy|
      invariant targets == Others(healthy[..i], c.localID.value) && |targets| < c.factor - 1
    {
      OthersAppend(healthy[..i], healthy[i], c.localID.value);
      assert healthy[..i + 1] == healthy[..i] + [healthy[i]];
      if healthy[i] != c.localID.value {
        targets := targets + [healthy[i]];
        if |targets| == c.factor - 1 {
          OthersPrefix(healthy, i + 1, c.localID.value);
          break;
        }
      }
      i := i + 1;
    }
    if i == |healthy| {
      assert healthy[..|healthy|] == healthy;
    }
    if targets == [] {
      return [], 0, false;
    }
    return targets, (c.factor + 1) / 2 - 1, true;
  }

  predicate FanoutActive(c: Snapshot) {
    c.enabled && c.factor > 1 && Readable(c) && PeersOf(c) != []
  }

  // ----- collecting the results -----

  /** The confirmations among results that arrive in any order. */
  function Confirmed(results: seq<(Node, bool)>): nat {
    if results == [] then 0 else (if results[0].1 then 1 else 0) + Confirmed(results[1..])
  }

  lemma {:induction false} ConfirmedAppend(results: seq<(Node, bool)>, r: (Node, bool))
    ensures Confirmed(results + [r]) == Confirmed(results) + if r.1 then 1 else 0
    decreases |results|
  {
    if results == [] {
      assert results + [r] == [r] && [r][1..] == [];
    } else {
      assert (results + [r])[1..] == results[1..] + [r];
      ConfirmedAppend(results[1..], r);
    }
  }

  lemma TakeOut(l: seq<(Node, bool)>, x: (Node, bool), r: seq<(Node, bool)>)
    ensures Confirmed(l + ([x] + r)) == Confirmed(l + r) + if x.1 then 1 else 0
    ensures multiset(l + ([x] + r)) == multiset(l + r) + multiset{x}
  {
    ConfirmedSplits(l, [x] + r);
    ConfirmedSplits(l, r);
    assert ([x] + r)[1..] == r;
  }

  lemma CancelOne<T>(m: multiset<T>, n: multiset<T>, x: T)
    requires m + multiset{x} == n + multiset{x}
    ensures m == n
  {
    forall y ensures m[y] == n[y] {
      assert (m + multiset{x})[y] == (n + multiset{x})[y];
    }
  }

  /** The order in which results come out of the channel does not matter. */
  lemma {:induction false} ArrivalOrderDoesNotMatter(a: seq<(Node, bool)>, b: seq<(Node, bool)>)
    requires multiset(a) == multiset(b)
    ensures Confirmed(a) == Confirmed(b)
    decreases |a|
  {
    if a == [] {
      assert |multiset(b)| == |b|;
    } else {
      assert a[0] in multiset(b);
      var i :| 0 <= i < |b| && b[i] == a[0];
      var l, r := b[..i], b[i + 1..];
      assert b == l + ([b[i]] + r);
      TakeOut(l, b[i], r);
      TakeOut([], a[0], a[1..]);
      assert a == [] + ([a[0]] + a[1..]) && [] + a[1..] == a[1..];
      CancelOne(multiset(a[1..]), multiset(l + r), a[0]);
      ArrivalOrderDoesNotMatter(a[1..], l + r);
    }
  }

  lemma {:induction false} ConfirmedSplits(a: seq<(Node, bool)>, b: seq<(Node, bool)>)
    ensures Confirmed(a + b) == Confirmed(a) + Confirmed(b)
    decreases |a|
  {
    if a == [] {
      assert a + b == b;
    } else {
      assert (a + b)[1..] == a[1..] + b;
      ConfirmedSplits(a[1..], b);
    }
  }

  /** One result per target: it confirms when it can be reached. */
  function Answers(targets: seq<Node>, reached: set<Node>): seq<(Node, bool)> {
    if targets == [] then [] else [(targets[0], targets[0] in reached)] + Answers(targets[1..], reached)
  }

  /** The targets that confirm. */
  function Confirming(targets: seq<Node>, reached: set<Node>): (r: set<Node>)
    ensures forall n :: n in r ==> n in targets && n in reached
  {
    if targets == [] then {}
    else (if targets[0] in reached then {targets[0]} else {}) + Confirming(targets[1..], reached)
  }

  lemma {:induction false} ConfirmedCountsNodes(targets: seq<Node>, reached: set<Node>)
    requires Distinct(targets)
    ensures Confirmed(Answers(targets, reached)) == |Confirming(targets, reached)|
    decreases |targets|
  {
    if targets != [] {
      ConfirmedCountsNodes(targets[1..], reached);
      assert Answers(targets, reached)[1..] == Answers(targets[1..], reached);
      assert targets[0] !in Confirming(targets[1..], reached);
    }
  }

  lemma {:induction false} NoAnswer(targets: seq<Node>, reached: set<Node>)
    ensures forall n :: (n, false) in Answers(targets, reached) <==> n in targets && n !in reached
    decreases |targets|
  {
    if targets != [] {
      NoAnswer(targets[1..], reached);
      assert targets == [targets[0]] + targets[1..];
    }
  }

  class HAObjectManager {
    var table: map<Node, Status>

    constructor (table: map<Node, Status>)
      ensures this.table == table
    {
      this.table := table;
    }

    /**
     * collectAndCheckQuorum: drain the channel, mark failed nodes, compare with the quorum.
     * `writable` are the nodes whose UPDATE works; an error of it is ignored.
     */
    method CollectAndCheckQuorum(results: seq<(Node, bool)>, needed: int, writable: set<Node>) returns (ok: bool)
      modifies this
      ensures ok <==> Confirmed(results) >= needed
      ensures table.Keys == old(table).Keys
      ensures forall n :: n in table ==>
              table[n] == if (n, false) in results && n in writable then Unavailable else old(table)[n]
    {
      var success := 0;
      for i := 0 to |results|
        invariant success == Confirmed(results[..i]) && table.Keys == old(table).Keys
        invariant forall n :: n in table ==>
          table[n] == if (n, false) in results[..i] && n in writable then Unavailable else old(table)[n]
      {
        ConfirmedAppend(results[..i], results[i]);
        assert results[..i + 1] == results[..i] + [results[i]];
        if results[i].1 {
          success := success + 1;
          continue;
        }
        if results[i].0 in table && results[i].0 in writable {
          table := table[results[i].0 := Unavailable];
        }
      }
      assert results[..|results|] == results;
      return success >= needed;
    }

    /** PutObject: admission, local write, fan-out, quorum check. */
    method PutObject(admission: Snapshot, stored: bool, fanout: Snapshot, reached: set<Node>, writable: set<Node>)
      returns (r: Outcome)
      modifies this
      ensures r == PutOutcome(admission, stored, fanout, reached)
      ensures table.Keys == old(table).Keys
      ensures forall n :: n in table ==>
              table[n] == if n in SentTo(admission, stored, fanout) && n !in reached && n in writable
                          then Unavailable else old(table)[n]
    {
      var ok := ClusterCanAcceptWrites(admission);
      if ok.Some? && !ok.value {
        return Refused;
      }
      if !stored {
        return Failed;
      }
      var targets, needed, active := ReplicaTargets(fanout);
      if !active {
        return Acknowledged;
      }
      NoAnswer(targets, reached);
      var quorum := CollectAndCheckQuorum(Answers(targets, reached), needed, writable);
      return if quorum then Acknowledged else Failed;
    }
  }

  // ----- a whole write -----

  datatype Outcome = Refused | Failed | Acknowledged

  /**
   * PutObject: `admission` and `fanout` are the two readings of the cluster, `stored` says
   * whether the local write works and `reached` who answers.
   */
  function PutOutcome(admission: Snapshot, stored: bool, fanout: Snapshot, reached: set<Node>): Outcome {
    if CanAccept(admission) == Some(false) then Refused
    else if !stored then Failed
    else if !FanoutActive(fanout) then Acknowledged
    else
      var targets := Targets(fanout.factor, fanout.healthy.value, fanout.localID.value);
      if Confirmed(Answers(targets, reached)) < Needed(fanout.factor) then Failed else Acknowledged
  }

  /** The peers a write is sent to; none if it is refused or fails first. */
  function SentTo(admission: Snapshot, stored: bool, fanout: Snapshot): seq<Node> {
    if CanAccept(admission) == Some(false) || !stored || !FanoutActive(fanout) then []
    else Targets(fanout.factor, fanout.healthy.value, fanout.localID.value)
  }

  /** Who holds the new version after a write that was not refused: nobody if the local write failed. */
  function Holders(fanout: Snapshot, local: Node, stored: bool, reached: set<Node>): set<Node> {
    if !stored then {}
    else {local} + if FanoutActive(fanout) then Confirming(Targets(fanout.factor, fanout.healthy.value, fanout.localID.value), reached)
    else {}
  }

  /** A write is refused exactly when a quorum is configured and read, the table is readable, and peers are too few. */
  lemma RefusedExactly(admission: Snapshot, stored: bool, fanout: Snapshot, reached: set<Node>, configured: int)
    requires configured >= 1 && Reads(admission, configured)
    ensures PutOutcome(admission, stored, fanout, reached) == Refused <==>
            admission.enabled && configured > 2 && admission.factor == configured && Readable(admission) &&
            1 + |PeersOf(admission)| < QuorumSize(configured)
  {
  }

  /**
   * A write that is not refused fails exactly when the local write fails, or the fan-out is active
   * and the local copy and the confirming peers are fewer than half the factor it read.
   */
  lemma FailedExactly(admission: Snapshot, stored: bool, fanout: Snapshot, reached: set<Node>)
    requires fanout.healthy.Some? ==> Distinct(fanout.healthy.value)
    ensures PutOutcome(admission, stored, fanout, reached) == Failed <==>
            PutOutcome(admission, stored, fanout, reached) != Refused &&
            (!stored ||
             (FanoutActive(fanout) &&
              1 + |Confirming(Targets(fanout.factor, fanout.healthy.value, fanout.localID.value), reached)| < QuorumSize(fanout.factor)))
  {
    if FanoutActive(fanout) {
      OthersDistinct(fanout.healthy.value, fanout.localID.value);
      ConfirmedCountsNodes(Targets(fanout.factor, fanout.healthy.value, fanout.localID.value), reached);
    }
  }

  /** An acknowledged write was stored here, whatever was read of the cluster, and so somebody holds it. */
  lemma AcknowledgedIsStored(admission: Snapshot, stored: bool, fanout: Snapshot, local: Node, reached: set<Node>)
    requires PutOutcome(admission, stored, fanout, reached) == Acknowledged
    ensures stored && local in Holders(fanout, local, stored, reached)
  {
  }

  lemma {:induction false} ConfirmingExactly(targets: seq<Node>, reached: set<Node>)
    ensures Confirming(targets, reached) == set n | n in targets && n in reached
    decreases |targets|
  {
    if targets != [] {
      ConfirmingExactly(targets[1..], reached);
      assert targets == [targets[0]] + targets[1..];
    }
  }

  /** A write is sent to nobody if it is refused or not stored here; else its holders are this node and who was sent it and reached. */
  lemma SentExactly(admission: Snapshot, stored: bool, fanout: Snapshot, local: Node, reached: set<Node>)
    ensures PutOutcome(admission, stored, fanout, reached) == Refused || !stored ==> SentTo(admission, stored, fanout) == []
    ensures PutOutcome(admission, stored, fanout, reached) != Refused && stored ==>
            Holders(fanout, local, stored, reached) == {local} + set n | n in SentTo(admission, stored, fanout) && n in reached
  {
    if FanoutActive(fanout) {
      ConfirmingExactly(Targets(fanout.factor, fanout.healthy.value, fanout.localID.value), reached);
    }
  }

  /** The reading is of this node's own table, in which ids are unique. */
  predicate Sane(c: Snapshot, local: Node) {
    (c.localID.Some? ==> c.localID.value == local) && (c.healthy.Some? ==> Distinct(c.healthy.value))
  }

  lemma HoldersCount(c: Snapshot, local: Node, reached: set<Node>)
    requires FanoutActive(c) && Sane(c, local)
    ensures |Holders(c, local, true, reached)| ==
            1 + Confirmed(Answers(Targets(c.factor, c.healthy.value, c.localID.value), reached))
  {
    var targets := Targets(c.factor, c.healthy.value, c.localID.value);
    OthersAreOthers(c.healthy.value, local);
    OthersDistinct(c.healthy.value, local);
    ConfirmedCountsNodes(targets, reached);
    assert local !in targets;
  }

  /**
   * For a write that is not refused, every acknowledgement, whoever answers, means a quorum of
   * copies for the configured factor exactly when that needs no peer, or the fan-out read it and
   * still finds a peer.
   */
  lemma AcknowledgedMeansQuorum(admission: Snapshot, fanout: Snapshot, local: Node, configured: int)
    requires configured >= 1 && Reads(fanout, configured) && Sane(fanout, local) && CanAccept(admission) != Some(false)
    ensures (forall reached, stored :: PutOutcome(admission, stored, fanout, reached) == Acknowledged ==>
              |Holders(fanout, local, stored, reached)| >= QuorumSize(configured))
            <==> configured <= 2 || (fanout.factor == configured && FanoutActive(fanout))
  {
    if configured <= 2 || (fanout.factor == configured && FanoutActive(fanout)) {
      forall reached, stored | PutOutcome(admission, stored, fanout, reached) == Acknowledged
        ensures |Holders(fanout, local, stored, reached)| >= QuorumSize(configured)
      {
        if FanoutActive(fanout) {
          HoldersCount(fanout, local, reached);
        }
      }
    } else {
      assert !FanoutActive(fanout);
      assert PutOutcome(admission, true, fanout, {}) == Acknowledged;
      assert Holders(fanout, local, true, {}) == {local};
    }
  }

  /** The factor cannot be read: a healthy cluster acknowledges a write that only the local node holds. */
  lemma FactorReadFails(healthy: seq<Node>, local: Node, reached: set<Node>)
    ensures var c := Snapshot(true, 1, Some(local), Some(healthy));
            PutOutcome(c, true, c, reached) == Acknowledged && Holders(c, local, true, reached) == {local}
  {
  }

  /** So with one reading of an enabled, readable cluster, acknowledged always means quorum. */
  lemma UnchangedTableGivesQuorum(c: Snapshot, stored: bool, local: Node, reached: set<Node>)
    requires c.enabled && c.factor >= 1 && Readable(c) && Sane(c, local)
    requires PutOutcome(c, stored, c, reached) == Acknowledged
    ensures |Holders(c, local, stored, reached)| >= QuorumSize(c.factor)
    ensures Holders(c, local, stored, reached) <= {local} + (set n | n in c.healthy.value && n in reached)
  {
    OthersAreOthers(c.healthy.value, local);
    if FanoutActive(c) {
      HoldersCount(c, local, reached);
    }
  }

  // ----- do two writes share a node? -----

  lemma {:induction false} SubsetCount<T>(a: set<T>, b: set<T>)
    requires a <= b
    ensures |a| <= |b|
    decreases a
  {
    if a != {} {
      var x :| x in a;
      SubsetCount(a - {x}, b - {x});
    }
  }

  lemma {:induction false} SubsetOfSize<T>(u: set<T>, n: nat) returns (w: set<T>)
    requires n <= |u|
    ensures w <= u && |w| == n
    decreases n
  {
    if n == 0 {
      w := {};
    } else {
      var x :| x in u;
      var v := SubsetOfSize(u - {x}, n - 1);
      w := v + {x};
    }
  }

  /** In a cluster with as many nodes as the factor, any two quorums meet exactly when that number is odd. */
  lemma QuorumsMeet(cluster: set<Node>)
    requires cluster != {}
    ensures (forall v, w :: v <= cluster && w <= cluster && |v| >= QuorumSize(|cluster|) && |w| >= QuorumSize(|cluster|) ==>
              v * w != {})
            <==> |cluster| % 2 == 1
  {
    if |cluster| % 2 == 1 {
      forall v, w | v <= cluster && w <= cluster && |v| >= QuorumSize(|cluster|) && |w| >= QuorumSize(|cluster|)
        ensures v * w != {}
      {
        if v * w == {} {
          assert |v + w| == |v| + |w|;
          SubsetCount(v + w, cluster);
        }
      }
    } else {
      var v := SubsetOfSize(cluster, |cluster| / 2);
      var w := cluster - v;
      assert v * w == {} && |w| == |cluster| - |v|;
    }
  }

  /** A write with one reading of the cluster. */
  datatype Write = Write(c: Snapshot, local: Node, stored: bool, reached: set<Node>)

  function HoldersOf(w: Write): set<Node> {
    Holders(w.c, w.local, w.stored, w.reached)
  }

  /** An acknowledged write of a cluster that has as many nodes as the factor. */
  predicate AcknowledgedIn(cluster: set<Node>, w: Write) {
    && w.c.enabled && w.c.factor == |cluster| && Readable(w.c) && Sane(w.c, w.local)
    && w.local in cluster && (forall n :: n in w.c.healthy.value ==> n in cluster)
    && PutOutcome(w.c, w.stored, w.c, w.reached) == Acknowledged
  }

  lemma {:induction false} ListingOf(ns: set<Node>) returns (listed: seq<Node>)
    ensures Distinct(listed) && |listed| == |ns| && forall n :: n in listed <==> n in ns
    decreases ns
  {
    if ns == {} {
      listed := [];
    } else {
      var n :| n in ns;
      var rest := ListingOf(ns - {n});
      listed := [n] + rest;
    }
  }

  lemma {:induction false} OthersAll(ns: seq<Node>, localID: Node)
    requires localID !in ns
    ensures Others(ns, localID) == ns
    decreases |ns|
  {
    if ns != [] {
      OthersAll(ns[1..], localID);
    }
  }

  lemma {:induction false} AllConfirm(targets: seq<Node>, reached: set<Node>)
    requires forall n :: n in targets ==> n in reached
    ensures Confirmed(Answers(targets, reached)) == |targets|
    decreases |targets|
  {
    if targets != [] {
      AllConfirm(targets[1..], reached);
      assert Answers(targets, reached)[1..] == Answers(targets[1..], reached);
    }
  }

  /** A write in a cluster of `size` nodes of which only these are healthy, and all answer. */
  function WriteAmong(size: nat, local: Node, peers: seq<Node>): Write {
    Write(Snapshot(true, size, Some(local), Some([local] + peers)), local, true, set n | n in peers)
  }

  lemma PeersAmong(size: nat, local: Node, peers: seq<Node>)
    requires local !in peers
    ensures PeersOf(WriteAmong(size, local, peers).c) == peers
  {
    OthersAll(peers, local);
    assert ([local] + peers)[1..] == peers;
  }

  lemma AmongAcknowledges(size: nat, local: Node, peers: seq<Node>)
    requires local !in peers && |peers| < size && 2 * (|peers| + 1) == size
    ensures var w := WriteAmong(size, local, peers); PutOutcome(w.c, true, w.c, w.reached) == Acknowledged
  {
    PeersAmong(size, local, peers);
    AllConfirm(peers, set n | n in peers);
  }

  /** Half of a cluster, cut off from the rest, acknowledges a write on its own. */
  lemma HalfAcknowledges(cluster: set<Node>, half: set<Node>) returns (w: Write)
    requires half <= cluster && half != {} && 2 * |half| == |cluster|
    ensures AcknowledgedIn(cluster, w) && HoldersOf(w) <= half
  {
    var local :| local in half;
    var peers := ListingOf(half - {local});
    w := WriteAmong(|cluster|, local, peers);
    AmongAcknowledges(|cluster|, local, peers);
    UnchangedTableGivesQuorum(w.c, true, local, w.reached);
  }

  lemma AcknowledgedIsQuorum(cluster: set<Node>, w: Write)
    requires AcknowledgedIn(cluster, w) && cluster != {}
    ensures HoldersOf(w) <= cluster && |HoldersOf(w)| >= QuorumSize(|cluster|)
  {
    UnchangedTableGivesQuorum(w.c, w.stored, w.local, w.reached);
  }

  /** Any two acknowledged writes of such a cluster share a node exactly when its size is odd. */
  lemma AcknowledgedWritesMeet(cluster: set<Node>)
    requires cluster != {}
    ensures (forall a, b :: AcknowledgedIn(cluster, a) && AcknowledgedIn(cluster, b) ==> HoldersOf(a) * HoldersOf(b) != {})
            <==> |cluster| % 2 == 1
  {
    if |cluster| % 2 == 1 {
      QuorumsMeet(cluster);
      forall a, b | AcknowledgedIn(cluster, a) && AcknowledgedIn(cluster, b)
        ensures HoldersOf(a) * HoldersOf(b) != {}
      {
        AcknowledgedIsQuorum(cluster, a);
        AcknowledgedIsQuorum(cluster, b);
      }
    } else {
      var v := SubsetOfSize(cluster, |cluster| / 2);
      assert |cluster - v| == |cluster| - |v|;
      var a := HalfAcknowledges(cluster, v);
      var b := HalfAcknowledges(cluster, cluster - v);
      assert HoldersOf(a) * HoldersOf(b) == {};
    }
  }
}
