// internal/cluster/anti_entropy.go: last-writer-wins reconciliation of one object that is
// replicated on any number of nodes, as comparisons that are made at one instant.
module AntiEntropy {
  import opened Lex
  import opened Options

  /** One copy of the object, as far as the scrubber looks at it. */
  datatype Version = Version(ts: int, etag: string, size: nat)

  type Copy = Option<Version>

  datatype Divergence = NoDivergence | PeerMissing | LocalNewer | PeerNewer | TieDifferentETag
  datatype Action = NoAction | PushToPeer | PullFromPeer

  // ----- classification -----

  predicate Digits(s: string) {
    s != "" && forall i :: 0 <= i < |s| ==> '0' <= s[i] <= '9'
  }

  function Decimal(s: string): nat
    requires forall i :: 0 <= i < |s| ==> '0' <= s[i] <= '9'
  {
    if s == "" then 0 else 10 * Decimal(s[..|s| - 1]) + (s[|s| - 1] as int - '0' as int)
  }

  /** strconv.Atoi succeeds on a text without a minus sign. */
  predicate AtoiAccepts(s: string) {
    var d := if s != "" && s[0] == '+' then s[1..] else s;
    Digits(d) && Decimal(d) <= 0x7FFF_FFFF_FFFF_FFFF
  }

  /** An ETag "<md5>-<N>": something, the last '-', and a number. */
  predicate IsMultipartETag(etag: string) {
    exists idx :: 0 < idx < |etag| - 1 && etag[idx] == '-' && '-' !in etag[idx + 1..] && AtoiAccepts(etag[idx + 1..])
  }

  function LwwClassify(local: Version, peer: Version): (Divergence, Action) {
    if local.ts > peer.ts then (LocalNewer, PushToPeer)
    else if local.ts < peer.ts then (PeerNewer, PullFromPeer)
    else if Less(local.etag, peer.etag) then (TieDifferentETag, PullFromPeer)
    else (TieDifferentETag, PushToPeer)
  }

  function ClassifyDivergence(local: Copy, peer: Copy): (Divergence, Action) {
    if local.None? then (NoDivergence, NoAction)
    else if peer.None? then (PeerMissing, PushToPeer)
    else
      var l, p := local.value, peer.value;
      if IsMultipartETag(l.etag) || IsMultipartETag(p.etag) then
        if l.size != p.size || l.ts - p.ts > 1 || p.ts - l.ts > 1 then LwwClassify(l, p) else (NoDivergence, NoAction)
      else if l.etag == p.etag then (NoDivergence, NoAction)
      else LwwClassify(l, p)
  }

  // ----- a cluster of replicas -----

  type Replicas = seq<Copy>

  /** Node `node` compares the copy it has with the one `peer` has; `done` says whether the transfer worked. */
  datatype Step = Step(node: nat, peer: nat, done: bool)

  predicate Legal(n: nat, st: Step) {
    st.node < n && st.peer < n && st.node != st.peer
  }

  function Scrub(rs: Replicas, st: Step): Replicas
    requires Legal(|rs|, st)
  {
    if !st.done then rs
    else
      match ClassifyDivergence(rs[st.node], rs[st.peer]).1
      case NoAction => rs
      case PushToPeer => rs[st.peer := rs[st.node]]
      case PullFromPeer => rs[st.node := rs[st.peer]]
  }

  predicate AllLegal(n: nat, steps: seq<Step>) {
    forall k :: 0 <= k < |steps| ==> Legal(n, steps[k])
  }

  function Run(rs: Replicas, steps: seq<Step>): (r: Replicas)
    requires AllLegal(|rs|, steps)
    ensures |r| == |rs|
    decreases |steps|
  {
    if steps == [] then rs else Run(Scrub(rs, steps[0]), steps[1..])
  }

  /** How many steps of the run changed something. */
  function Changes(rs: Replicas, steps: seq<Step>): nat
    requires AllLegal(|rs|, steps)
    decreases |steps|
  {
    if steps == [] then 0
    else (if Scrub(rs, steps[0]) != rs then 1 else 0) + Changes(Scrub(rs, steps[0]), steps[1..])
  }

  predicate Plain(rs: Replicas) {
    forall i :: 0 <= i < |rs| && rs[i].Some? ==> !IsMultipartETag(rs[i].value.etag)
  }

  /** A missing copy is below every version; versions are ordered by time and then ETag. */
  predicate Below(a: Copy, b: Copy) {
    b.Some? && (a.None? || a.value.ts < b.value.ts || (a.value.ts == b.value.ts && Less(a.value.etag, b.value.etag)))
  }

  lemma BelowIsOrder(a: Copy, b: Copy, c: Copy)
    ensures !Below(a, a)
    ensures Below(a, b) ==> !Below(b, a)
    ensures Below(a, b) && Below(b, c) ==> Below(a, c)
    ensures Below(a, b) && !Below(c, b) ==> Below(a, c)
  {
    if a.Some? { LessIrreflexive(a.value.etag); }
    if a.Some? && b.Some? {
      if Less(a.value.etag, b.value.etag) { LessAsymmetric(a.value.etag, b.value.etag); }
      if c.Some? {
        LessTotal(b.value.etag, c.value.etag);
        if Less(a.value.etag, b.value.etag) && Less(b.value.etag, c.value.etag) {
          LessTransitive(a.value.etag, b.value.etag, c.value.etag);
        }
      }
    }
  }

  lemma UnlikeETagsAreOrdered(a: Version, b: Version)
    requires a.etag != b.etag
    ensures Below(Some(a), Some(b)) || Below(Some(b), Some(a))
  {
    LessTotal(a.etag, b.etag);
  }

  /** A step either changes nothing or replaces one copy by a strictly greater one it met. */
  lemma StepRaises(rs: Replicas, st: Step)
    requires Plain(rs) && Legal(|rs|, st)
    ensures Plain(Scrub(rs, st))
    ensures Scrub(rs, st) == rs ||
            exists i, j :: 0 <= i < |rs| && 0 <= j < |rs| && Below(rs[i], rs[j]) && Scrub(rs, st) == rs[i := rs[j]]
  {
    var l, p := rs[st.node], rs[st.peer];
    if Scrub(rs, st) != rs {
      if p.Some? {
        UnlikeETagsAreOrdered(l.value, p.value);
      }
      var i, j := if Below(p, l) then st.peer else st.node, if Below(p, l) then st.node else st.peer;
      BelowIsOrder(p, l, l);
      assert Below(rs[i], rs[j]) && Scrub(rs, st) == rs[i := rs[j]];
    }
  }

  // ----- the winner is never lost -----

  /** Node `w` holds a greatest version. */
  predicate Wins(rs: Replicas, w: nat) {
    w < |rs| && forall i :: 0 <= i < |rs| ==> !Below(rs[w], rs[i])
  }

  /** In every run the node with a greatest version keeps it, and it stays greatest. */
  lemma {:induction false} WinnerIsNeverLost(rs: Replicas, steps: seq<Step>, w: nat)
    requires Plain(rs) && AllLegal(|rs|, steps) && Wins(rs, w)
    ensures Plain(Run(rs, steps)) && Wins(Run(rs, steps), w) && Run(rs, steps)[w] == rs[w]
    decreases |steps|
  {
    if steps != [] {
      StepRaises(rs, steps[0]);
      WinnerIsNeverLost(Scrub(rs, steps[0]), steps[1..], w);
    }
  }

  // ----- only finitely many steps can act -----

  /** How many of the copies in `u` are below `c`. */
  function Rank(u: set<Copy>, c: Copy): nat {
    |set x | x in u && Below(x, c)|
  }

  function Potential(u: set<Copy>, rs: Replicas): nat {
    if rs == [] then 0 else Rank(u, rs[0]) + Potential(u, rs[1..])
  }

  lemma RankRises(u: set<Copy>, a: Copy, b: Copy)
    requires a in u && Below(a, b)
    ensures Rank(u, a) < Rank(u, b)
  {
    var low := set x | x in u && Below(x, a);
    var high := set x | x in u && Below(x, b);
    forall x | x in low ensures x in high { BelowIsOrder(x, a, b); }
    BelowIsOrder(a, a, a);
    assert low <= high && a in high && a !in low;
    SmallerSet(low, high);
  }

  lemma RankBound(u: set<Copy>, c: Copy)
    requires c in u
    ensures Rank(u, c) < |u|
  {
    BelowIsOrder(c, c, c);
    SmallerSet((set x | x in u && Below(x, c)), u);
  }

  lemma {:induction false} SmallerSet<T>(a: set<T>, b: set<T>)
    requires a < b
    ensures |a| < |b|
    decreases a
  {
    if a != {} {
      var x :| x in a;
      SmallerSet(a - {x}, b - {x});
    }
  }

  lemma {:induction false} PotentialUpdates(u: set<Copy>, rs: Replicas, i: nat, c: Copy)
    requires i < |rs|
    ensures Potential(u, rs[i := c]) == Potential(u, rs) - Rank(u, rs[i]) + Rank(u, c)
    decreases |rs|
  {
    if i == 0 {
      assert rs[i := c][1..] == rs[1..];
    } else {
      assert rs[i := c][1..] == rs[1..][i - 1 := c];
      PotentialUpdates(u, rs[1..], i - 1, c);
    }
  }

  lemma {:induction false} PotentialBound(u: set<Copy>, rs: Replicas, m: nat)
    requires forall i :: 0 <= i < |rs| ==> rs[i] in u
    requires |u| <= m + 1
    ensures Potential(u, rs) <= |rs| * m
    decreases |rs|
  {
    if rs != [] {
      RankBound(u, rs[0]);
      PotentialBound(u, rs[1..], m);
      OneMoreTimes(|rs| - 1, m);
    }
  }

  lemma OneMoreTimes(n: nat, m: nat)
    ensures (n + 1) * m == n * m + m
  {
  }

  function CopiesOf(rs: Replicas): set<Copy> {
    set i | 0 <= i < |rs| :: rs[i]
  }

  lemma {:induction false} CopiesBound(rs: Replicas)
    ensures |CopiesOf(rs)| <= |rs|
    decreases |rs|
  {
    if rs != [] {
      var n := |rs| - 1;
      CopiesBound(rs[..n]);
      assert CopiesOf(rs) == CopiesOf(rs[..n]) + {rs[n]};
    }
  }

  lemma {:induction false} ChangesFitPotential(u: set<Copy>, rs: Replicas, steps: seq<Step>)
    requires Plain(rs) && AllLegal(|rs|, steps)
    requires forall i :: 0 <= i < |rs| ==> rs[i] in u
    ensures Potential(u, rs) + Changes(rs, steps) <= Potential(u, Run(rs, steps))
    ensures forall i :: 0 <= i < |rs| ==> Run(rs, steps)[i] in u
    decreases |steps|
  {
    if steps != [] {
      StepRaises(rs, steps[0]);
      var next := Scrub(rs, steps[0]);
      if next != rs {
        var i, j :| 0 <= i < |rs| && 0 <= j < |rs| && Below(rs[i], rs[j]) && next == rs[i := rs[j]];
        RankRises(u, rs[i], rs[j]);
        PotentialUpdates(u, rs, i, rs[j]);
      }
      ChangesFitPotential(u, next, steps[1..]);
    }
  }

  lemma ChangesBound(rs: Replicas, steps: seq<Step>, m: nat)
    requires Plain(rs) && AllLegal(|rs|, steps) && |rs| <= m + 1
    ensures Changes(rs, steps) <= |rs| * m
  {
    CopiesBound(rs);
    ChangesFitPotential(CopiesOf(rs), rs, steps);
    PotentialBound(CopiesOf(rs), Run(rs, steps), m);
  }

  /** No run, however long, has more than n * (n - 1) steps that act. */
  lemma FewStepsAct(rs: Replicas, steps: seq<Step>)
    requires Plain(rs) && AllLegal(|rs|, steps) && rs != []
    ensures Changes(rs, steps) <= |rs| * (|rs| - 1)
  {
    ChangesBound(rs, steps, |rs| - 1);
  }

  // ----- when nothing is left to do -----

  predicate Quiescent(rs: Replicas) {
    forall i, j :: 0 <= i < |rs| && 0 <= j < |rs| && i != j ==> ClassifyDivergence(rs[i], rs[j]).1 == NoAction
  }

  /** Every node is without the object, or every node has it under one ETag. */
  predicate Agreed(rs: Replicas) {
    || (forall i :: 0 <= i < |rs| ==> rs[i].None?)
    || (forall i, j :: 0 <= i < |rs| && 0 <= j < |rs| ==> rs[i].Some? && rs[j].Some? && rs[i].value.etag == rs[j].value.etag)
  }

  lemma QuiescentIsAgreed(rs: Replicas)
    requires Plain(rs)
    ensures Quiescent(rs) <==> Agreed(rs)
  {
    if Quiescent(rs) && exists k :: 0 <= k < |rs| && rs[k].Some? {
      var k :| 0 <= k < |rs| && rs[k].Some?;
      forall i | 0 <= i < |rs| ensures rs[i].Some? && rs[i].value.etag == rs[k].value.etag {
        if i != k {
          assert ClassifyDivergence(rs[k], rs[i]).1 == NoAction;
        }
      }
    }
  }

  // ----- convergence -----

  /** A round in which every node successfully compares itself with every other. */
  predicate FullRound(n: nat, round: seq<Step>) {
    && AllLegal(n, round)
    && forall i, j :: 0 <= i < n && 0 <= j < n && i != j ==> Step(i, j, true) in round
  }

  function Flatten(rounds: seq<seq<Step>>): seq<Step> {
    if rounds == [] then [] else rounds[0] + Flatten(rounds[1..])
  }

  lemma {:induction false} RunAppends(rs: Replicas, a: seq<Step>, b: seq<Step>)
    requires AllLegal(|rs|, a) && AllLegal(|rs|, b)
    ensures AllLegal(|rs|, a + b)
    ensures Run(rs, a + b) == Run(Run(rs, a), b)
    ensures Changes(rs, a + b) == Changes(rs, a) + Changes(Run(rs, a), b)
    decreases |a|
  {
    if a == [] {
      assert a + b == b;
    } else {
      assert (a + b)[1..] == a[1..] + b;
      RunAppends(Scrub(rs, a[0]), a[1..], b);
    }
  }

  predicate Lacks(c: Copy, etag: string) {
    c.None? || c.value.etag != etag
  }

  /** Node `i` is above every copy that lacks the ETag. */
  predicate Clear(rs: Replicas, i: nat, etag: string) {
    i < |rs| && forall j :: 0 <= j < |rs| && Lacks(rs[j], etag) ==> Below(rs[j], rs[i])
  }

  lemma StepKeepsClear(rs: Replicas, st: Step, i: nat, etag: string)
    requires Plain(rs) && Legal(|rs|, st) && Clear(rs, i, etag)
    ensures Clear(Scrub(rs, st), i, etag)
  {
    var rs' := Scrub(rs, st);
    StepRaises(rs, st);
    forall j | 0 <= j < |rs'| && Lacks(rs'[j], etag) ensures Below(rs'[j], rs'[i]) {
      assert Below(rs'[j], rs[i]);
      BelowIsOrder(rs'[j], rs[i], rs'[i]);
    }
  }

  lemma {:induction false} RunKeepsClear(rs: Replicas, steps: seq<Step>, i: nat, etag: string)
    requires Plain(rs) && AllLegal(|rs|, steps) && Clear(rs, i, etag)
    ensures Clear(Run(rs, steps), i, etag)
    decreases |steps|
  {
    if steps != [] {
      StepRaises(rs, steps[0]);
      StepKeepsClear(rs, steps[0], i, etag);
      RunKeepsClear(Scrub(rs, steps[0]), steps[1..], i, etag);
    }
  }

  /** No copy that lacks the ETag is above `u`, and node `k` is not below it. */
  predicate Capped(rs: Replicas, u: Copy, k: nat, etag: string) {
    k < |rs| && !Below(rs[k], u) && forall j :: 0 <= j < |rs| && Lacks(rs[j], etag) ==> !Below(u, rs[j])
  }

  lemma StepKeepsCapped(rs: Replicas, st: Step, u: Copy, k: nat, etag: string)
    requires Plain(rs) && Legal(|rs|, st) && Capped(rs, u, k, etag)
    ensures Capped(Scrub(rs, st), u, k, etag)
    ensures Below(u, rs[k]) ==> Below(u, Scrub(rs, st)[k])
  {
    StepRaises(rs, st);
    BelowIsOrder(rs[k], Scrub(rs, st)[k], u);
    BelowIsOrder(u, rs[k], Scrub(rs, st)[k]);
  }

  lemma {:induction false} RunKeepsCapped(rs: Replicas, steps: seq<Step>, u: Copy, k: nat, etag: string)
    requires Plain(rs) && AllLegal(|rs|, steps) && Capped(rs, u, k, etag)
    ensures Capped(Run(rs, steps), u, k, etag)
    ensures Below(u, rs[k]) ==> Below(u, Run(rs, steps)[k])
    decreases |steps|
  {
    if steps != [] {
      StepRaises(rs, steps[0]);
      StepKeepsCapped(rs, steps[0], u, k, etag);
      RunKeepsCapped(Scrub(rs, steps[0]), steps[1..], u, k, etag);
    }
  }

  /** The winner's push to node `k` takes it above `u` for good. */
  lemma PushLifts(rs: Replicas, w: nat, k: nat, u: Copy)
    requires Plain(rs) && Wins(rs, w) && rs[w].Some? && w != k
    requires Capped(rs, u, k, rs[w].value.etag) && Lacks(u, rs[w].value.etag) && Below(u, rs[w])
    ensures Below(u, Scrub(rs, Step(w, k, true))[k])
  {
    var etag := rs[w].value.etag;
    if Lacks(rs[k], etag) {
      if rs[k].Some? {
        UnlikeETagsAreOrdered(rs[w].value, rs[k].value);
      }
      assert Below(rs[k], rs[w]);
      BelowIsOrder(rs[k], rs[w], rs[w]);
      assert Scrub(rs, Step(w, k, true))[k] == rs[w];
    } else if u.Some? {
      UnlikeETagsAreOrdered(u.value, rs[k].value);
    }
  }

  lemma {:induction false} RunSplits(rs: Replicas, steps: seq<Step>, m: nat)
    requires AllLegal(|rs|, steps) && m < |steps|
    ensures Run(rs, steps) == Run(Scrub(Run(rs, steps[..m]), steps[m]), steps[m + 1..])
    decreases |steps|
  {
    if m > 0 {
      RunSplits(Scrub(rs, steps[0]), steps[1..], m - 1);
      assert steps[1..][..m - 1] == steps[..m][1..] && steps[1..][m..] == steps[m + 1..];
    }
  }

  /** A full round takes a greatest of the copies that lack the winner's ETag above all of those. */
  lemma RoundClears(rs: Replicas, round: seq<Step>, w: nat, k: nat)
    requires Plain(rs) && Wins(rs, w) && rs[w].Some? && FullRound(|rs|, round)
    requires k < |rs| && Lacks(rs[k], rs[w].value.etag) && Capped(rs, rs[k], k, rs[w].value.etag)
    ensures Clear(Run(rs, round), k, rs[w].value.etag)
  {
    var etag, u := rs[w].value.etag, rs[k];
    assert w != k && Step(w, k, true) in round;
    var m :| 0 <= m < |round| && round[m] == Step(w, k, true);
    var before := Run(rs, round[..m]);
    WinnerIsNeverLost(rs, round[..m], w);
    RunKeepsCapped(rs, round[..m], u, k, etag);
    assert Below(u, rs[w]) by {
      if u.Some? { UnlikeETagsAreOrdered(u.value, rs[w].value); }
    }
    PushLifts(before, w, k, u);
    StepRaises(before, round[m]);
    StepKeepsCapped(before, round[m], u, k, etag);
    RunKeepsCapped(Scrub(before, round[m]), round[m + 1..], u, k, etag);
    RunSplits(rs, round, m);
    CappedIsClear(Run(rs, round), u, k, etag);
  }

  lemma CappedIsClear(rs: Replicas, u: Copy, k: nat, etag: string)
    requires Capped(rs, u, k, etag) && Below(u, rs[k])
    ensures Clear(rs, k, etag)
  {
    forall j | 0 <= j < |rs| && Lacks(rs[j], etag) ensures Below(rs[j], rs[k]) {
      BelowIsOrder(u, rs[k], rs[j]);
    }
  }

  lemma {:induction false} GreatestLacking(rs: Replicas, etag: string, n: nat) returns (k: nat)
    requires n <= |rs| && exists i :: 0 <= i < n && Lacks(rs[i], etag)
    ensures k < n && Lacks(rs[k], etag) && forall j :: 0 <= j < n && Lacks(rs[j], etag) ==> !Below(rs[k], rs[j])
    decreases n
  {
    if exists i :: 0 <= i < n - 1 && Lacks(rs[i], etag) {
      k := GreatestLacking(rs, etag, n - 1);
      if Lacks(rs[n - 1], etag) && Below(rs[k], rs[n - 1]) {
        forall j | 0 <= j < n && Lacks(rs[j], etag) ensures !Below(rs[n - 1], rs[j]) {
          BelowIsOrder(rs[k], rs[n - 1], rs[j]);
          BelowIsOrder(rs[n - 1], rs[n - 1], rs[n - 1]);
        }
        k := n - 1;
      }
    } else {
      k := n - 1;
      BelowIsOrder(rs[k], rs[k], rs[k]);
    }
  }

  function ClearNodes(rs: Replicas, etag: string): set<nat> {
    set i: nat | i < |rs| && Clear(rs, i, etag)
  }

  /** Each full round clears one more node, until all are. */
  lemma RoundGains(rs: Replicas, round: seq<Step>, w: nat)
    requires Plain(rs) && Wins(rs, w) && rs[w].Some? && FullRound(|rs|, round)
    requires exists i :: 0 <= i < |rs| && Lacks(rs[i], rs[w].value.etag)
    ensures |ClearNodes(rs, rs[w].value.etag)| < |ClearNodes(Run(rs, round), rs[w].value.etag)|
  {
    var etag := rs[w].value.etag;
    var k := GreatestLacking(rs, etag, |rs|);
    BelowIsOrder(rs[k], rs[k], rs[k]);
    RoundClears(rs, round, w, k);
    forall i | i in ClearNodes(rs, etag) ensures i in ClearNodes(Run(rs, round), etag) {
      RunKeepsClear(rs, round, i, etag);
    }
    assert k in ClearNodes(Run(rs, round), etag) && k !in ClearNodes(rs, etag);
    SmallerSet(ClearNodes(rs, etag), ClearNodes(Run(rs, round), etag));
  }

  predicate HasETag(rs: Replicas, etag: string) {
    forall i :: 0 <= i < |rs| ==> !Lacks(rs[i], etag)
  }

  lemma {:induction false} SameETagStays(rs: Replicas, steps: seq<Step>, etag: string)
    requires Plain(rs) && HasETag(rs, etag) && AllLegal(|rs|, steps)
    ensures Run(rs, steps) == rs
    decreases |steps|
  {
    if steps != [] {
      SameETagStays(rs, steps[1..], etag);
    }
  }

  lemma {:induction false} FlattenLegal(n: nat, rounds: seq<seq<Step>>)
    requires forall k :: 0 <= k < |rounds| ==> FullRound(n, rounds[k])
    ensures AllLegal(n, Flatten(rounds))
    decreases |rounds|
  {
    if rounds != [] {
      FlattenLegal(n, rounds[1..]);
    }
  }

  function NodesTo(n: nat): (r: set<nat>)
    ensures |r| == n && forall i: nat :: i in r <==> i < n
  {
    if n == 0 then {} else NodesTo(n - 1) + {n - 1}
  }

  lemma ClearAreNodes(rs: Replicas, etag: string)
    ensures |ClearNodes(rs, etag)| <= |rs|
    ensures |ClearNodes(rs, etag)| == |rs| ==> HasETag(rs, etag)
  {
    var all := NodesTo(|rs|);
    assert ClearNodes(rs, etag) <= all;
    if ClearNodes(rs, etag) != all {
      SmallerSet(ClearNodes(rs, etag), all);
    } else {
      forall i | 0 <= i < |rs| ensures !Lacks(rs[i], etag) {
        assert i in ClearNodes(rs, etag);
        BelowIsOrder(rs[i], rs[i], rs[i]);
      }
    }
  }

  lemma {:induction false} RoundsGain(rs: Replicas, rounds: seq<seq<Step>>, w: nat)
    requires Plain(rs) && Wins(rs, w) && rs[w].Some?
    requires forall k :: 0 <= k < |rounds| ==> FullRound(|rs|, rounds[k])
    ensures AllLegal(|rs|, Flatten(rounds))
    ensures var t := Run(rs, Flatten(rounds));
            HasETag(t, rs[w].value.etag) ||
            |ClearNodes(t, rs[w].value.etag)| >= |ClearNodes(rs, rs[w].value.etag)| + |rounds|
    decreases |rounds|
  {
    FlattenLegal(|rs|, rounds);
    if rounds != [] {
      var etag, rest := rs[w].value.etag, Flatten(rounds[1..]);
      FlattenLegal(|rs|, rounds[1..]);
      RunAppends(rs, rounds[0], rest);
      WinnerIsNeverLost(rs, rounds[0], w);
      if HasETag(rs, etag) {
        SameETagStays(rs, Flatten(rounds), etag);
      } else {
        RoundGains(rs, rounds[0], w);
        RoundsGain(Run(rs, rounds[0]), rounds[1..], w);
      }
    }
  }

  /** Any schedule of at least n - 1 full rounds ends with every node on the winner's ETag. */
  lemma Converges(rs: Replicas, rounds: seq<seq<Step>>, w: nat)
    requires Plain(rs) && Wins(rs, w) && rs[w].Some?
    requires forall k :: 0 <= k < |rounds| ==> FullRound(|rs|, rounds[k])
    requires |rounds| >= |rs| - 1
    ensures AllLegal(|rs|, Flatten(rounds))
    ensures forall i :: 0 <= i < |rs| ==>
            Run(rs, Flatten(rounds))[i].Some? && Run(rs, Flatten(rounds))[i].value.etag == rs[w].value.etag
  {
    var etag := rs[w].value.etag;
    WinnerIsClear(rs, w);
    assert w in ClearNodes(rs, etag);
    assert |ClearNodes(rs, etag)| >= 1;
    RoundsGain(rs, rounds, w);
    ClearAreNodes(Run(rs, Flatten(rounds)), etag);
    assert HasETag(Run(rs, Flatten(rounds)), etag);
  }

  lemma WinnerIsClear(rs: Replicas, w: nat)
    requires Wins(rs, w) && rs[w].Some?
    ensures Clear(rs, w, rs[w].value.etag)
  {
    forall j | 0 <= j < |rs| && Lacks(rs[j], rs[w].value.etag) ensures Below(rs[j], rs[w]) {
      if rs[j].Some? {
        UnlikeETagsAreOrdered(rs[j].value, rs[w].value);
      }
    }
  }

  // ----- multipart ETags -----

  /** What the two copies become when the holder of `a` scrubs against the holder of `b`. */
  function Settle(a: Copy, b: Copy): (Copy, Copy) {
    match ClassifyDivergence(a, b).1
    case NoAction => (a, b)
    case PushToPeer => (a, a)
    case PullFromPeer => (b, b)
  }

  /**
   * Both nodes of a pair reach the same outcome whoever scrubs first, except for a multipart
   * object held under one timestamp and one ETag with two sizes.
   */
  lemma WhoScrubsFirst(a: Version, b: Version)
    ensures Settle(Some(a), Some(b)) == (Settle(Some(b), Some(a)).1, Settle(Some(b), Some(a)).0) <==>
            !(IsMultipartETag(a.etag) && a.etag == b.etag && a.ts == b.ts && a.size != b.size)
  {
    LessIrreflexive(a.etag);
    LessTotal(a.etag, b.etag);
    if Less(a.etag, b.etag) { LessAsymmetric(a.etag, b.etag); }
    if Less(b.etag, a.etag) { LessAsymmetric(b.etag, a.etag); }
  }

  /** With any ETags, an action leaves both nodes on one of the two copies, and no lower one. */
  lemma ActionNeverLowers(a: Version, b: Version)
    requires ClassifyDivergence(Some(a), Some(b)).1 != NoAction
    ensures var c := Settle(Some(a), Some(b)).0;
            && Settle(Some(a), Some(b)) == (c, c) && (c == Some(a) || c == Some(b))
            && !Below(c, Some(a)) && !Below(c, Some(b))
  {
    LessIrreflexive(a.etag);
    LessIrreflexive(b.etag);
    LessTotal(a.etag, b.etag);
    if Less(a.etag, b.etag) { LessAsymmetric(a.etag, b.etag); }
    if Less(b.etag, a.etag) { LessAsymmetric(b.etag, a.etag); }
  }

  /** Two copies are acted on exactly when their ETags differ, or with a multipart one when size or time does. */
  lemma ActsExactly(a: Version, b: Version)
    ensures ClassifyDivergence(Some(a), Some(b)).1 != NoAction <==>
            if IsMultipartETag(a.etag) || IsMultipartETag(b.etag)
            then a.size != b.size || a.ts > b.ts + 1 || b.ts > a.ts + 1 else a.etag != b.etag
  {
  }

  /** A copy that is missing on the peer is sent there; one that is missing here is not in the listing. */
  lemma MissingCopies(a: Version, b: Copy)
    ensures Settle(Some(a), None) == (Some(a), Some(a)) && Settle(None, b) == (None, b)
  {
  }

  lemma {:induction false} DecimalBound(s: string, k: nat)
    requires |s| <= k && forall i :: 0 <= i < |s| ==> '0' <= s[i] <= '9'
    ensures Decimal(s) < Tens(k)
    decreases k
  {
    if k > 0 {
      if s != "" {
        DecimalBound(s[..|s| - 1], k - 1);
      } else {
        DecimalBound(s, k - 1);
      }
    }
  }

  function Tens(k: nat): nat {
    if k == 0 then 1 else 10 * Tens(k - 1)
  }

  lemma EighteenTens()
    ensures Tens(18) == 1_000_000_000_000_000_000
  {
    assert Tens(6) == 1_000_000;
    assert Tens(12) == 1_000_000_000_000;
  }

  lemma ShortNumbers(n: string)
    requires |n| <= 18
    ensures AtoiAccepts(n) <==> Digits(n) || (|n| > 1 && n[0] == '+' && Digits(n[1..]))
  {
    EighteenTens();
    if Digits(n) {
      DecimalBound(n, 18);
    }
    if |n| > 1 && n[0] == '+' && Digits(n[1..]) {
      DecimalBound(n[1..], 18);
    }
  }

  const DIGITS := {'0', '1', '2', '3', '4', '5', '6', '7', '8', '9'}

  lemma DigitExactly(c: char)
    ensures '0' <= c <= '9' <==> c in DIGITS
  {
    assert forall d: char {:trigger d as int} :: d as int == c as int ==> d == c;
  }

  lemma DigitsExactly(s: string)
    ensures Digits(s) <==> s != "" && forall i :: 0 <= i < |s| ==> s[i] in DIGITS
  {
    forall i | 0 <= i < |s| ensures '0' <= s[i] <= '9' <==> s[i] in DIGITS {
      DigitExactly(s[i]);
    }
  }

  function LastDigit(n: nat): (c: char)
    ensures '0' <= c <= '9' && c as int == '0' as int + n % 10
  {
    ('0' as int + n % 10) as char
  }

  /** The usual text of a number. */
  function Text(n: nat): (s: string)
    ensures s != "" && forall i :: 0 <= i < |s| ==> '0' <= s[i] <= '9'
  {
    if n < 10 then [LastDigit(n)] else Text(n / 10) + [LastDigit(n)]
  }

  /** Reading a number's text gives the number. */
  lemma {:induction false} TextIsRead(n: nat)
    ensures Digits(Text(n)) && Decimal(Text(n)) == n
    decreases n
  {
    var s := Text(n);
    if n >= 10 {
      TextIsRead(n / 10);
      assert s[..|s| - 1] == Text(n / 10);
    } else {
      assert s[..0] == "";
    }
  }

  /** A number is accepted exactly if it is below 2 to the 63rd. */
  lemma NumbersInRange(n: string)
    requires Digits(n)
    ensures AtoiAccepts(n) <==> Decimal(n) < 9_223_372_036_854_775_808
    ensures AtoiAccepts("+" + n) <==> Decimal(n) < 9_223_372_036_854_775_808
  {
    assert ("+" + n)[1..] == n;
  }

  lemma {:induction false} DecimalAtLeast(s: string)
    requires Digits(s) && s[0] != '0'
    ensures Decimal(s) >= Tens(|s| - 1)
    decreases |s|
  {
    if |s| > 1 {
      DecimalAtLeast(s[..|s| - 1]);
    }
  }

  /** No number of more than nineteen digits that starts with another digit than 0 is accepted. */
  lemma LongNumbers(n: string)
    requires Digits(n) && |n| >= 20 && n[0] != '0'
    ensures !AtoiAccepts(n)
  {
    DecimalAtLeast(n);
    EighteenTens();
    TensGrow(19, |n| - 1);
  }

  lemma {:induction false} TensGrow(j: nat, k: nat)
    requires j <= k
    ensures Tens(j) <= Tens(k)
    decreases k
  {
    if j < k {
      TensGrow(j, k - 1);
    }
  }

  /** The dash behind which there is no other. */
  predicate LastDash(e: string, idx: nat) {
    idx < |e| && e[idx] == '-' && '-' !in e[idx + 1..]
  }

  lemma DashesBefore(e: string, i: nat, j: nat)
    requires i < j < |e| && e[j] == '-'
    ensures !LastDash(e, i)
  {
    assert e[i + 1..][j - i - 1] == '-';
  }

  /** A multipart ETag is a non-empty text, a dash, and a number; one without a dash is none. */
  lemma MultipartExactly(m: string, n: string)
    requires '-' !in n
    ensures IsMultipartETag(m + "-" + n) <==> m != "" && AtoiAccepts(n)
    ensures !IsMultipartETag(n)
  {
    var e := m + "-" + n;
    assert e[|m|] == '-' && e[|m| + 1..] == n;
    assert LastDash(e, |m|);
    forall idx: nat | idx != |m| ensures !LastDash(e, idx) {
      if idx < |m| {
        DashesBefore(e, idx, |m|);
      } else if |m| < idx < |e| {
        assert e[idx] == n[idx - |m| - 1];
      }
    }
  }

  lemma MultipartExample()
    ensures IsMultipartETag("d-2")
  {
    var e := "d-2";
    assert e[1] == '-' && e[2..] == "2";
    assert Digits("2") && Decimal("2") <= 9;
  }

  /** The tolerance on multipart timestamps leaves unlike copies alone: quiescent, not agreed. */
  lemma MultipartQuiescentNotAgreed()
    ensures var rs := [Some(Version(7, "d-2", 5)), Some(Version(8, "e", 5))]; Quiescent(rs) && !Agreed(rs)
  {
    MultipartExample();
    var rs := [Some(Version(7, "d-2", 5)), Some(Version(8, "e", 5))];
    assert rs[0].value.etag != rs[1].value.etag;
  }
}
