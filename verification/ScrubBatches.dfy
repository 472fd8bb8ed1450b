// internal/cluster/anti_entropy.go: how processBatch really compares.  A node lists its objects once
// for the page, asks each peer once for its checksums, and only then acts, object by object.  What it
// decides by may be old by then: its own copy may have been replaced since the listing, the peer's
// since the answer.  One object on any number of nodes, all of which may scrub at the same time.
module ScrubBatches {
  import opened AntiEntropy
  import opened Options

  /** A node's page under way: the copy it listed, the peers still to ask, and an answer not yet acted on. */
  datatype Batch = NoBatch | Batch(listed: Version, todo: set<nat>, heard: Option<(nat, Copy)>)

  datatype State = State(rs: Replicas, batches: seq<Batch>)

  datatype Event =
    | List(node: nat, peers: set<nat>)     // executeCycle lists the page and the healthy peers
    | Fetch(node: nat, peer: nat)          // fetchPeerChecksums
    | Act(node: nat, done: bool)           // classifyDivergence and applyAction; `done` says whether the transfer works

  predicate Fits(s: State) {
    |s.batches| == |s.rs|
  }

  /** No page is under way anywhere. */
  function Idle(rs: Replicas): (s: State)
    ensures Fits(s)
  {
    State(rs, seq(|rs|, _ => NoBatch))
  }

  /** A push sends the copy the node has now, a pull brings the one the peer has now. */
  function Transfer(rs: Replicas, x: nat, p: nat, action: Action): (r: Replicas)
    requires x < |rs| && p < |rs|
    ensures |r| == |rs|
  {
    match action
    case NoAction => rs
    case PushToPeer => if rs[x].Some? then rs[p := rs[x]] else rs
    case PullFromPeer => if rs[p].Some? then rs[x := rs[p]] else rs
  }

  /** No transfer takes a copy away, whatever has become of the one it was to send. */
  lemma TransferKeepsCopies(rs: Replicas, x: nat, p: nat, action: Action, k: nat)
    requires x < |rs| && p < |rs| && k < |rs| && rs[k].Some?
    ensures Transfer(rs, x, p, action)[k].Some?
  {
  }

  /** The batch has an answer to act on. */
  predicate Ready(s: State, x: nat)
    requires Fits(s)
  {
    x < |s.rs| && s.batches[x].Batch? && s.batches[x].heard.Some? && s.batches[x].heard.value.0 < |s.rs|
  }

  /** What it decides, by what it listed and heard. */
  function Decision(s: State, x: nat): Action
    requires Fits(s) && Ready(s, x)
  {
    ClassifyDivergence(Some(s.batches[x].listed), s.batches[x].heard.value.1).1
  }

  function Apply(s: State, e: Event): (t: State)
    requires Fits(s)
    ensures Fits(t) && |t.rs| == |s.rs|
  {
    if e.node >= |s.rs| then s
    else
      var b := s.batches[e.node];
      match e
      case List(x, peers) =>
        s.(batches := s.batches[x :=
          if s.rs[x].None? then NoBatch else Batch(s.rs[x].value, peers - {x}, None)])
      case Fetch(x, p) =>
        if b.NoBatch? || p !in b.todo || p >= |s.rs| then s
        else s.(batches := s.batches[x := b.(todo := b.todo - {p}, heard := Some((p, s.rs[p])))])
      case Act(x, done) =>
        if !Ready(s, x) then s
        else State(if done then Transfer(s.rs, x, b.heard.value.0, Decision(s, x)) else s.rs,
                   s.batches[x := b.(heard := None)])
  }

  function Exec(s: State, events: seq<Event>): (t: State)
    requires Fits(s)
    ensures Fits(t) && |t.rs| == |s.rs|
    decreases |events|
  {
    if events == [] then s else Exec(Apply(s, events[0]), events[1..])
  }

  /** How many events of the run change a copy. */
  function Acts(s: State, events: seq<Event>): nat
    requires Fits(s)
    decreases |events|
  {
    if events == [] then 0
    else (if Apply(s, events[0]).rs != s.rs then 1 else 0) + Acts(Apply(s, events[0]), events[1..])
  }

  lemma {:induction false} ExecJoin(s: State, a: seq<Event>, b: seq<Event>)
    requires Fits(s)
    ensures Exec(s, a + b) == Exec(Exec(s, a), b)
    ensures Acts(s, a + b) == Acts(s, a) + Acts(Exec(s, a), b)
    decreases |a|
  {
    if a == [] {
      assert a + b == b;
    } else {
      assert (a + b)[1..] == a[1..] + b;
      ExecJoin(Apply(s, a[0]), a[1..], b);
    }
  }

  // ----- when an action raises -----

  lemma ClassifyPlain(l: Version, h: Copy)
    requires !IsMultipartETag(l.etag) && (h.Some? ==> !IsMultipartETag(h.value.etag))
    ensures ClassifyDivergence(Some(l), h).1 == PushToPeer <==> h.None? || (h.value.etag != l.etag && Below(h, Some(l)))
    ensures ClassifyDivergence(Some(l), h).1 == PullFromPeer <==> h.Some? && h.value.etag != l.etag && Below(Some(l), h)
  {
    if h.Some? && h.value.etag != l.etag {
      UnlikeETagsAreOrdered(l, h.value);
      BelowIsOrder(Some(l), h, h);
    }
  }

  /** The listing and the answer say what the two nodes hold now. */
  predicate UpToDate(s: State, x: nat)
    requires Fits(s) && Ready(s, x)
  {
    Some(s.batches[x].listed) == s.rs[x] && s.batches[x].heard.value.1 == s.rs[s.batches[x].heard.value.0]
  }

  /** An up-to-date action is the comparison at one instant. */
  lemma UpToDateIsScrub(s: State, x: nat, done: bool)
    requires Fits(s) && Ready(s, x) && UpToDate(s, x) && s.batches[x].heard.value.0 != x
    ensures Apply(s, Act(x, done)).rs == Scrub(s.rs, Step(x, s.batches[x].heard.value.0, done))
  {
  }

  /** So it raises the copy it changes; one that does not raise decided by something old. */
  lemma LoweringIsStale(s: State, x: nat, i: nat)
    requires Fits(s) && Plain(s.rs) && Ready(s, x) && s.batches[x].heard.value.0 != x
    requires i < |s.rs| && Apply(s, Act(x, true)).rs[i] != s.rs[i] && !Below(s.rs[i], Apply(s, Act(x, true)).rs[i])
    ensures !UpToDate(s, x)
  {
    if UpToDate(s, x) {
      UpToDateIsScrub(s, x, true);
      StepRaises(s.rs, Step(x, s.batches[x].heard.value.0, true));
    }
  }

  /** Whatever it decided by, it raises exactly when the copy that is sent is above the one it replaces. */
  lemma RaisesExactly(s: State, x: nat)
    requires Fits(s) && Ready(s, x) && Decision(s, x) != NoAction && x != s.batches[x].heard.value.0
    ensures var p := s.batches[x].heard.value.0; var rs' := Apply(s, Act(x, true)).rs;
            (Below(s.rs[x], rs'[x]) || Below(s.rs[p], rs'[p])) <==>
            if Decision(s, x) == PushToPeer then Below(s.rs[p], s.rs[x]) else Below(s.rs[x], s.rs[p])
  {
    var p := s.batches[x].heard.value.0;
    BelowIsOrder(s.rs[x], s.rs[x], s.rs[x]);
    BelowIsOrder(s.rs[p], s.rs[p], s.rs[p]);
  }

  const V1 := Version(1, "v", 0)
  const V2 := Version(2, "y", 0)
  const V3 := Version(3, "x", 0)

  lemma PlainVersions()
    ensures !IsMultipartETag("v") && !IsMultipartETag("x") && !IsMultipartETag("y")
  {
  }

  // ----- one batch, with nothing else going on -----

  function Turns(x: nat, peers: seq<nat>): seq<Event> {
    if peers == [] then [] else [Fetch(x, peers[0]), Act(x, true)] + Turns(x, peers[1..])
  }

  /** processBatch against these peers, every call and transfer of which works. */
  function WholeBatch(x: nat, peers: seq<nat>): seq<Event> {
    [List(x, set p | p in peers)] + Turns(x, peers)
  }

  /** The copy beats the listed one. */
  predicate Beats(c: Copy, l: Version) {
    c.Some? && c.value.etag != l.etag && Below(Some(l), c)
  }

  /** The copy of the last peer that beats the listed one, if there is one. */
  function LastBeating(rs: Replicas, now: Copy, l: Version, peers: seq<nat>): Copy
    requires forall k :: 0 <= k < |peers| ==> peers[k] < |rs|
    decreases |peers|
  {
    if peers == [] then now
    else LastBeating(rs, if Beats(rs[peers[0]], l) then rs[peers[0]] else now, l, peers[1..])
  }

  /** Distinct peers, none of them the node itself. */
  predicate PeersOf(n: nat, x: nat, peers: seq<nat>) {
    && (forall k :: 0 <= k < |peers| ==> peers[k] < n && peers[k] != x)
    && (forall j, k :: 0 <= j < k < |peers| ==> peers[j] != peers[k])
  }

  lemma OneTurn(s: State, x: nat, p: nat)
    requires Fits(s) && Plain(s.rs) && x < |s.rs| && p < |s.rs| && p != x && s.rs[x].Some?
    requires s.batches[x].Batch? && p in s.batches[x].todo && !IsMultipartETag(s.batches[x].listed.etag)
    ensures var l := s.batches[x].listed; var t := Apply(Apply(s, Fetch(x, p)), Act(x, true));
            && t.batches == s.batches[x := Batch(l, s.batches[x].todo - {p}, None)]
            && t.rs == (if Beats(s.rs[p], l) then s.rs[x := s.rs[p]]
                        else if s.rs[p].None? || (s.rs[p].value.etag != l.etag && Below(s.rs[p], Some(l))) then s.rs[p := s.rs[x]]
                        else s.rs)
  {
    ClassifyPlain(s.batches[x].listed, s.rs[p]);
  }

  lemma TurnsStep(s: State, x: nat, peers: seq<nat>)
    requires Fits(s) && peers != []
    ensures Exec(s, Turns(x, peers)) == Exec(Apply(Apply(s, Fetch(x, peers[0])), Act(x, true)), Turns(x, peers[1..]))
  {
    var two := [Fetch(x, peers[0]), Act(x, true)];
    ExecJoin(s, two, Turns(x, peers[1..]));
    assert two[1..] == [Act(x, true)] && [Act(x, true)][1..] == [];
    assert Exec(Apply(s, two[0]), two[1..]) == Apply(Apply(s, two[0]), Act(x, true));
  }

  lemma {:induction false} TurnsTakeLast(s: State, x: nat, peers: seq<nat>)
    requires Fits(s) && Plain(s.rs) && x < |s.rs| && s.rs[x].Some? && PeersOf(|s.rs|, x, peers)
    requires s.batches[x].Batch? && (forall k :: 0 <= k < |peers| ==> peers[k] in s.batches[x].todo)
    requires !IsMultipartETag(s.batches[x].listed.etag)
    ensures Exec(s, Turns(x, peers)).rs[x] == LastBeating(s.rs, s.rs[x], s.batches[x].listed, peers)
    decreases |peers|
  {
    if peers != [] {
      var p, l := peers[0], s.batches[x].listed;
      OneTurn(s, x, p);
      TurnsStep(s, x, peers);
      var t := Apply(Apply(s, Fetch(x, p)), Act(x, true));
      TurnsTakeLast(t, x, peers[1..]);
      SameBeating(s.rs, t.rs, t.rs[x], l, peers[1..]);
    }
  }

  lemma {:induction false} SameBeating(rs: Replicas, rs': Replicas, now: Copy, l: Version, peers: seq<nat>)
    requires |rs| == |rs'| && forall k :: 0 <= k < |peers| ==> peers[k] < |rs| && rs[peers[k]] == rs'[peers[k]]
    ensures LastBeating(rs, now, l, peers) == LastBeating(rs', now, l, peers)
    decreases |peers|
  {
    if peers != [] {
      SameBeating(rs, rs', if Beats(rs[peers[0]], l) then rs[peers[0]] else now, l, peers[1..]);
    }
  }

  /** A batch leaves its node with the copy of the last peer that beat the listed one, not of the best. */
  lemma BatchTakesLast(rs: Replicas, x: nat, peers: seq<nat>)
    requires Plain(rs) && x < |rs| && rs[x].Some? && PeersOf(|rs|, x, peers)
    ensures Exec(Idle(rs), WholeBatch(x, peers)).rs[x] == LastBeating(rs, rs[x], rs[x].value, peers)
  {
    var s := Apply(Idle(rs), List(x, set p | p in peers));
    assert WholeBatch(x, peers)[1..] == Turns(x, peers);
    assert forall k :: 0 <= k < |peers| ==> peers[k] in peers;
    TurnsTakeLast(s, x, peers);
  }

  /** Node `x` is in the middle of a batch, with these peers to go. */
  predicate MidBatch(s: State, x: nat, local: Version, rest: seq<nat>) {
    && Fits(s) && Plain(s.rs) && x < |s.rs| && s.rs[x].Some? && PeersOf(|s.rs|, x, rest)
    && s.batches[x].Batch? && s.batches[x].listed == local && !IsMultipartETag(local.etag)
    && forall k :: 0 <= k < |rest| ==> rest[k] in s.batches[x].todo
  }

  lemma NextPeer(s: State, x: nat, local: Version, rest: seq<nat>) returns (t: State)
    requires MidBatch(s, x, local, rest) && rest != []
    ensures MidBatch(t, x, local, rest[1..]) && Exec(s, Turns(x, rest)) == Exec(t, Turns(x, rest[1..]))
    ensures t.rs == Transfer(s.rs, x, rest[0], ClassifyDivergence(Some(local), s.rs[rest[0]]).1)
  {
    OneTurn(s, x, rest[0]);
    TurnsStep(s, x, rest);
    ClassifyPlain(local, s.rs[rest[0]]);
    t := Apply(Apply(s, Fetch(x, rest[0])), Act(x, true));
  }

  lemma BatchBegins(rs: Replicas, x: nat, peers: seq<nat>) returns (s: State)
    requires Plain(rs) && x < |rs| && rs[x].Some? && PeersOf(|rs|, x, peers)
    ensures MidBatch(s, x, rs[x].value, peers) && s.rs == rs
    ensures Exec(Idle(rs), WholeBatch(x, peers)) == Exec(s, Turns(x, peers))
  {
    s := Apply(Idle(rs), List(x, set p | p in peers));
    assert WholeBatch(x, peers)[1..] == Turns(x, peers);
    assert forall k :: 0 <= k < |peers| ==> peers[k] in peers;
  }

  /** processBatch for one object while nothing else happens: its loop over the peers is that run. */
  method ProcessBatch(rs: Replicas, x: nat, peers: seq<nat>) returns (now: Replicas)
    requires Plain(rs) && x < |rs| && rs[x].Some? && PeersOf(|rs|, x, peers)
    ensures now == Exec(Idle(rs), WholeBatch(x, peers)).rs
    ensures |now| == |rs| && now[x] == LastBeating(rs, rs[x], rs[x].value, peers)
  {
    BatchTakesLast(rs, x, peers);
    var local := rs[x].value;
    ghost var s := BatchBegins(rs, x, peers);
    ghost var whole := Exec(s, Turns(x, peers));
    now := rs;
    assert peers[0..] == peers;
    for k := 0 to |peers|
      invariant MidBatch(s, x, local, peers[k..]) && s.rs == now && Exec(s, Turns(x, peers[k..])) == whole
    {
      assert peers[k..][1..] == peers[k + 1..] && peers[k..][0] == peers[k];
      var p := peers[k];
      s := NextPeer(s, x, local, peers[k..]);
      match ClassifyDivergence(Some(local), now[p]).1 {
        case NoAction =>
        case PushToPeer => now := now[p := now[x]];
        case PullFromPeer =>
          if now[p].Some? {
            now := now[x := now[p]];
          }
      }
    }
  }

  /** Version 1 meets 3 and then 2: the batch pulls 3, and then 2 over it. */
  lemma StaleListingLowers()
    ensures var rs := [Some(V1), Some(V3), Some(V2)];
            Plain(rs) && Exec(Idle(rs), WholeBatch(0, [1])).rs[0] == Some(V3) && Exec(Idle(rs), WholeBatch(0, [1, 2])).rs[0] == Some(V2)
  {
    PlainVersions();
    var rs := [Some(V1), Some(V3), Some(V2)];
    BatchTakesLast(rs, 0, [1]);
    BatchTakesLast(rs, 0, [1, 2]);
    assert [1, 2][1..] == [2] && [2][1..] == [] && [1][1..] == [];
    assert LastBeating(rs, Some(V3), V1, [2]) == LastBeating(rs, Some(V2), V1, []);
  }

  function Turn(s: State, x: nat, p: nat): State
    requires Fits(s)
  {
    Apply(Apply(s, Fetch(x, p)), Act(x, true))
  }

  /** A node starts a page and asks one peer. */
  function Asked(s: State, x: nat, p: nat): State
    requires Fits(s)
  {
    Apply(Apply(s, List(x, {p})), Fetch(x, p))
  }

  lemma AskedFacts(s: State, x: nat, p: nat)
    requires Fits(s) && x < |s.rs| && p < |s.rs| && p != x && s.rs[x].Some?
    ensures Asked(s, x, p) == State(s.rs, s.batches[x := Batch(s.rs[x].value, {}, Some((p, s.rs[p])))])
  {
    var b := Batch(s.rs[x].value, {p}, None);
    assert {p} - {x} == {p} && {p} - {p} == {};
    assert Apply(s, List(x, {p})) == State(s.rs, s.batches[x := b]);
    assert s.batches[x := b][x := b.(todo := {}, heard := Some((p, s.rs[p])))] ==
           s.batches[x := Batch(s.rs[x].value, {}, Some((p, s.rs[p])))];
  }

  /** An unlike answer above the listed copy is pulled, whatever the peer holds by then. */
  lemma ActPulls(s: State, x: nat, l: Version, p: nat, h: Version)
    requires Fits(s) && x < |s.rs| && p < |s.rs| && s.batches[x].Batch? && s.batches[x].listed == l
    requires s.batches[x].heard == Some((p, Some(h))) && s.rs[p].Some?
    requires !IsMultipartETag(l.etag) && !IsMultipartETag(h.etag) && l.etag != h.etag && Below(Some(l), Some(h))
    ensures Apply(s, Act(x, true)) == State(s.rs[x := s.rs[p]], s.batches[x := s.batches[x].(heard := None)])
  {
    ClassifyPlain(l, Some(h));
  }

  /** An unlike answer below the listed copy is overwritten by what the node holds by then. */
  lemma ActPushes(s: State, x: nat, l: Version, p: nat, h: Version)
    requires Fits(s) && x < |s.rs| && p < |s.rs| && s.batches[x].Batch? && s.batches[x].listed == l
    requires s.batches[x].heard == Some((p, Some(h))) && s.rs[x].Some?
    requires !IsMultipartETag(l.etag) && !IsMultipartETag(h.etag) && l.etag != h.etag && Below(Some(h), Some(l))
    ensures Apply(s, Act(x, true)) == State(s.rs[p := s.rs[x]], s.batches[x := s.batches[x].(heard := None)])
  {
    ClassifyPlain(l, Some(h));
  }

  /** Node 0 hears that node 1 has version 1; node 1 pulls 3 from node 2; node 0 pushes its 2 over it. */
  lemma StaleAnswerLowers()
    ensures var rs := [Some(V2), Some(V1), Some(V3)];
            var pulled := Apply(Asked(Asked(Idle(rs), 0, 1), 1, 2), Act(1, true));
            Plain(rs) && pulled.rs[1] == Some(V3) && Apply(pulled, Act(0, true)).rs[1] == Some(V2)
  {
    PlainVersions();
    var rs := [Some(V2), Some(V1), Some(V3)];
    var heard := Asked(Idle(rs), 0, 1);
    AskedFacts(Idle(rs), 0, 1);
    AskedFacts(heard, 1, 2);
    ActPulls(Asked(heard, 1, 2), 1, V1, 2, V3);
    ActPushes(Apply(Asked(heard, 1, 2), Act(1, true)), 0, V2, 1, V1);
  }

  // ----- the winner is never lost -----

  predicate PlainSet(u: set<Copy>) {
    forall c :: c in u && c.Some? ==> !IsMultipartETag(c.value.etag)
  }

  /** Everything held, listed or heard is one of these copies. */
  predicate Within(s: State, u: set<Copy>)
    requires Fits(s)
  {
    && (forall i :: 0 <= i < |s.rs| ==> s.rs[i] in u)
    && (forall i :: 0 <= i < |s.rs| && s.batches[i].Batch? ==> Some(s.batches[i].listed) in u)
    && (forall i :: 0 <= i < |s.rs| && s.batches[i].Batch? && s.batches[i].heard.Some? ==> s.batches[i].heard.value.1 in u)
  }

  /** Node `w` holds `top`, has listed nothing else, and nobody has heard anything else of it. */
  predicate Holds(s: State, w: nat, top: Version)
    requires Fits(s)
  {
    && w < |s.rs| && s.rs[w] == Some(top)
    && (s.batches[w].Batch? ==> s.batches[w].listed == top)
    && (forall i :: 0 <= i < |s.rs| && s.batches[i].Batch? && s.batches[i].heard.Some? && s.batches[i].heard.value.0 == w ==>
          s.batches[i].heard.value.1 == Some(top))
  }

  predicate Tops(u: set<Copy>, top: Version) {
    forall c :: c in u ==> !Below(Some(top), c)
  }

  lemma ApplyStaysWithin(s: State, e: Event, u: set<Copy>)
    requires Fits(s) && Within(s, u)
    ensures Within(Apply(s, e), u)
  {
  }

  lemma ApplyKeepsHolding(s: State, e: Event, u: set<Copy>, w: nat, top: Version)
    requires Fits(s) && PlainSet(u) && Tops(u, top) && Within(s, u) && Holds(s, w, top)
    ensures Holds(Apply(s, e), w, top)
  {
    if e.Act? && Ready(s, e.node) {
      var l, h := s.batches[e.node].listed, s.batches[e.node].heard.value.1;
      ClassifyPlain(l, h);
      BelowIsOrder(Some(top), Some(l), Some(l));
    }
  }

  lemma {:induction false} RunKeepsHolding(s: State, events: seq<Event>, u: set<Copy>, w: nat, top: Version)
    requires Fits(s) && PlainSet(u) && Tops(u, top) && Within(s, u) && Holds(s, w, top)
    ensures Within(Exec(s, events), u) && Holds(Exec(s, events), w, top)
    decreases |events|
  {
    if events != [] {
      ApplyStaysWithin(s, events[0], u);
      ApplyKeepsHolding(s, events[0], u, w, top);
      RunKeepsHolding(Apply(s, events[0]), events[1..], u, w, top);
    }
  }

  lemma IdleFacts(rs: Replicas, w: nat)
    requires Plain(rs) && Wins(rs, w) && rs[w].Some?
    ensures PlainSet(CopiesOf(rs)) && Tops(CopiesOf(rs), rs[w].value)
    ensures Within(Idle(rs), CopiesOf(rs)) && Holds(Idle(rs), w, rs[w].value)
  {
  }

  /**
   * However the batches of all nodes interleave and whatever is out of date: the node with a greatest
   * version keeps it, and no node ever holds a greater one.
   */
  lemma WinnerIsNeverLost(rs: Replicas, events: seq<Event>, w: nat)
    requires Plain(rs) && Wins(rs, w)
    ensures Exec(Idle(rs), events).rs[w] == rs[w] && Wins(Exec(Idle(rs), events).rs, w)
  {
    if rs[w].Some? {
      IdleFacts(rs, w);
      RunKeepsHolding(Idle(rs), events, CopiesOf(rs), w, rs[w].value);
    } else {
      forall i | 0 <= i < |rs| ensures rs[i].None? {
        assert !Below(rs[w], rs[i]);
      }
      NothingStays(Idle(rs), events);
    }
  }

  lemma {:induction false} NothingStays(s: State, events: seq<Event>)
    requires Fits(s) && forall i :: 0 <= i < |s.rs| ==> s.rs[i].None? && s.batches[i].NoBatch?
    ensures Exec(s, events).rs == s.rs && Acts(s, events) == 0
    decreases |events|
  {
    if events != [] {
      NothingStays(Apply(s, events[0]), events[1..]);
    }
  }

  // ----- a whole batch of the winner's node -----

  lemma WinnersTurn(s: State, w: nat, p: nat, todo: set<nat>)
    requires Fits(s) && Plain(s.rs) && Wins(s.rs, w) && s.rs[w].Some? && p < |s.rs| && p != w && p in todo
    requires s.batches[w] == Batch(s.rs[w].value, todo, None)
    ensures var t := Turn(s, w, p);
            && t.batches[w] == Batch(s.rs[w].value, todo - {p}, None) && !Lacks(t.rs[p], s.rs[w].value.etag)
            && (t.rs == s.rs || t.rs == s.rs[p := s.rs[w]])
  {
    OneTurn(s, w, p);
    if s.rs[p].Some? && s.rs[p].value.etag != s.rs[w].value.etag {
      UnlikeETagsAreOrdered(s.rs[p].value, s.rs[w].value);
    }
  }

  lemma {:induction false} WinnersTurns(s: State, w: nat, peers: seq<nat>, todo: set<nat>)
    requires Fits(s) && Plain(s.rs) && Wins(s.rs, w) && s.rs[w].Some? && PeersOf(|s.rs|, w, peers)
    requires s.batches[w] == Batch(s.rs[w].value, todo, None) && forall k :: 0 <= k < |peers| ==> peers[k] in todo
    ensures var t := Exec(s, Turns(w, peers));
            && (forall i :: 0 <= i < |s.rs| ==> t.rs[i] == s.rs[i] || t.rs[i] == s.rs[w])
            && (forall k :: 0 <= k < |peers| ==> !Lacks(t.rs[peers[k]], s.rs[w].value.etag))
    decreases |peers|
  {
    if peers != [] {
      var p := peers[0];
      var t := Turn(s, w, p);
      WinnersTurn(s, w, p, todo);
      TurnsStep(s, w, peers);
      BelowIsOrder(s.rs[w], s.rs[w], s.rs[w]);
      WinnersTurns(t, w, peers[1..], todo - {p});
      forall k | 0 <= k < |peers| ensures !Lacks(Exec(s, Turns(w, peers)).rs[peers[k]], s.rs[w].value.etag) {
        if k > 0 {
          assert peers[1..][k - 1] == peers[k];
        }
      }
    }
  }

  /** One undisturbed batch of a node with a greatest version, against all others, ends in agreement. */
  lemma WinnersBatchSettles(rs: Replicas, w: nat, peers: seq<nat>)
    requires Plain(rs) && Wins(rs, w) && rs[w].Some? && PeersOf(|rs|, w, peers)
    requires forall i :: 0 <= i < |rs| && i != w ==> i in peers
    ensures HasETag(Exec(Idle(rs), WholeBatch(w, peers)).rs, rs[w].value.etag)
  {
    var s := Apply(Idle(rs), List(w, set p | p in peers));
    assert WholeBatch(w, peers)[1..] == Turns(w, peers);
    assert forall k :: 0 <= k < |peers| ==> peers[k] in peers;
    WinnersTurns(s, w, peers, (set p | p in peers) - {w});
    forall i | 0 <= i < |rs| ensures !Lacks(Exec(s, Turns(w, peers)).rs[i], rs[w].value.etag) {
      if i != w {
        assert i in peers;
        var k :| 0 <= k < |peers| && peers[k] == i;
      }
    }
  }

  // ----- rounds: all nodes scrub at once, and wait for each other before the next page listing -----

  /** Node `x` acts, with success, on an answer of node `k`. */
  predicate ActsOn(s: State, events: seq<Event>, x: nat, k: nat)
    requires Fits(s)
    decreases |events|
  {
    events != [] &&
    ((events[0] == Act(x, true) && Ready(s, x) && s.batches[x].heard.value.0 == k) || ActsOn(Apply(s, events[0]), events[1..], x, k))
  }

  /** Every node with the object acts on every other, in any interleaving, possibly more than once. */
  ghost predicate FullRound(rs: Replicas, events: seq<Event>) {
    forall x, k :: 0 <= x < |rs| && 0 <= k < |rs| && x != k && rs[x].Some? ==> ActsOn(Idle(rs), events, x, k)
  }

  /** At some point of the run node `i` holds another copy than at the start of the round. */
  predicate Changes(s: State, events: seq<Event>, i: nat, c: Copy)
    requires Fits(s) && i < |s.rs|
    decreases |events|
  {
    s.rs[i] != c || (events != [] && Changes(Apply(s, events[0]), events[1..], i, c))
  }

  /** A node that lacks the winner's ETag does not get through a full round unchanged. */
  lemma {:induction false} ContactChanges(s: State, events: seq<Event>, u: set<Copy>, w: nat, top: Version, k: nat, c: Copy)
    requires Fits(s) && PlainSet(u) && Tops(u, top) && Within(s, u) && Holds(s, w, top)
    requires k < |s.rs| && k != w && c in u && Lacks(c, top.etag) && ActsOn(s, events, w, k)
    requires s.rs[k] == c && (s.batches[w].Batch? && s.batches[w].heard.Some? && s.batches[w].heard.value.0 == k ==>
               s.batches[w].heard.value.1 == c)
    ensures Changes(s, events, k, c)
    decreases |events|
  {
    var e, t := events[0], Apply(s, events[0]);
    if e == Act(w, true) && Ready(s, w) && s.batches[w].heard.value.0 == k {
      ClassifyPlain(top, c);
      if c.Some? {
        UnlikeETagsAreOrdered(top, c.value);
      }
      assert t.rs[k] == Some(top) && Some(top) != c;
      assert Changes(t, events[1..], k, c);
    } else if t.rs[k] == c {
      ApplyStaysWithin(s, e, u);
      ApplyKeepsHolding(s, e, u, w, top);
      ContactChanges(t, events[1..], u, w, top, k, c);
    } else {
      assert Changes(t, events[1..], k, c);
    }
  }

  // ----- the lowest copies that change in a round only become fewer -----

  /** What a view of node `i` can be: its first copy, or something above `e` while the node is above `e`. */
  predicate ViewOk(s: State, first: Replicas, e: Copy, i: nat, view: Copy)
    requires i < |s.rs| == |first|
  {
    view == first[i] || (!Below(first[i], e) && Below(e, view) && Below(e, s.rs[i]))
  }

  /** Nodes below `e` are as at first; the others too, or above `e`; and so is all that was listed or heard. */
  ghost predicate Above(s: State, first: Replicas, e: Copy)
    requires Fits(s) && |s.rs| == |first|
  {
    && (forall i :: 0 <= i < |first| ==> s.rs[i] == first[i] || (!Below(first[i], e) && Below(e, s.rs[i])))
    && (forall i :: 0 <= i < |first| && s.batches[i].Batch? ==> ViewOk(s, first, e, i, Some(s.batches[i].listed)))
    && (forall i :: 0 <= i < |first| && s.batches[i].Batch? && s.batches[i].heard.Some? ==>
          s.batches[i].heard.value.0 < |first| && s.batches[i].heard.value.0 != i &&
          ViewOk(s, first, e, s.batches[i].heard.value.0, s.batches[i].heard.value.1))
  }

  lemma ViewAbove(s: State, first: Replicas, e: Copy, i: nat, view: Copy)
    requires i < |s.rs| == |first| && ViewOk(s, first, e, i, view) && Below(e, view)
    requires s.rs[i] == first[i] || (!Below(first[i], e) && Below(e, s.rs[i]))
    ensures Below(e, s.rs[i])
  {
  }

  lemma ViewNotBelow(s: State, first: Replicas, e: Copy, i: nat, view: Copy)
    requires i < |s.rs| == |first| && ViewOk(s, first, e, i, view) && !Below(first[i], e)
    ensures !Below(view, e)
  {
    BelowIsOrder(e, view, e);
  }

  /** What an action writes to a node that is not below `e` is above `e`. */
  lemma WritesAbove(s: State, first: Replicas, e: Copy, u: set<Copy>, x: nat, i: nat)
    requires Fits(s) && |s.rs| == |first| && Above(s, first, e) && PlainSet(u) && Within(s, u) && Ready(s, x)
    requires i < |first| && !Below(first[i], e) && Apply(s, Act(x, true)).rs[i] != s.rs[i]
    ensures Below(e, Apply(s, Act(x, true)).rs[i])
  {
    var l, p, h := s.batches[x].listed, s.batches[x].heard.value.0, s.batches[x].heard.value.1;
    ClassifyPlain(l, h);
    if Decision(s, x) == PushToPeer {
      assert i == p;
      ViewNotBelow(s, first, e, p, h);
      BelowIsOrder(h, Some(l), e);
      assert Below(e, Some(l));
      ViewAbove(s, first, e, x, Some(l));
    } else {
      assert i == x;
      ViewNotBelow(s, first, e, x, Some(l));
      BelowIsOrder(Some(l), h, e);
      assert Below(e, h);
      ViewAbove(s, first, e, p, h);
    }
  }

  /** Nobody asks itself. */
  predicate Heedful(s: State)
    requires Fits(s)
  {
    forall i :: 0 <= i < |s.rs| && s.batches[i].Batch? ==> i !in s.batches[i].todo
  }

  lemma LookingKeepsAbove(s: State, ev: Event, first: Replicas, e: Copy)
    requires Fits(s) && |s.rs| == |first| && Above(s, first, e) && Heedful(s) && !ev.Act?
    ensures Above(Apply(s, ev), first, e) && Heedful(Apply(s, ev)) && Apply(s, ev).rs == s.rs
  {
  }

  lemma ActingKeepsAbove(s: State, x: nat, first: Replicas, e: Copy, u: set<Copy>)
    requires Fits(s) && |s.rs| == |first| && Above(s, first, e) && PlainSet(u) && Within(s, u) && Heedful(s) && Ready(s, x)
    requires forall i :: 0 <= i < |first| && Below(first[i], e) ==> Apply(s, Act(x, true)).rs[i] == first[i]
    ensures Above(Apply(s, Act(x, true)), first, e) && Heedful(Apply(s, Act(x, true)))
    ensures forall i :: 0 <= i < |first| && !Below(first[i], e) ==>
            Apply(s, Act(x, true)).rs[i] == s.rs[i] || Below(e, Apply(s, Act(x, true)).rs[i])
  {
    var t := Apply(s, Act(x, true));
    forall i | 0 <= i < |first| && !Below(first[i], e)
      ensures t.rs[i] == s.rs[i] || Below(e, t.rs[i])
    {
      if t.rs[i] != s.rs[i] {
        WritesAbove(s, first, e, u, x, i);
      }
    }
  }

  /** A step keeps all that, as long as it leaves the nodes below `e` alone; above `e` is for good. */
  lemma ApplyKeepsAbove(s: State, ev: Event, first: Replicas, e: Copy, u: set<Copy>)
    requires Fits(s) && |s.rs| == |first| && Above(s, first, e) && PlainSet(u) && Within(s, u) && Heedful(s)
    requires forall i :: 0 <= i < |first| && Below(first[i], e) ==> Apply(s, ev).rs[i] == first[i]
    ensures Above(Apply(s, ev), first, e) && Heedful(Apply(s, ev))
    ensures forall i :: 0 <= i < |first| && Below(e, s.rs[i]) && !Below(first[i], e) ==> Below(e, Apply(s, ev).rs[i])
  {
    if !ev.Act? {
      LookingKeepsAbove(s, ev, first, e);
    } else if ev.done && Ready(s, ev.node) {
      ActingKeepsAbove(s, ev.node, first, e, u);
    }
  }

  lemma {:induction false} RunKeepsAbove(s: State, events: seq<Event>, first: Replicas, e: Copy, u: set<Copy>)
    requires Fits(s) && |s.rs| == |first| && Above(s, first, e) && PlainSet(u) && Within(s, u) && Heedful(s)
    requires forall i :: 0 <= i < |first| && Below(first[i], e) ==> !Changes(s, events, i, first[i])
    ensures Above(Exec(s, events), first, e)
    ensures forall i :: 0 <= i < |first| && !Below(first[i], e) && Changes(s, events, i, first[i]) ==> Below(e, Exec(s, events).rs[i])
    ensures forall i :: 0 <= i < |first| && !Below(first[i], e) && Below(e, s.rs[i]) ==> Below(e, Exec(s, events).rs[i])
    decreases |events|
  {
    if events != [] {
      var t := Apply(s, events[0]);
      forall i | 0 <= i < |first| && Below(first[i], e)
        ensures !Changes(t, events[1..], i, first[i]) && t.rs[i] == first[i]
      {
        assert !Changes(s, events, i, first[i]);
      }
      ApplyStaysWithin(s, events[0], u);
      ApplyKeepsAbove(s, events[0], first, e, u);
      RunKeepsAbove(t, events[1..], first, e, u);
    }
  }

  // ----- a weight that every full round lowers -----

  function Pow(b: nat, k: nat): (r: nat)
    ensures b >= 1 ==> r >= 1
  {
    if k == 0 then 1 else b * Pow(b, k - 1)
  }

  function Times(n: nat, q: nat): nat {
    if n == 0 then 0 else Times(n - 1, q) + q
  }

  lemma {:induction false} TimesIsProduct(n: nat, q: nat)
    ensures Times(n, q) == n * q
    decreases n
  {
    if n > 0 {
      TimesIsProduct(n - 1, q);
    }
  }

  /** The lower a copy, the heavier, by a factor of more than the number of nodes. */
  function Weight(n: nat, u: set<Copy>, c: Copy): nat {
    if Rank(u, c) <= |u| then Pow(n + 1, |u| - Rank(u, c)) else 0
  }

  function Load(n: nat, u: set<Copy>, rs: Replicas): nat {
    if rs == [] then 0 else Load(n, u, rs[..|rs| - 1]) + Weight(n, u, rs[|rs| - 1])
  }

  lemma {:induction false} PowGrows(b: nat, j: nat, k: nat)
    requires b >= 1 && j <= k
    ensures Pow(b, j) <= Pow(b, k)
    decreases k
  {
    if j < k {
      PowGrows(b, j, k - 1);
      TimesIsProduct(b, Pow(b, k - 1));
      AtLeastOnce(b, Pow(b, k - 1));
    }
  }

  lemma AtLeastOnce(b: nat, q: nat)
    requires b >= 1
    ensures q <= b * q
  {
  }

  /** A copy above `e` weighs at most an (n + 1)th of `e`. */
  lemma AboveIsLighter(n: nat, u: set<Copy>, e: Copy, c: Copy)
    requires e in u && c in u && Below(e, c)
    ensures Rank(u, e) < |u| && Weight(n, u, c) <= Pow(n + 1, |u| - Rank(u, e) - 1)
  {
    RankRises(u, e, c);
    RankBound(u, e);
    RankBound(u, c);
    PowGrows(n + 1, |u| - Rank(u, c), |u| - Rank(u, e) - 1);
  }

  lemma WeightOf(n: nat, u: set<Copy>, e: Copy)
    requires e in u
    ensures Rank(u, e) < |u| && Weight(n, u, e) == (n + 1) * Pow(n + 1, |u| - Rank(u, e) - 1)
  {
    RankBound(u, e);
  }

  /** Only copies not below `e` are replaced, by ones above it. */
  ghost predicate Lifts(rs: Replicas, rs': Replicas, u: set<Copy>, e: Copy) {
    && |rs| == |rs'| && (forall i :: 0 <= i < |rs| ==> rs[i] in u && rs'[i] in u)
    && forall i :: 0 <= i < |rs| ==> rs'[i] == rs[i] || Below(e, rs'[i])
  }

  lemma {:induction false} LoadUpTo(n: nat, u: set<Copy>, rs: Replicas, rs': Replicas, e: Copy, i0: nat, j: nat)
    requires Lifts(rs, rs', u, e) && e in u && i0 < |rs| && rs[i0] == e && Below(e, rs'[i0]) && j <= |rs|
    ensures Rank(u, e) < |u|
    ensures var q := Pow(n + 1, |u| - Rank(u, e) - 1);
            Load(n, u, rs'[..j]) + (if i0 < j then (n + 1) * q else 0) <= Load(n, u, rs[..j]) + Times(j, q)
    decreases j
  {
    RankBound(u, e);
    if j > 0 {
      LoadUpTo(n, u, rs, rs', e, i0, j - 1);
      assert rs[..j][..j - 1] == rs[..j - 1] && rs'[..j][..j - 1] == rs'[..j - 1];
      if rs'[j - 1] != rs[j - 1] {
        AboveIsLighter(n, u, e, rs'[j - 1]);
      }
      if i0 == j - 1 {
        AboveIsLighter(n, u, e, rs'[i0]);
        WeightOf(n, u, e);
      }
    }
  }

  lemma LoadDrops(u: set<Copy>, rs: Replicas, rs': Replicas, e: Copy, i0: nat)
    requires Lifts(rs, rs', u, e) && e in u && i0 < |rs| && rs[i0] == e && Below(e, rs'[i0])
    ensures Load(|rs|, u, rs') < Load(|rs|, u, rs)
  {
    var n := |rs|;
    LoadUpTo(n, u, rs, rs', e, i0, n);
    var q := Pow(n + 1, |u| - Rank(u, e) - 1);
    TimesIsProduct(n, q);
    OneMoreTimes(n, q);
    assert rs[..n] == rs && rs'[..n] == rs';
  }

  lemma {:induction false} LoadBound(n: nat, u: set<Copy>, rs: Replicas, k: nat)
    requires |u| <= k && forall i :: 0 <= i < |rs| ==> rs[i] in u
    ensures Load(n, u, rs) <= Times(|rs|, Pow(n + 1, k))
    decreases |rs|
  {
    if rs != [] {
      LoadBound(n, u, rs[..|rs| - 1], k);
      PowGrows(n + 1, |u| - Rank(u, rs[|rs| - 1]), k) by { RankBound(u, rs[|rs| - 1]); }
    }
  }

  lemma {:induction false} LowestChanging(rs: Replicas, events: seq<Event>, n: nat) returns (i: nat)
    requires n <= |rs| && exists j :: 0 <= j < n && Changes(Idle(rs), events, j, rs[j])
    ensures i < n && Changes(Idle(rs), events, i, rs[i])
    ensures forall j :: 0 <= j < n && Below(rs[j], rs[i]) ==> !Changes(Idle(rs), events, j, rs[j])
    decreases n
  {
    if exists j :: 0 <= j < n - 1 && Changes(Idle(rs), events, j, rs[j]) {
      i := LowestChanging(rs, events, n - 1);
      if Changes(Idle(rs), events, n - 1, rs[n - 1]) && Below(rs[n - 1], rs[i]) {
        forall j | 0 <= j < n && Below(rs[j], rs[n - 1]) ensures !Changes(Idle(rs), events, j, rs[j]) {
          BelowIsOrder(rs[j], rs[n - 1], rs[i]);
          BelowIsOrder(rs[j], rs[j], rs[j]);
        }
        i := n - 1;
      }
    } else {
      i := n - 1;
      BelowIsOrder(rs[i], rs[i], rs[i]);
    }
  }

  /** Nodes, versions and winner of a cluster between two rounds. */
  predicate Between(rs: Replicas, u: set<Copy>, w: nat, top: Version) {
    && PlainSet(u) && Tops(u, top) && w < |rs| && rs[w] == Some(top)
    && forall i :: 0 <= i < |rs| ==> rs[i] in u
  }

  lemma RoundStays(rs: Replicas, events: seq<Event>, u: set<Copy>, w: nat, top: Version)
    requires Between(rs, u, w, top)
    ensures Between(Exec(Idle(rs), events).rs, u, w, top)
  {
    RunKeepsHolding(Idle(rs), events, u, w, top);
  }

  /** Every full round lowers the weight, until all nodes have the winner's ETag. */
  lemma RoundGains(rs: Replicas, events: seq<Event>, u: set<Copy>, w: nat, top: Version)
    requires Between(rs, u, w, top) && FullRound(rs, events) && !HasETag(rs, top.etag)
    ensures Load(|rs|, u, Exec(Idle(rs), events).rs) < Load(|rs|, u, rs)
  {
    var s := Idle(rs);
    var k :| 0 <= k < |rs| && Lacks(rs[k], top.etag);
    assert ActsOn(s, events, w, k);
    ContactChanges(s, events, u, w, top, k, rs[k]);
    var i := LowestChanging(rs, events, |rs|);
    var e := rs[i];
    BelowIsOrder(e, e, e);
    RunKeepsAbove(s, events, rs, e, u);
    RoundStays(rs, events, u, w, top);
    LoadDrops(u, rs, Exec(s, events).rs, e, i);
  }

  lemma {:induction false} AgreedStays(s: State, events: seq<Event>, etag: string)
    requires Fits(s) && HasETag(s.rs, etag) && !IsMultipartETag(etag)
    requires forall i :: 0 <= i < |s.rs| && s.batches[i].Batch? ==> s.batches[i].listed.etag == etag
    requires forall i :: 0 <= i < |s.rs| && s.batches[i].Batch? && s.batches[i].heard.Some? ==> !Lacks(s.batches[i].heard.value.1, etag)
    ensures Exec(s, events).rs == s.rs
    decreases |events|
  {
    if events != [] {
      AgreedStays(Apply(s, events[0]), events[1..], etag);
    }
  }

  function Rounds(rs: Replicas, rounds: seq<seq<Event>>): Replicas
    decreases |rounds|
  {
    if rounds == [] then rs else Rounds(Exec(Idle(rs), rounds[0]).rs, rounds[1..])
  }

  ghost predicate FullRounds(rs: Replicas, rounds: seq<seq<Event>>)
    decreases |rounds|
  {
    rounds == [] || (FullRound(rs, rounds[0]) && FullRounds(Exec(Idle(rs), rounds[0]).rs, rounds[1..]))
  }

  lemma {:induction false} RoundsGain(rs: Replicas, rounds: seq<seq<Event>>, u: set<Copy>, w: nat, top: Version)
    requires Between(rs, u, w, top) && FullRounds(rs, rounds)
    ensures HasETag(Rounds(rs, rounds), top.etag) || Load(|rs|, u, Rounds(rs, rounds)) + |rounds| <= Load(|rs|, u, rs)
    decreases |rounds|
  {
    if rounds != [] {
      var rs' := Exec(Idle(rs), rounds[0]).rs;
      RoundStays(rs, rounds[0], u, w, top);
      RoundsGain(rs', rounds[1..], u, w, top);
      if HasETag(rs, top.etag) {
        assert Some(top) in u;
        AgreedStays(Idle(rs), rounds[0], top.etag);
        AgreedRounds(rs, rounds[1..], top.etag);
      } else {
        RoundGains(rs, rounds[0], u, w, top);
      }
    }
  }

  lemma {:induction false} AgreedRounds(rs: Replicas, rounds: seq<seq<Event>>, etag: string)
    requires HasETag(rs, etag) && !IsMultipartETag(etag)
    ensures Rounds(rs, rounds) == rs
    decreases |rounds|
  {
    if rounds != [] {
      AgreedStays(Idle(rs), rounds[0], etag);
      AgreedRounds(rs, rounds[1..], etag);
    }
  }

  /**
   * If the nodes wait for each other between pages, then whatever happens within a page, more than
   * n * (n + 1)^n full rounds of n nodes end with every node on the winner's ETag.
   */
  lemma RoundsConverge(rs: Replicas, rounds: seq<seq<Event>>, w: nat)
    requires Plain(rs) && Wins(rs, w) && rs[w].Some? && FullRounds(rs, rounds)
    requires |rounds| > |rs| * Pow(|rs| + 1, |rs|)
    ensures HasETag(Rounds(rs, rounds), rs[w].value.etag)
  {
    var n, u := |rs|, CopiesOf(rs);
    IdleFacts(rs, w);
    RoundsGain(rs, rounds, u, w, rs[w].value);
    CopiesBound(rs);
    LoadBound(n, u, rs, n);
    TimesIsProduct(n, Pow(n + 1, n));
  }

  // ----- without rounds there is no bound -----

  /** Some run leads from one state to the other and changes copies at least `k` times. */
  ghost predicate Reaches(s: State, t: State, k: nat)
    requires Fits(s)
  {
    exists events :: Exec(s, events) == t && Acts(s, events) >= k
  }

  lemma ReachesJoin(s: State, t: State, u: State, j: nat, k: nat)
    requires Fits(s) && Reaches(s, t, j) && Fits(t) && Reaches(t, u, k)
    ensures Reaches(s, u, j + k)
  {
    var a :| Exec(s, a) == t && Acts(s, a) >= j;
    var b :| Exec(t, b) == u && Acts(t, b) >= k;
    ExecJoin(s, a, b);
    assert Exec(s, a + b) == u;
  }

  lemma StepReaches(s: State, e: Event, k: nat)
    requires Fits(s) && (k == 0 || (k == 1 && Apply(s, e).rs != s.rs))
    ensures Reaches(s, Apply(s, e), k)
  {
    assert [e][1..] == [];
    assert Exec(Apply(s, e), []) == Apply(s, e);
    assert Exec(s, [e]) == Apply(s, e) && Acts(s, [e]) >= k;
  }

  /** A node starts a page and asks one peer. */
  lemma AskReaches(s: State, x: nat, p: nat) returns (t: State)
    requires Fits(s) && x < |s.rs| && p < |s.rs| && p != x && s.rs[x].Some?
    ensures Reaches(s, t, 0) && t == State(s.rs, s.batches[x := Batch(s.rs[x].value, {}, Some((p, s.rs[p])))])
  {
    t := Asked(s, x, p);
    AskedFacts(s, x, p);
    StepReaches(s, List(x, {p}), 0);
    StepReaches(Apply(s, List(x, {p})), Fetch(x, p), 0);
    ReachesJoin(s, Apply(s, List(x, {p})), t, 0, 0);
  }

  /** Node 0 repairs node `x`. */
  lemma RaiseReaches(s: State, x: nat) returns (t: State)
    requires Fits(s) && 0 < x < |s.rs| && s.rs[0] == Some(V3) && (s.rs[x] == Some(V2) || s.rs[x] == Some(V1))
    ensures Reaches(s, t, 1) && Fits(t) && t.rs == s.rs[x := Some(V3)]
    ensures forall i :: 0 < i < |s.rs| ==> t.batches[i] == s.batches[i]
  {
    PlainVersions();
    var asked := AskReaches(s, 0, x);
    ActPushes(asked, 0, V3, x, s.rs[x].value);
    t := Apply(asked, Act(0, true));
    StepReaches(asked, Act(0, true), 1);
    ReachesJoin(s, asked, t, 0, 1);
  }

  /** A node that listed version `l` and heard `h` pulls what the peer holds. */
  lemma PullReaches(s: State, x: nat, l: Version, p: nat, h: Version) returns (t: State)
    requires Fits(s) && x < |s.rs| && p < |s.rs| && s.batches[x] == Batch(l, {}, Some((p, Some(h)))) && s.rs[p].Some?
    requires !IsMultipartETag(l.etag) && !IsMultipartETag(h.etag) && l.etag != h.etag && Below(Some(l), Some(h))
    requires s.rs[x] != s.rs[p]
    ensures Reaches(s, t, 1) && t == State(s.rs[x := s.rs[p]], s.batches[x := Batch(l, {}, None)])
  {
    ActPulls(s, x, l, p, h);
    t := Apply(s, Act(x, true));
    StepReaches(s, Act(x, true), 1);
  }

  /**
   * Node `a` holds version 2 and is about to pull from `b`, which it heard to have 3; node `b` has 3
   * and is about to do the same with `a`, because it too listed version 2.
   */
  predicate Crossed(s: State, a: nat, b: nat) {
    && Fits(s) && |s.rs| >= 3 && 0 < a < 3 && 0 < b < 3 && a != b
    && s.rs[0] == Some(V3) && s.rs[a] == Some(V2) && s.rs[b] == Some(V3)
    && s.batches[a] == Batch(V2, {}, Some((b, Some(V3)))) && s.batches[b] == Batch(V2, {}, Some((a, Some(V3))))
  }

  /** `b` pulls, node 0 repairs `a`, `b` starts a new page: the two have changed places. */
  lemma CrossedAgain(s: State, a: nat, b: nat) returns (t: State)
    requires Crossed(s, a, b)
    ensures Crossed(t, b, a) && Reaches(s, t, 2)
  {
    PlainVersions();
    var s1 := PullReaches(s, b, V2, a, V3);
    var s2 := RaiseReaches(s1, a);
    ReachesJoin(s, s1, s2, 1, 1);
    t := AskReaches(s2, b, a);
    ReachesJoin(s, s2, t, 2, 0);
  }

  lemma {:induction false} CrossedForEver(s: State, a: nat, b: nat, k: nat) returns (t: State)
    requires Crossed(s, a, b)
    ensures Fits(t) && Reaches(s, t, 2 * k)
    decreases k
  {
    if k == 0 {
      t := s;
      assert Exec(s, []) == s;
    } else {
      var u := CrossedAgain(s, a, b);
      t := CrossedForEver(u, b, a, k - 1);
      ReachesJoin(s, u, t, 2, 2 * (k - 1));
    }
  }

  /** Node 2 lists version 1 and hears 2, is repaired, and pulls 2 all the same; node 1 has heard it repaired. */
  lemma Infect(s: State) returns (t: State)
    requires Fits(s) && |s.rs| >= 3 && s.rs[0] == Some(V3) && s.rs[1] == Some(V2) && s.rs[2] == Some(V1)
    ensures Fits(t) && Reaches(s, t, 0) && t.rs == s.rs[2 := Some(V2)]
    ensures t.batches[1] == Batch(V2, {}, Some((2, Some(V3))))
  {
    PlainVersions();
    var s1 := AskReaches(s, 2, 1);
    var s2 := RaiseReaches(s1, 2);
    ReachesJoin(s, s1, s2, 0, 1);
    var s3 := AskReaches(s2, 1, 2);
    ReachesJoin(s, s2, s3, 1, 0);
    t := PullReaches(s3, 2, V1, 1, V2);
    ReachesJoin(s, s3, t, 1, 1);
    AtLeast(s, t, 2);
  }

  lemma AtLeast(s: State, t: State, k: nat)
    requires Fits(s) && Reaches(s, t, k)
    ensures Reaches(s, t, 0)
  {
  }

  /** Nodes 1 and 2 hold version 2. */
  predicate BothTwo(s: State) {
    Fits(s) && |s.rs| >= 3 && s.rs[0] == Some(V3) && s.rs[1] == Some(V2) && s.rs[2] == Some(V2)
  }

  /** Node 1 is repaired, node 2 hears that, and node 1 pulls version 2 from node 2. */
  lemma HearAndFallBack(s: State) returns (t: State)
    requires BothTwo(s) && s.batches[1] == Batch(V2, {}, Some((2, Some(V3))))
    ensures BothTwo(t) && t.batches[2] == Batch(V2, {}, Some((1, Some(V3)))) && Reaches(s, t, 0)
  {
    PlainVersions();
    var s1 := RaiseReaches(s, 1);
    var s2 := AskReaches(s1, 2, 1);
    ReachesJoin(s, s1, s2, 1, 0);
    t := PullReaches(s2, 1, V2, 2, V3);
    ReachesJoin(s, s2, t, 1, 1);
    AtLeast(s, t, 2);
  }

  /** Node 2 is repaired, and node 1 hears that. */
  lemma Cross(s: State) returns (t: State)
    requires BothTwo(s) && s.batches[2] == Batch(V2, {}, Some((1, Some(V3))))
    ensures Crossed(t, 1, 2) && Reaches(s, t, 0)
  {
    var s1 := RaiseReaches(s, 2);
    t := AskReaches(s1, 1, 2);
    ReachesJoin(s, s1, t, 1, 0);
    AtLeast(s, t, 1);
  }

  /** One node with each of the versions 3, 2 and 1, and all others with 3. */
  function ThreeVersions(n: nat): Replicas
    requires n >= 3
  {
    [Some(V3), Some(V2), Some(V1)] + seq(n - 3, _ => Some(V3))
  }

  lemma ThreeVersionsFacts(n: nat)
    requires n >= 3
    ensures Plain(ThreeVersions(n)) && |ThreeVersions(n)| == n
    ensures ThreeVersions(n)[0] == Some(V3) && ThreeVersions(n)[1] == Some(V2) && ThreeVersions(n)[2] == Some(V1)
  {
    PlainVersions();
  }

  lemma ReachCrossed(s: State) returns (t: State)
    requires Fits(s) && |s.rs| >= 3 && s.rs[0] == Some(V3) && s.rs[1] == Some(V2) && s.rs[2] == Some(V1)
    ensures Crossed(t, 1, 2) && Reaches(s, t, 0)
  {
    var s1 := Infect(s);
    var s2 := HearAndFallBack(s1);
    ReachesJoin(s, s1, s2, 0, 0);
    t := Cross(s2);
    ReachesJoin(s, s2, t, 0, 0);
  }

  lemma NeverSettlesFrom(s: State, k: nat) returns (events: seq<Event>)
    requires Fits(s) && |s.rs| >= 3 && s.rs[0] == Some(V3) && s.rs[1] == Some(V2) && s.rs[2] == Some(V1)
    ensures Acts(s, events) >= 2 * k
  {
    var crossed := ReachCrossed(s);
    var t := CrossedForEver(crossed, 1, 2, k);
    ReachesJoin(s, crossed, t, 0, 2 * k);
    events :| Exec(s, events) == t && Acts(s, events) >= 2 * k;
  }

  /** Three nodes can go on repairing each other for ever, the winner's node scrubbing all the time. */
  lemma NeverSettles(n: nat, k: nat) returns (events: seq<Event>)
    requires n >= 3
    ensures Plain(ThreeVersions(n)) && Acts(Idle(ThreeVersions(n)), events) >= 2 * k
  {
    ThreeVersionsFacts(n);
    events := NeverSettlesFrom(Idle(ThreeVersions(n)), k);
  }

  // ----- with two nodes there is -----

  predicate AllHave(rs: Replicas, top: Version) {
    forall i :: 0 <= i < |rs| ==> rs[i] == Some(top)
  }

  lemma TransferOnTwo(rs: Replicas, x: nat, p: nat, action: Action, w: nat, top: Version)
    requires |rs| <= 2 && x < |rs| && p < |rs| && w < |rs| && rs[w] == Some(top) && Transfer(rs, x, p, action)[w] == Some(top)
    ensures Transfer(rs, x, p, action) == rs || AllHave(Transfer(rs, x, p, action), top)
  {
  }

  lemma {:induction false} OneActIsEnough(s: State, events: seq<Event>, u: set<Copy>, w: nat, top: Version)
    requires Fits(s) && |s.rs| <= 2 && PlainSet(u) && Tops(u, top) && Within(s, u) && Holds(s, w, top)
    ensures Acts(s, events) <= if AllHave(s.rs, top) then 0 else 1
    decreases |events|
  {
    if events != [] {
      var e, t := events[0], Apply(s, events[0]);
      ApplyStaysWithin(s, e, u);
      ApplyKeepsHolding(s, e, u, w, top);
      OneActIsEnough(t, events[1..], u, w, top);
      if e.Act? && e.done && Ready(s, e.node) {
        TransferOnTwo(s.rs, e.node, s.batches[e.node].heard.value.0, Decision(s, e.node), w, top);
      }
      assert t.rs == s.rs || AllHave(t.rs, top);
    }
  }

  lemma {:induction false} SomeoneWins(rs: Replicas) returns (w: nat)
    requires rs != []
    ensures Wins(rs, w)
    decreases |rs|
  {
    BelowIsOrder(rs[|rs| - 1], rs[|rs| - 1], rs[|rs| - 1]);
    w := |rs| - 1;
    if |rs| > 1 {
      var v := SomeoneWins(rs[..|rs| - 1]);
      if Below(rs[v], rs[w]) {
        forall i | 0 <= i < |rs| ensures !Below(rs[w], rs[i]) {
          BelowIsOrder(rs[v], rs[w], rs[i]);
        }
      } else {
        w := v;
      }
    }
  }

  lemma FewOnTwoNodes(rs: Replicas, events: seq<Event>)
    requires Plain(rs) && |rs| <= 2
    ensures Acts(Idle(rs), events) <= 1
  {
    if rs == [] {
      NothingStays(Idle(rs), events);
    } else {
      var w := SomeoneWins(rs);
      if rs[w].Some? {
        IdleFacts(rs, w);
        OneActIsEnough(Idle(rs), events, CopiesOf(rs), w, rs[w].value);
      } else {
        forall i | 0 <= i < |rs| ensures rs[i].None? {
          assert !Below(rs[w], rs[i]);
        }
        NothingStays(Idle(rs), events);
      }
    }
  }

  ghost predicate ActsAtMost(n: nat, bound: nat) {
    forall rs: Replicas, events: seq<Event> :: |rs| == n && Plain(rs) ==> Acts(Idle(rs), events) <= bound
  }

  /** Some number bounds the actions in all runs of n nodes exactly when there are at most two. */
  lemma BoundedExactly(n: nat)
    ensures (exists bound: nat :: ActsAtMost(n, bound)) <==> n <= 2
  {
    if n <= 2 {
      forall rs: Replicas, events: seq<Event> | |rs| == n && Plain(rs) ensures Acts(Idle(rs), events) <= 1 {
        FewOnTwoNodes(rs, events);
      }
      assert ActsAtMost(n, 1);
    } else {
      forall bound: nat ensures !ActsAtMost(n, bound) {
        var events := NeverSettles(n, bound + 1);
        assert Acts(Idle(ThreeVersions(n)), events) > bound;
      }
    }
  }
}
