// internal/cluster/ha_sync_worker.go: runSync, the initial copy of every object to a
// new replica, with a checkpoint at every 100th success and resumption after crashes.
module SyncCopy {
  import opened Listing

  const PAGE_SIZE: nat := 500
  const CHECKPOINT_EVERY: nat := 100

  /** The bucket paths in listing order, and what each bucket holds. */
  datatype World = World(order: seq<string>, contents: map<string, seq<Entry>>)

  predicate Proper(w: World) {
    && (forall b :: 0 <= b < |w.order| ==> w.order[b] != "" && w.order[b] in w.contents)
    && (forall p :: p in w.contents ==> Ordered(w.contents[p]))
  }

  function Entries(w: World, b: nat): seq<Entry>
    requires Proper(w) && b < |w.order|
  {
    w.contents[w.order[b]]
  }

  /** The first bucket with this path; bucket 0 when there is none. */
  function FindBucket(order: seq<string>, path: string): (r: nat)
    ensures path in order ==> r < |order| && order[r] == path && path !in order[..r]
    ensures path !in order ==> r == 0
  {
    if path !in order then 0
    else if order[0] == path then 0
    else
      assert order == [order[0]] + order[1..];
      var r := 1 + FindBucket(order[1..], path);
      assert order[..r] == [order[0]] + order[1..][..r - 1];
      r
  }

  // ----- the job as a state machine -----

  datatype Pc = Copying | Cleared | Done

  /** `bucket`, `pos`: the next entry; `ckBucket`, `ckKey`: the job row; `attempted`: what was sent. */
  datatype State = State(
    pc: Pc, bucket: nat, pos: nat, synced: nat, ckBucket: string, ckKey: string, attempted: set<(string, nat)>)

  /**
   * One action, the transfer and a due write of the job row each succeeding or not; a listing that
   * fails, which gives up the bucket; or a restart.
   */
  datatype Event = Advance(sent: bool, stored: bool) | ListFails | Restart

  function StartBucket(w: World, s: State): nat {
    if s.ckBucket == "" then 0 else FindBucket(w.order, s.ckBucket)
  }

  function Boot(w: World, s: State): State
    requires Proper(w)
  {
    var b := StartBucket(w, s);
    s.(pc := Copying, bucket := b, synced := 0,
       pos := if s.ckKey != "" && b < |w.order| then Position(Entries(w, b), s.ckKey) else 0)
  }

  function Init(): State {
    State(Copying, 0, 0, 0, "", "", {})
  }

  function Attempt(w: World, s: State, sent: bool, stored: bool): State
    requires Proper(w) && s.bucket < |w.order| && s.pos < |Entries(w, s.bucket)|
  {
    var path, key := w.order[s.bucket], Entries(w, s.bucket)[s.pos].key;
    var n := if sent then s.synced + 1 else s.synced;
    var mark := sent && n % CHECKPOINT_EVERY == 0 && stored;
    s.(pos := s.pos + 1, synced := n, attempted := s.attempted + {(path, s.pos)},
       ckBucket := if mark then path else s.ckBucket, ckKey := if mark then key else s.ckKey)
  }

  function Apply(w: World, s: State, e: Event): State
    requires Proper(w)
  {
    if s.pc == Done then s
    else if e.Restart? then Boot(w, s)
    else if e.ListFails? then if s.pc == Copying && s.bucket < |w.order| then s.(bucket := s.bucket + 1, pos := 0) else s
    else if s.pc == Cleared then s.(pc := if e.stored then Done else Cleared)
    else if s.bucket >= |w.order| then
      s.(pc := Cleared, ckBucket := if e.stored then "" else s.ckBucket, ckKey := if e.stored then "" else s.ckKey)
    else if s.pos >= |Entries(w, s.bucket)| then s.(bucket := s.bucket + 1, pos := 0)
    else if !Entries(w, s.bucket)[s.pos].visible then s.(pos := s.pos + 1)
    else Attempt(w, s, e.sent, e.stored)
  }

  function Exec(w: World, s: State, events: seq<Event>): State
    requires Proper(w)
    decreases |events|
  {
    if events == [] then s else Exec(w, Apply(w, s, events[0]), events[1..])
  }

  lemma {:induction false} ExecOneMore(w: World, s: State, events: seq<Event>, e: Event)
    requires Proper(w)
    ensures Exec(w, s, events + [e]) == Apply(w, Exec(w, s, events), e)
    decreases |events|
  {
    if events == [] {
      assert [e][1..] == [] && events + [e] == [e];
    } else {
      assert (events + [e])[1..] == events[1..] + [e];
      ExecOneMore(w, Apply(w, s, events[0]), events[1..], e);
    }
  }

  // ----- what every run keeps -----

  predicate IsObject(w: World, b: nat, i: nat)
    requires Proper(w)
  {
    b < |w.order| && i < |Entries(w, b)| && Entries(w, b)[i].visible
  }

  /** What the job has still to send of the bucket it is in. */
  function Behind(w: World, s: State): set<(string, nat)>
    requires Proper(w)
  {
    if s.pc != Copying || s.bucket >= |w.order| then {}
    else set j | s.pos <= j < |Entries(w, s.bucket)| && Entries(w, s.bucket)[j].visible :: (w.order[s.bucket], j)
  }

  function PassedAfter(w: World, s: State, passed: set<(string, nat)>, e: Event): set<(string, nat)>
    requires Proper(w)
  {
    if e.ListFails? then passed + Behind(w, s) else passed
  }

  /** The objects that some failed listing of the run passed over. */
  function Passed(w: World, s: State, passed: set<(string, nat)>, events: seq<Event>): set<(string, nat)>
    requires Proper(w)
    decreases |events|
  {
    if events == [] then passed else Passed(w, Apply(w, s, events[0]), PassedAfter(w, s, passed, events[0]), events[1..])
  }

  predicate Before(b: nat, i: nat, c: nat, j: nat) {
    b < c || (b == c && i < j)
  }

  /** Every object before position (b, i) is in the set. */
  ghost predicate HasAllBefore(w: World, done: set<(string, nat)>, b: nat, i: nat)
    requires Proper(w)
  {
    forall c: nat, j: nat :: IsObject(w, c, j) && Before(c, j, b, i) ==> (w.order[c], j) in done
  }

  /** What lies before the job, and before the place it would restart from, was attempted or passed over. */
  ghost predicate Inv(w: World, s: State, passed: set<(string, nat)>)
    requires Proper(w)
  {
    && HasAllBefore(w, s.attempted + passed, s.bucket, s.pos)
    && (s.pc != Copying ==> s.bucket >= |w.order|)
    && HasAllBefore(w, s.attempted + passed, Boot(w, s).bucket, Boot(w, s).pos)
    && (s.ckBucket == "" ==> s.ckKey == "")
  }

  /** A checkpoint written at the entry just sent is a sound place to restart. */
  lemma CheckpointIsSound(w: World, s: State, passed: set<(string, nat)>, e: Event)
    requires Proper(w) && Inv(w, s, passed) && e.Advance?
    requires s.pc == Copying && s.bucket < |w.order| && s.pos < |Entries(w, s.bucket)|
    requires Entries(w, s.bucket)[s.pos].visible
    ensures Inv(w, Attempt(w, s, e.sent, e.stored), passed)
  {
    var t := Attempt(w, s, e.sent, e.stored);
    assert HasAllBefore(w, t.attempted + passed, t.bucket, t.pos);
    if t.ckBucket != s.ckBucket || t.ckKey != s.ckKey {
      PositionAfterKey(Entries(w, s.bucket), s.pos);
      var first := FindBucket(w.order, w.order[s.bucket]);
      assert first <= s.bucket;
    }
  }

  lemma FailedListingIsSound(w: World, s: State, passed: set<(string, nat)>)
    requires Proper(w) && Inv(w, s, passed)
    ensures Inv(w, Apply(w, s, ListFails), PassedAfter(w, s, passed, ListFails))
  {
    var t, after := Apply(w, s, ListFails), PassedAfter(w, s, passed, ListFails);
    assert s.attempted + passed <= t.attempted + after;
    assert Boot(w, t).bucket == Boot(w, s).bucket && Boot(w, t).pos == Boot(w, s).pos;
    if s.pc == Copying && s.bucket < |w.order| {
      forall c: nat, j: nat | IsObject(w, c, j) && Before(c, j, t.bucket, t.pos) ensures (w.order[c], j) in t.attempted + after {
        if !Before(c, j, s.bucket, s.pos) {
          assert (w.order[c], j) in Behind(w, s);
        }
      }
    }
  }

  lemma ApplyKeepsInv(w: World, s: State, passed: set<(string, nat)>, e: Event)
    requires Proper(w) && Inv(w, s, passed)
    ensures Inv(w, Apply(w, s, e), PassedAfter(w, s, passed, e))
  {
    if e.ListFails? {
      FailedListingIsSound(w, s, passed);
    } else if s.pc == Copying && e.Advance? && s.bucket < |w.order| && s.pos < |Entries(w, s.bucket)| &&
              Entries(w, s.bucket)[s.pos].visible {
      CheckpointIsSound(w, s, passed, e);
    }
  }

  lemma {:induction false} RunKeepsInv(w: World, s: State, passed: set<(string, nat)>, events: seq<Event>)
    requires Proper(w) && Inv(w, s, passed)
    ensures Inv(w, Exec(w, s, events), Passed(w, s, passed, events))
    decreases |events|
  {
    if events != [] {
      ApplyKeepsInv(w, s, passed, events[0]);
      RunKeepsInv(w, Apply(w, s, events[0]), PassedAfter(w, s, passed, events[0]), events[1..]);
    }
  }

  /** Every object of every bucket was sent to the new replica at least once. */
  ghost predicate AllAttempted(w: World, s: State)
    requires Proper(w)
  {
    forall b: nat, i: nat :: IsObject(w, b, i) ==> (w.order[b], i) in s.attempted
  }

  ghost predicate OnlyObjects(w: World, passed: set<(string, nat)>)
    requires Proper(w)
  {
    forall p :: p in passed ==> exists b: nat :: IsObject(w, b, p.1) && w.order[b] == p.0
  }

  lemma {:induction false} PassedAreObjects(w: World, s: State, passed: set<(string, nat)>, events: seq<Event>)
    requires Proper(w) && OnlyObjects(w, passed)
    ensures OnlyObjects(w, Passed(w, s, passed, events))
    decreases |events|
  {
    if events != [] {
      var e := events[0];
      forall p | p in PassedAfter(w, s, passed, e) && p !in passed ensures exists b: nat :: IsObject(w, b, p.1) && w.order[b] == p.0 {
        assert IsObject(w, s.bucket, p.1);
      }
      PassedAreObjects(w, Apply(w, s, e), PassedAfter(w, s, passed, e), events[1..]);
    }
  }

  /**
   * Over any crashes, a job recorded as done, or at its final writes, has attempted every object of
   * every bucket exactly when it attempted, before or after, what each failed listing passed over.
   */
  lemma DoneJobAttemptedEverything(w: World, events: seq<Event>)
    requires Proper(w) && Exec(w, Init(), events).pc != Copying
    ensures var s := Exec(w, Init(), events); AllAttempted(w, s) <==> Passed(w, Init(), {}, events) <= s.attempted
  {
    RunKeepsInv(w, Init(), {}, events);
    PassedAreObjects(w, Init(), {}, events);
    var s, passed := Exec(w, Init(), events), Passed(w, Init(), {}, events);
    if passed <= s.attempted {
      assert s.attempted + passed == s.attempted;
    }
  }

  lemma {:induction false} NothingPassed(w: World, s: State, events: seq<Event>)
    requires Proper(w) && forall k :: 0 <= k < |events| ==> !events[k].ListFails?
    ensures Passed(w, s, {}, events) == {}
    decreases |events|
  {
    if events != [] {
      NothingPassed(w, Apply(w, s, events[0]), events[1..]);
    }
  }

  /** Every action of a copying job gets it further, whatever fails, until there is no bucket left; then it ends. */
  lemma NeverStalls(w: World, s: State, e: Event)
    requires Proper(w) && s.pc == Copying && !e.Restart?
    ensures var t := Apply(w, s, e);
            if s.bucket < |w.order| then t.pc == Copying && Before(s.bucket, s.pos, t.bucket, t.pos)
            else if e.ListFails? then t == s else t.pc == Cleared && t.attempted == s.attempted
  {
  }

  /** A job that cleared its checkpoint and could not record its end starts all over; if not even that, from its last checkpoint. */
  lemma UnrecordedStartsOver(w: World, s: State, cleared: bool)
    requires Proper(w) && s.pc == Copying && s.bucket >= |w.order|
    ensures var t := Apply(w, Apply(w, s, Advance(true, cleared)), Advance(true, false));
            && t.pc != Done
            && (cleared ==> Boot(w, t).bucket == 0 && Boot(w, t).pos == 0)
            && (!cleared ==> Boot(w, t).bucket == Boot(w, s).bucket && Boot(w, t).pos == Boot(w, s).pos)
  {
  }

  // ----- one life of the process -----

  predicate Distinct(w: World) {
    forall b, c :: 0 <= b < c < |w.order| ==> w.order[b] != w.order[c]
  }

  /** What was attempted or passed over lies before the job, and nothing was both. */
  ghost predicate Forward(w: World, s: State, passed: set<(string, nat)>)
    requires Proper(w)
  {
    && s.attempted !! passed
    && forall c: nat, j: nat :: c < |w.order| && (w.order[c], j) in s.attempted + passed ==> Before(c, j, s.bucket, s.pos)
  }

  lemma ForwardStep(w: World, s: State, passed: set<(string, nat)>, e: Event)
    requires Proper(w) && Distinct(w) && Forward(w, s, passed) && !e.Restart?
    ensures Forward(w, Apply(w, s, e), PassedAfter(w, s, passed, e))
  {
    var t, after := Apply(w, s, e), PassedAfter(w, s, passed, e);
    if e.ListFails? {
      forall p | p in Behind(w, s) ensures p !in s.attempted {
        assert p == (w.order[s.bucket], p.1);
      }
    }
  }

  lemma {:induction false} ForwardRun(w: World, s: State, passed: set<(string, nat)>, events: seq<Event>)
    requires Proper(w) && Distinct(w) && Forward(w, s, passed) && forall k :: 0 <= k < |events| ==> !events[k].Restart?
    ensures Forward(w, Exec(w, s, events), Passed(w, s, passed, events))
    decreases |events|
  {
    if events != [] {
      ForwardStep(w, s, passed, events[0]);
      ForwardRun(w, Apply(w, s, events[0]), PassedAfter(w, s, passed, events[0]), events[1..]);
    }
  }

  /**
   * A job that is done in one life has attempted everything exactly when no failed listing had an
   * object behind it: nothing goes back for the bucket, and the job is recorded as done all the same.
   */
  lemma OneLifeExactly(w: World, events: seq<Event>)
    requires Proper(w) && Distinct(w) && Exec(w, Init(), events).pc != Copying
    requires forall k :: 0 <= k < |events| ==> !events[k].Restart?
    ensures AllAttempted(w, Exec(w, Init(), events)) <==> Passed(w, Init(), {}, events) == {}
  {
    DoneJobAttemptedEverything(w, events);
    ForwardRun(w, Init(), {}, events);
    var s, passed := Exec(w, Init(), events), Passed(w, Init(), {}, events);
    assert passed <= s.attempted ==> passed == {};
  }

  /** One listing fails: the job is recorded as done and has sent nothing. */
  lemma DoneWithNothingSent(w: World)
    requires Proper(w) && |w.order| == 1 && IsObject(w, 0, 0)
    ensures var s := Exec(w, Init(), [ListFails, Advance(true, true), Advance(true, true)]);
            s.pc == Done && s.attempted == {} && !AllAttempted(w, s)
  {
    var a := Advance(true, true);
    var s1 := Apply(w, Init(), ListFails);
    var s2 := Apply(w, s1, a);
    assert [ListFails, a, a][1..] == [a, a] && [a, a][1..] == [a] && [a][1..] == [];
    assert Exec(w, s1, [a, a]) == Exec(w, s2, [a]) == Apply(w, s2, a);
    assert IsObject(w, 0, 0);
  }

  // ----- what a restart repeats -----

  /** The step sends an object successfully. */
  predicate Sends(w: World, s: State, e: Event)
    requires Proper(w)
  {
    s.pc == Copying && e.Advance? && e.sent && IsObject(w, s.bucket, s.pos)
  }

  /** Where the objects are that the run sends successfully, in order. */
  function Successes(w: World, s: State, events: seq<Event>): seq<(nat, nat)>
    requires Proper(w)
    decreases |events|
  {
    if events == [] then []
    else
      var before, e := Exec(w, s, events[..|events| - 1]), events[|events| - 1];
      Successes(w, s, events[..|events| - 1]) + (if Sends(w, before, e) then [(before.bucket, before.pos)] else [])
  }

  /** How many of `n` successes are behind the last checkpoint: the full hundreds. */
  function Kept(n: nat): nat {
    n - n % 100
  }

  lemma KeptStep(n: nat)
    ensures Kept(n) == 0 <==> n < CHECKPOINT_EVERY
    ensures Kept(n + 1) == if (n + 1) % CHECKPOINT_EVERY == 0 then n + 1 else Kept(n)
  {
  }

  /** `l` runs forward from where `s` starts to where `t` is. */
  predicate Along(s: State, t: State, l: seq<(nat, nat)>) {
    && (forall k :: 0 <= k < |l| ==> !Before(l[k].0, l[k].1, s.bucket, s.pos) && Before(l[k].0, l[k].1, t.bucket, t.pos))
    && (forall k, m :: 0 <= k < m < |l| ==> Before(l[k].0, l[k].1, l[m].0, l[m].1))
    && !Before(t.bucket, t.pos, s.bucket, s.pos)
  }

  /** A restart goes to the start of the life, or right behind the last full hundred of successes. */
  predicate ResumesAt(w: World, s: State, t: State, l: seq<(nat, nat)>)
    requires Proper(w)
  {
    if Kept(|l|) == 0 then Boot(w, t).bucket == s.bucket && Boot(w, t).pos == s.pos
    else var last := l[Kept(|l|) - 1]; Boot(w, t).bucket == last.0 && Boot(w, t).pos == last.1 + 1
  }

  ghost predicate Checkpointed(w: World, s: State, t: State, l: seq<(nat, nat)>)
    requires Proper(w)
  {
    t.synced == |l| && Along(s, t, l) && (t.pc == Copying ==> ResumesAt(w, s, t, l))
  }

  lemma FirstOfDistinct(w: World, b: nat)
    requires Proper(w) && Distinct(w) && b < |w.order|
    ensures FindBucket(w.order, w.order[b]) == b
  {
    var r := FindBucket(w.order, w.order[b]);
    assert w.order[r] == w.order[b];
  }

  lemma AlongStep(s: State, t: State, u: State, l: seq<(nat, nat)>)
    requires Along(s, t, l) && u.bucket == t.bucket && u.pos == t.pos + 1
    ensures Along(s, u, l + [(t.bucket, t.pos)])
  {
  }

  /** The hundredth success is where the next life starts. */
  lemma HundredthSuccess(w: World, t: State, e: Event)
    requires Proper(w) && Distinct(w) && Sends(w, t, e) && e.stored && (t.synced + 1) % CHECKPOINT_EVERY == 0
    ensures var next := Boot(w, Apply(w, t, e)); next.bucket == t.bucket && next.pos == t.pos + 1
  {
    FirstOfDistinct(w, t.bucket);
    PositionAfterKey(Entries(w, t.bucket), t.pos);
  }

  lemma SuccessStep(w: World, s: State, t: State, l: seq<(nat, nat)>, e: Event)
    requires Proper(w) && Distinct(w) && Checkpointed(w, s, t, l) && Sends(w, t, e) && e.stored
    ensures Checkpointed(w, s, Apply(w, t, e), l + [(t.bucket, t.pos)])
  {
    var u := Apply(w, t, e);
    AlongStep(s, t, u, l);
    KeptStep(|l|);
    KeptStep(|l| + 1);
    if (|l| + 1) % CHECKPOINT_EVERY == 0 {
      HundredthSuccess(w, t, e);
    } else {
      assert Boot(w, u).bucket == Boot(w, t).bucket && Boot(w, u).pos == Boot(w, t).pos;
    }
  }

  lemma CheckpointedStep(w: World, s: State, t: State, l: seq<(nat, nat)>, e: Event)
    requires Proper(w) && Distinct(w) && Checkpointed(w, s, t, l)
    requires !e.Restart? && (e.Advance? ==> e.stored)
    ensures Checkpointed(w, s, Apply(w, t, e), l + (if Sends(w, t, e) then [(t.bucket, t.pos)] else []))
  {
    if Sends(w, t, e) {
      SuccessStep(w, s, t, l, e);
    } else {
      assert l + [] == l;
    }
  }

  lemma {:induction false} CheckpointedRun(w: World, s: State, events: seq<Event>)
    requires Proper(w) && Distinct(w) && s == Boot(w, s)
    requires forall k :: 0 <= k < |events| ==> !events[k].Restart? && (events[k].Advance? ==> events[k].stored)
    ensures Checkpointed(w, s, Exec(w, s, events), Successes(w, s, events))
    decreases |events|
  {
    if events != [] {
      var before, e := events[..|events| - 1], events[|events| - 1];
      CheckpointedRun(w, s, before);
      CheckpointedStep(w, s, Exec(w, s, before), Successes(w, s, before), e);
      ExecOneMore(w, s, before, e);
      assert events == before + [e];
    }
  }

  lemma SplitAtKept(s: State, t: State, l: seq<(nat, nat)>, k: nat)
    requires Along(s, t, l) && k < |l|
    ensures Kept(|l|) == 0 ==> !Before(l[k].0, l[k].1, s.bucket, s.pos)
    ensures Kept(|l|) > 0 ==> var last := l[Kept(|l|) - 1]; Before(l[k].0, l[k].1, last.0, last.1 + 1) <==> k < Kept(|l|)
  {
    if 0 < Kept(|l|) <= k {
      assert Before(l[Kept(|l|) - 1].0, l[Kept(|l|) - 1].1, l[k].0, l[k].1);
    }
  }

  lemma ResumeSplits(w: World, s: State, t: State, l: seq<(nat, nat)>, k: nat)
    requires Proper(w) && Checkpointed(w, s, t, l) && t.pc == Copying && k < |l|
    ensures Before(l[k].0, l[k].1, Boot(w, t).bucket, Boot(w, t).pos) <==> k < Kept(|l|)
  {
    SplitAtKept(s, t, l, k);
  }

  /**
   * When the writes of a life work and it ends early, the next one starts behind exactly the full
   * hundreds of its successes: of n it repeats n % 100.
   */
  lemma RepeatedExactly(w: World, s: State, events: seq<Event>, k: nat)
    requires Proper(w) && Distinct(w) && s == Boot(w, s) && Exec(w, s, events).pc == Copying
    requires forall i :: 0 <= i < |events| ==> !events[i].Restart? && (events[i].Advance? ==> events[i].stored)
    requires k < |Successes(w, s, events)|
    ensures var l, next := Successes(w, s, events), Boot(w, Exec(w, s, events));
            Before(l[k].0, l[k].1, next.bucket, next.pos) <==> k < Kept(|l|)
  {
    CheckpointedRun(w, s, events);
    ResumeSplits(w, s, Exec(w, s, events), Successes(w, s, events), k);
  }

  /** Nothing else is ever sent: what was attempted is a listed object. */
  lemma {:induction false} OnlyListedObjectsAreSent(w: World, s: State, events: seq<Event>)
    requires Proper(w)
    requires forall p :: p in s.attempted ==> p.0 in w.contents && p.1 < |w.contents[p.0]| && w.contents[p.0][p.1].visible
    ensures forall p :: p in Exec(w, s, events).attempted ==>
            p.0 in w.contents && p.1 < |w.contents[p.0]| && w.contents[p.0][p.1].visible
    decreases |events|
  {
    if events != [] {
      OnlyListedObjectsAreSent(w, Apply(w, s, events[0]), events[1..]);
    }
  }

  // ----- the worker itself -----

  /** What happens at the n-th object: sent with or without its checkpoint, refused, or the end. */
  datatype Fate = Sent | SentUnstored | Refused | Killed

  class SyncJob {
    const w: World
    var lastCheckpointBucket: string
    var lastCheckpointKey: string
    var objectsSynced: nat
    var done: bool
    ghost var log: seq<Event>

    ghost function Machine(): State
      requires Proper(w)
      reads this
    {
      Exec(w, Init(), log)
    }

    /** The row is what the state machine reaches by the logged events. */
    ghost predicate Valid()
      reads this
    {
      && Proper(w)
      && Machine().ckBucket == lastCheckpointBucket && Machine().ckKey == lastCheckpointKey
      && (done <==> Machine().pc == Done)
    }

    /** No listing has failed so far. */
    ghost predicate Listed()
      reads this
    {
      forall k :: 0 <= k < |log| ==> !log[k].ListFails?
    }

    /** Everything was attempted, exactly if what failed listings passed over was. */
    ghost predicate Complete()
      requires Proper(w)
      reads this
    {
      && (AllAttempted(w, Machine()) <==> Passed(w, Init(), {}, log) <= Machine().attempted)
      && (Listed() ==> AllAttempted(w, Machine()))
    }

    constructor (w: World)
      requires Proper(w)
      ensures Valid() && this.w == w && log == [] && !done
    {
      this.w := w;
      lastCheckpointBucket, lastCheckpointKey, objectsSynced, done := "", "", 0, false;
      log := [];
    }

    ghost method Record(e: Event)
      requires Proper(w)
      modifies this`log
      ensures log == old(log) + [e] && Machine() == Apply(w, old(Machine()), e)
    {
      ExecOneMore(w, Init(), log, e);
      log := log + [e];
    }

    /** startJob and runSync: one life of the process working on this job; `lists` says which listings of a bucket work. */
    method Run(fate: nat -> Fate, lists: (nat, nat) -> bool, cleared: bool, recorded: bool)
      requires Valid() && !done
      modifies this
      ensures Valid() && old(log) < log
      ensures old(Listed()) && (forall b, p :: lists(b, p)) ==> Listed()
      ensures done ==> Complete() && recorded
      ensures (forall k: nat :: fate(k) != Killed) ==> Complete() && (done <==> recorded)
    {
      var startIdx := 0;
      if lastCheckpointBucket != "" {
        startIdx := FindBucket(w.order, lastCheckpointBucket);
      }
      var startKey := lastCheckpointKey;
      Record(Restart);
      var synced, n := 0, 0;
      var i := startIdx;
      while i < |w.order|
        invariant startIdx <= i && n >= 0 && Valid() && !done && old(log) < log
        invariant old(Listed()) && (forall b, p :: lists(b, p)) ==> Listed()
        invariant Machine().pc == Copying && Machine().bucket == i && Machine().synced == synced
        invariant i < |w.order| ==>
          Machine().pos == Position(Entries(w, i), if i == startIdx then startKey else "")
      {
        var marker := if i == startIdx then startKey else "";
        var alive;
        alive, synced, n := CopyBucket(fate, lists, i, marker, synced, n);
        if !alive {
          return;
        }
        i := i + 1;
      }
      Finish(synced, cleared, recorded);
    }

    /** The final progress write and the status change; the errors of both are ignored. */
    method Finish(synced: nat, cleared: bool, recorded: bool)
      requires Valid() && !done && Machine().pc == Copying && Machine().bucket >= |w.order|
      modifies this
      ensures Valid() && (done <==> recorded) && old(log) < log && Complete() && (old(Listed()) ==> Listed())
    {
      if cleared {
        objectsSynced, lastCheckpointBucket, lastCheckpointKey := synced, "", "";
      }
      Record(Advance(true, cleared));
      if recorded {
        done := true;
      }
      Record(Advance(true, recorded));
      DoneJobAttemptedEverything(w, log);
      if Listed() {
        NothingPassed(w, Init(), log);
      }
    }

    /** The page loop of one bucket, from `marker` on; a listing that fails ends it. */
    method CopyBucket(fate: nat -> Fate, lists: (nat, nat) -> bool, i: nat, marker0: string, synced0: nat, n0: nat)
      returns (alive: bool, synced: nat, n: nat)
      requires Valid() && !done && i < |w.order| && Machine().pc == Copying
      requires Machine().bucket == i && Machine().synced == synced0 && Machine().pos == Position(Entries(w, i), marker0)
      modifies this`lastCheckpointBucket, this`lastCheckpointKey, this`objectsSynced, this`log
      ensures Valid() && Machine().pc == Copying && old(log) <= log
      ensures old(Listed()) && (forall p :: lists(i, p)) ==> Listed()
      ensures alive ==> Machine().bucket == i + 1 && Machine().pos == 0 && Machine().synced == synced
      ensures (forall k: nat :: fate(k) != Killed) ==> alive
    {
      synced, n := synced0, n0;
      var es := Entries(w, i);
      var marker, page := marker0, 0;
      while lists(i, page)
        invariant Valid() && Machine().pc == Copying && old(log) <= log && page >= 0
        invariant old(Listed()) ==> Listed()
        invariant Machine().bucket == i && Machine().synced == synced && Machine().pos == Position(es, marker)
        decreases |es| - Position(es, marker)
      {
        var at := Position(es, marker);
        var end := PageEnd(PAGE_SIZE, es, at);
        var j := at;
        while j < end
          invariant at <= j <= end && Valid() && Machine().pc == Copying && old(log) <= log && (old(Listed()) ==> Listed())
          invariant Machine().bucket == i && Machine().synced == synced && Machine().pos == j
        {
          if es[j].visible && fate(n) == Killed {
            return false, synced, n;
          }
          synced, n := CopyEntry(fate, i, j, synced, n);
          j := j + 1;
        }
        if end == |es| {
          Record(Advance(true, true));
          return true, synced, n;
        }
        marker, page := NextMarker(PAGE_SIZE, es, at), page + 1;
        PositionAfterKey(es, end - 1);
      }
      Record(ListFails);
      alive := true;
    }

    /** One listed entry: hidden ones are not sent, and every 100th success is checkpointed. */
    method CopyEntry(fate: nat -> Fate, i: nat, j: nat, synced0: nat, n0: nat) returns (synced: nat, n: nat)
      requires Valid() && !done && i < |w.order| && j < |Entries(w, i)| && Machine().pc == Copying
      requires Entries(w, i)[j].visible ==> fate(n0) != Killed
      requires Machine().bucket == i && Machine().pos == j && Machine().synced == synced0
      modifies this`lastCheckpointBucket, this`lastCheckpointKey, this`objectsSynced, this`log
      ensures Valid() && Machine().pc == Copying && old(log) <= log
      ensures Machine().bucket == i && Machine().pos == j + 1 && Machine().synced == synced && (old(Listed()) ==> Listed())
      ensures Entries(w, i)[j].visible ==> (w.order[i], j) in Machine().attempted
    {
      synced, n := synced0, n0;
      var entry := Entries(w, i)[j];
      var outcome := Refused;
      if entry.visible {
        outcome := fate(n);
        n := n + 1;
        if outcome != Refused {
          synced := synced + 1;
          if synced % CHECKPOINT_EVERY == 0 && outcome == Sent {
            objectsSynced, lastCheckpointBucket, lastCheckpointKey := synced, w.order[i], entry.key;
          }
        }
      }
      Record(Advance(outcome != Refused, outcome == Sent));
    }
  }
}
