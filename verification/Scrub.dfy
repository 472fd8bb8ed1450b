// internal/cluster/anti_entropy.go: one scrub cycle, its checkpoint in the key-value
// store, and its resumption after any number of crashes.
module Scrub {
  import opened Lex
  import opened Listing
  import opened Peers

  datatype World = World(buckets: seq<seq<Entry>>, batch: nat)

  predicate Proper(w: World) {
    w.batch > 0 && forall b :: 0 <= b < |w.buckets| ==> Ordered(w.buckets[b])
  }

  /** Where the page loop of a bucket ends: at the first page with nothing visible on it. */
  function Stops(w: World, es: seq<Entry>, start: nat): (r: nat)
    requires w.batch > 0
    decreases |es| - start
  {
    var end := PageEnd(w.batch, es, start);
    if !SomeVisible(es, start, end) then start
    else if end < |es| then Stops(w, es, end)
    else |es|
  }

  // ----- the cycle as a state machine -----

  datatype Checkpoint = Checkpoint(idx: nat, lastKey: string)

  datatype Pc =
    | Listing
    | Saving(next: string, more: bool)
    | EndOfBucket
    | Down
    | Done

  /**
   * `cp` is the checkpoint in memory and `saved` every checkpoint written for this cycle.
   * `passed` are the entries (bucket, index) that went through a whole processBatch, and
   * `matched` those that were compared with a peer's checksum, with the peer.
   */
  datatype State = State(
    pc: Pc, cp: Checkpoint, saved: set<Checkpoint>, passed: set<(nat, nat)>, matched: set<(nat, nat, Node)>)

  /**
   * Advance is the scrubber's next atomic action; in a batch `answered` are the peers whose
   * checksum call works, the others are skipped for the page.  Crash restarts the process at any
   * checkpoint ever written, since writes are not synced.  Cancel stops it inside processBatch,
   * after the comparisons `seen`, and NoPeers makes it give up; both leave the checkpoint in place.
   * ListFails is a listing that fails, which gives up the bucket.
   */
  datatype Event =
    | Advance(answered: set<Node>) | Crash(at: Checkpoint) | Cancel(seen: set<(nat, Node)>) | NoPeers | ListFails

  function Init(): State {
    State(Listing, Checkpoint(0, ""), {Checkpoint(0, "")}, {}, {})
  }

  function Page(b: nat, es: seq<Entry>, lo: nat, hi: nat): set<(nat, nat)> {
    set i | lo <= i < hi && i < |es| && es[i].visible :: (b, i)
  }

  /** The entries of a page with the peers they are compared with. */
  function Matches(page: set<(nat, nat)>, answered: set<Node>): set<(nat, nat, Node)> {
    set q, p | q in page && p in answered :: (q.0, q.1, p)
  }

  predicate AtPage(w: World, s: State) {
    s.pc == Listing && s.cp.idx < |w.buckets| &&
    var es := w.buckets[s.cp.idx];
    SomeVisible(es, Position(es, s.cp.lastKey), PageEnd(w.batch, es, Position(es, s.cp.lastKey)))
  }

  /** The entries of the page that is up next. */
  function PageAt(w: World, s: State): set<(nat, nat)>
    requires s.cp.idx < |w.buckets|
  {
    var es := w.buckets[s.cp.idx];
    Page(s.cp.idx, es, Position(es, s.cp.lastKey), PageEnd(w.batch, es, Position(es, s.cp.lastKey)))
  }

  function Act(w: World, s: State, answered: set<Node>): State
    requires w.batch > 0
  {
    match s.pc
    case Listing =>
      if s.cp.idx >= |w.buckets| then s.(pc := Done)
      else if !AtPage(w, s) then s.(pc := EndOfBucket)
      else
        var es := w.buckets[s.cp.idx];
        var start := Position(es, s.cp.lastKey);
        var end := PageEnd(w.batch, es, start);
        s.(pc := Saving(NextMarker(w.batch, es, start), end < |es|),
           passed := s.passed + PageAt(w, s), matched := s.matched + Matches(PageAt(w, s), answered))
    case Saving(next, more) =>
      var cp := s.cp.(lastKey := next);
      s.(pc := if more then Listing else EndOfBucket, cp := cp, saved := s.saved + {cp})
    case EndOfBucket =>
      var cp := s.cp.(lastKey := "");
      s.(pc := Listing, cp := Checkpoint(cp.idx + 1, ""), saved := s.saved + {cp})
    case _ => s
  }

  function Apply(w: World, s: State, e: Event): State
    requires w.batch > 0
  {
    match e
    case Advance(answered) => Act(w, s, answered)
    case Crash(at) => if s.pc != Done && at in s.saved then s.(pc := Listing, cp := at) else s
    case Cancel(seen) =>
      // processBatch returns early, yet LastKey still moves and the write ignores the context
      if !AtPage(w, s) then s
      else
        var es := w.buckets[s.cp.idx];
        var cp := s.cp.(lastKey := NextMarker(w.batch, es, Position(es, s.cp.lastKey)));
        s.(pc := Down, cp := cp, saved := s.saved + {cp},
           matched := s.matched + set q | q in seen && (s.cp.idx, q.0) in PageAt(w, s) :: (s.cp.idx, q.0, q.1))
    case NoPeers => if AtPage(w, s) then s.(pc := Down) else s
    case ListFails => if s.pc == Listing && s.cp.idx < |w.buckets| then s.(pc := EndOfBucket) else s
  }

  function Exec(w: World, s: State, events: seq<Event>): State
    requires w.batch > 0
    decreases |events|
  {
    if events == [] then s else Exec(w, Apply(w, s, events[0]), events[1..])
  }

  lemma {:induction false} ExecOneMore(w: World, s: State, events: seq<Event>, e: Event)
    requires w.batch > 0
    ensures Exec(w, s, events + [e]) == Apply(w, Exec(w, s, events), e)
    decreases |events|
  {
    if events == [] {
      assert [e][1..] == [] && events + [e] == [e];
    } else {
      assert (events + [e])[1..] == events[1..] + [e];
      ExecOneMore(w, Apply(w, s, events[0]), events[1..], e);
    }
  }

  /** Entry `i` of bucket `b` is visible and lies before the end of that bucket's page loop. */
  predicate InReach(w: World, b: nat, i: nat)
    requires w.batch > 0
  {
    b < |w.buckets| && i < |w.buckets[b]| && w.buckets[b][i].visible && i < Stops(w, w.buckets[b], 0)
  }

  /**
   * Not a stop inside a batch with another page behind it and objects on it that have not passed,
   * nor a listing that fails in a bucket with such objects.
   */
  predicate Harmless(w: World, s: State, e: Event)
    requires w.batch > 0
  {
    && (e.Cancel? && AtPage(w, s) ==>
          var es := w.buckets[s.cp.idx];
          var start := Position(es, s.cp.lastKey);
          var end := PageEnd(w.batch, es, start);
          end == |es| || Page(s.cp.idx, es, start, end) <= s.passed)
    && (e.ListFails? && s.pc == Listing && s.cp.idx < |w.buckets| ==>
          forall i :: 0 <= i < |w.buckets[s.cp.idx]| && InReach(w, s.cp.idx, i) ==> (s.cp.idx, i) in s.passed)
  }

  predicate HarmlessRun(w: World, s: State, events: seq<Event>)
    requires w.batch > 0
    decreases |events|
  {
    events == [] || (Harmless(w, s, events[0]) && HarmlessRun(w, Apply(w, s, events[0]), events[1..]))
  }

  // ----- what every run keeps -----

  /** The checkpoint stands on a page boundary of its bucket's page loop. */
  ghost predicate OnBoundary(w: World, cp: Checkpoint)
    requires w.batch > 0
  {
    cp.idx < |w.buckets| ==>
      var es := w.buckets[cp.idx];
      Stops(w, es, Position(es, cp.lastKey)) == Stops(w, es, 0) && Position(es, cp.lastKey) <= Stops(w, es, 0)
  }

  /** Everything in reach before the position (b, i) has passed. */
  ghost predicate PassedBefore(w: World, passed: set<(nat, nat)>, b: nat, i: nat)
    requires w.batch > 0
  {
    forall c: nat, j: nat :: InReach(w, c, j) && (c < b || (c == b && j < i)) ==> (c, j) in passed
  }

  ghost predicate Safe(w: World, cp: Checkpoint, passed: set<(nat, nat)>)
    requires w.batch > 0
  {
    && OnBoundary(w, cp)
    && PassedBefore(w, passed, cp.idx, if cp.idx < |w.buckets| then Position(w.buckets[cp.idx], cp.lastKey) else 0)
  }

  ghost predicate Inv(w: World, s: State)
    requires w.batch > 0
  {
    && (forall cp :: cp in s.saved ==> Safe(w, cp, s.passed))
    && (match s.pc
        case Listing => Safe(w, s.cp, s.passed)
        case Saving(next, more) =>
          && s.cp.idx < |w.buckets|
          && (more ==> Safe(w, s.cp.(lastKey := next), s.passed))
          && (!more ==> next == "" && PassedBefore(w, s.passed, s.cp.idx + 1, 0))
        case EndOfBucket => s.cp.idx < |w.buckets| && PassedBefore(w, s.passed, s.cp.idx + 1, 0)
        case Down => true
        case Done => PassedBefore(w, s.passed, |w.buckets|, 0))
    && (forall p :: p in s.passed ==> InReach(w, p.0, p.1))
    && (forall p :: p in s.matched ==> InReach(w, p.0, p.1))
  }

  lemma {:induction false} StopsInRange(w: World, es: seq<Entry>, start: nat)
    requires w.batch > 0 && start <= |es|
    ensures start <= Stops(w, es, start) <= |es|
    decreases |es| - start
  {
    var end := PageEnd(w.batch, es, start);
    if SomeVisible(es, start, end) && end < |es| {
      StopsInRange(w, es, end);
    }
  }

  lemma BucketStartIsSafe(w: World, b: nat, passed: set<(nat, nat)>)
    requires Proper(w) && PassedBefore(w, passed, b, 0)
    ensures Safe(w, Checkpoint(b, ""), passed)
  {
    if b < |w.buckets| {
      StopsInRange(w, w.buckets[b], 0);
    }
  }

  lemma NextPosition(w: World, es: seq<Entry>, start: nat)
    requires w.batch > 0 && Ordered(es) && PageEnd(w.batch, es, start) < |es|
    ensures Position(es, NextMarker(w.batch, es, start)) == PageEnd(w.batch, es, start)
  {
    PositionAfterKey(es, PageEnd(w.batch, es, start) - 1);
  }

  lemma StopsAtNext(w: World, es: seq<Entry>, start: nat)
    requires w.batch > 0 && start <= |es| && SomeVisible(es, start, PageEnd(w.batch, es, start))
    ensures var end := PageEnd(w.batch, es, start);
            end <= Stops(w, es, start) && (end < |es| ==> Stops(w, es, end) == Stops(w, es, start))
  {
    if PageEnd(w.batch, es, start) < |es| {
      StopsInRange(w, es, PageEnd(w.batch, es, start));
    }
  }

  /** The next page boundary of a safe checkpoint that has a page with something visible. */
  lemma NextBoundary(w: World, cp: Checkpoint)
    requires Proper(w) && OnBoundary(w, cp) && cp.idx < |w.buckets|
    requires var es := w.buckets[cp.idx]; var start := Position(es, cp.lastKey);
             SomeVisible(es, start, PageEnd(w.batch, es, start))
    ensures var es := w.buckets[cp.idx]; var start := Position(es, cp.lastKey); var end := PageEnd(w.batch, es, start);
            && end <= Stops(w, es, 0)
            && (end < |es| ==>
                  OnBoundary(w, cp.(lastKey := NextMarker(w.batch, es, start))) &&
                  Position(es, NextMarker(w.batch, es, start)) == end)
  {
    var es := w.buckets[cp.idx];
    var start := Position(es, cp.lastKey);
    StopsAtNext(w, es, start);
    if PageEnd(w.batch, es, start) < |es| {
      NextPosition(w, es, start);
    }
  }

  /** Once a page has passed, the next boundary, or the next bucket, is safe. */
  lemma PageMakesProgress(w: World, cp: Checkpoint, passed: set<(nat, nat)>, passed': set<(nat, nat)>)
    requires Proper(w) && Safe(w, cp, passed) && cp.idx < |w.buckets|
    requires var es := w.buckets[cp.idx]; var start := Position(es, cp.lastKey); var end := PageEnd(w.batch, es, start);
             SomeVisible(es, start, end) && passed <= passed' && Page(cp.idx, es, start, end) <= passed'
    ensures var es := w.buckets[cp.idx]; var start := Position(es, cp.lastKey); var end := PageEnd(w.batch, es, start);
            && (end < |es| ==> Safe(w, cp.(lastKey := NextMarker(w.batch, es, start)), passed'))
            && (end == |es| ==> PassedBefore(w, passed', cp.idx + 1, 0))
  {
    NextBoundary(w, cp);
    var es := w.buckets[cp.idx];
    var start := Position(es, cp.lastKey);
    forall c: nat, j: nat | InReach(w, c, j) && (c < cp.idx || (c == cp.idx && j < PageEnd(w.batch, es, start)))
      ensures (c, j) in passed'
    {
      if c == cp.idx && start <= j {
        assert (c, j) in Page(cp.idx, es, start, PageEnd(w.batch, es, start));
      }
    }
  }

  lemma PageIsInReach(w: World, cp: Checkpoint)
    requires Proper(w) && OnBoundary(w, cp) && cp.idx < |w.buckets|
    requires var es := w.buckets[cp.idx]; var start := Position(es, cp.lastKey);
             SomeVisible(es, start, PageEnd(w.batch, es, start))
    ensures var es := w.buckets[cp.idx]; var start := Position(es, cp.lastKey);
            forall p :: p in Page(cp.idx, es, start, PageEnd(w.batch, es, start)) ==> InReach(w, p.0, p.1)
  {
    NextBoundary(w, cp);
  }

  /** A page with nothing visible on it is where the bucket's page loop ends. */
  lemma HiddenPageEndsBucket(w: World, s: State)
    requires Proper(w) && Inv(w, s) && s.pc == Listing && s.cp.idx < |w.buckets| && !AtPage(w, s)
    ensures PassedBefore(w, s.passed, s.cp.idx + 1, 0)
  {
  }

  lemma PageKeepsInv(w: World, s: State, answered: set<Node>)
    requires Proper(w) && Inv(w, s) && AtPage(w, s)
    ensures Inv(w, Act(w, s, answered))
  {
    var t := Act(w, s, answered);
    PageMakesProgress(w, s.cp, s.passed, t.passed);
    PageIsInReach(w, s.cp);
  }

  lemma ActKeepsInv(w: World, s: State, answered: set<Node>)
    requires Proper(w) && Inv(w, s)
    ensures Inv(w, Act(w, s, answered))
  {
    match s.pc
    case Listing =>
      if s.cp.idx >= |w.buckets| {
      } else if AtPage(w, s) {
        PageKeepsInv(w, s, answered);
      } else {
        HiddenPageEndsBucket(w, s);
      }
    case Saving(next, more) =>
      if !more {
        BucketStartIsSafe(w, s.cp.idx, s.passed);
      }
    case EndOfBucket =>
      BucketStartIsSafe(w, s.cp.idx, s.passed);
      BucketStartIsSafe(w, s.cp.idx + 1, s.passed);
    case _ =>
  }

  /** Stopping inside a batch keeps the checkpoint sound exactly when the stop is harmless. */
  lemma StopIsSafeExactly(w: World, s: State, seen: set<(nat, Node)>)
    requires Proper(w) && Inv(w, s) && AtPage(w, s)
    ensures Inv(w, Apply(w, s, Cancel(seen))) <==> Harmless(w, s, Cancel(seen))
  {
    var es := w.buckets[s.cp.idx];
    var start := Position(es, s.cp.lastKey);
    var end := PageEnd(w.batch, es, start);
    var cp := s.cp.(lastKey := NextMarker(w.batch, es, start));
    PageIsInReach(w, s.cp);
    if end == |es| {
      PassedBeforeWeakens(w, s.passed, s.cp.idx, start);
      BucketStartIsSafe(w, s.cp.idx, s.passed);
    } else if PageAt(w, s) <= s.passed {
      PageMakesProgress(w, s.cp, s.passed, s.passed);
    } else {
      NextBoundary(w, s.cp);
      assert cp in Apply(w, s, Cancel(seen)).saved;
      var p :| p in PageAt(w, s) && p !in s.passed;
      assert InReach(w, p.0, p.1) && p == (p.0, p.1);
    }
  }

  /** So does a listing that fails. */
  lemma FailedListingIsSafeExactly(w: World, s: State)
    requires Proper(w) && Inv(w, s) && s.pc == Listing && s.cp.idx < |w.buckets|
    ensures Inv(w, Apply(w, s, ListFails)) <==> Harmless(w, s, ListFails)
  {
    var t := Apply(w, s, ListFails);
    if Inv(w, t) {
      forall i | 0 <= i < |w.buckets[s.cp.idx]| && InReach(w, s.cp.idx, i) ensures (s.cp.idx, i) in s.passed {
        assert PassedBefore(w, t.passed, s.cp.idx + 1, 0);
      }
    }
  }

  lemma PassedBeforeWeakens(w: World, passed: set<(nat, nat)>, b: nat, i: nat)
    requires w.batch > 0 && PassedBefore(w, passed, b, i)
    ensures PassedBefore(w, passed, b, 0)
  {
  }

  lemma ApplyKeepsInv(w: World, s: State, e: Event)
    requires Proper(w) && Inv(w, s) && Harmless(w, s, e)
    ensures Inv(w, Apply(w, s, e))
  {
    match e
    case Advance(answered) => ActKeepsInv(w, s, answered);
    case Cancel(seen) =>
      if AtPage(w, s) {
        StopIsSafeExactly(w, s, seen);
      }
    case ListFails =>
      if s.pc == Listing && s.cp.idx < |w.buckets| {
        FailedListingIsSafeExactly(w, s);
      }
    case _ =>
  }

  lemma {:induction false} RunKeepsInv(w: World, s: State, events: seq<Event>)
    requires Proper(w) && Inv(w, s) && HarmlessRun(w, s, events)
    ensures Inv(w, Exec(w, s, events))
    decreases |events|
  {
    if events != [] {
      ApplyKeepsInv(w, s, events[0]);
      RunKeepsInv(w, Apply(w, s, events[0]), events[1..]);
    }
  }

  lemma InitIsSafe(w: World)
    requires Proper(w)
    ensures Inv(w, Init())
  {
    BucketStartIsSafe(w, 0, {});
  }

  // ----- what a resume repeats -----

  /** Where the cycle stands is on record, or the start of the bucket before it. */
  predicate OnRecord(s: State) {
    s.cp in s.saved || (s.cp.lastKey == "" && s.cp.idx > 0 && Checkpoint(s.cp.idx - 1, "") in s.saved)
  }

  /**
   * Every checkpoint is written as soon as its page is through: whoever answers, over any stops and
   * crashes, a resume at the latest one repeats the page in hand, or at the start of a bucket the one
   * before it, and nothing else.
   */
  lemma {:induction false} LatestIsOnRecord(w: World, s: State, events: seq<Event>)
    requires w.batch > 0 && OnRecord(s)
    ensures OnRecord(Exec(w, s, events))
    decreases |events|
  {
    if events != [] {
      LatestIsOnRecord(w, Apply(w, s, events[0]), events[1..]);
    }
  }

  /** A cycle that gives up for want of peers goes on, after a restart at its checkpoint, as if nothing had happened. */
  lemma AbortedCycleGoesOn(w: World, s: State)
    requires w.batch > 0 && s.cp in s.saved
    ensures var down := Apply(w, s, NoPeers);
            if AtPage(w, s) then down.pc == Down && Apply(w, down, Crash(s.cp)) == s else down == s
  {
  }

  // ----- which buckets are scanned to the end -----

  /** The page loop lists [k * batch, (k + 1) * batch) as its k-th page. */
  function PageStart(w: World, k: nat): (r: nat)
    ensures r == k * w.batch
  {
    if k == 0 then 0 else PageStart(w, k - 1) + w.batch
  }

  /** Page `k` has a visible entry on it. */
  predicate PageVisible(w: World, es: seq<Entry>, k: nat) {
    SomeVisible(es, PageStart(w, k), PageStart(w, k + 1))
  }

  /** Entry `i` lies behind page `k`. */
  predicate Behind(w: World, k: nat, i: nat) {
    PageStart(w, k + 1) <= i
  }

  /** Every page with a visible entry behind it has a visible entry on it. */
  predicate NoHiddenPage(w: World) {
    forall b, i :: 0 <= b < |w.buckets| && 0 <= i < |w.buckets[b]| && w.buckets[b][i].visible ==>
      forall k :: 0 <= k <= i && Behind(w, k, i) ==> PageVisible(w, w.buckets[b], k)
  }

  lemma {:induction false} PageStartGrows(w: World, j: nat, k: nat)
    requires j <= k
    ensures PageStart(w, j) <= PageStart(w, k)
    decreases k
  {
    if j < k {
      PageStartGrows(w, j, k - 1);
    }
  }

  lemma {:induction false} PageIndexIsSmall(w: World, k: nat)
    requires w.batch > 0
    ensures k <= PageStart(w, k)
    decreases k
  {
    if k > 0 {
      PageIndexIsSmall(w, k - 1);
    }
  }

  ghost predicate PagesVisible(w: World, es: seq<Entry>, k: nat, i: nat) {
    forall j :: k <= j <= i && Behind(w, j, i) ==> PageVisible(w, es, j)
  }

  lemma LastPageIsEnough(w: World, es: seq<Entry>, k: nat, i: nat)
    requires i < PageStart(w, k + 1)
    ensures PagesVisible(w, es, k, i)
  {
    forall j | k <= j <= i ensures !Behind(w, j, i) {
      PageStartGrows(w, k + 1, j + 1);
    }
  }

  lemma PagesVisibleStep(w: World, es: seq<Entry>, k: nat, i: nat)
    requires w.batch > 0 && Behind(w, k, i)
    ensures PagesVisible(w, es, k, i) <==> PageVisible(w, es, k) && PagesVisible(w, es, k + 1, i)
  {
    PageIndexIsSmall(w, k + 1);
  }

  /** A visible entry is listed exactly when every page in front of it has something visible. */
  lemma {:induction false} StopsExactly(w: World, es: seq<Entry>, k: nat, i: nat)
    requires w.batch > 0 && PageStart(w, k) <= i < |es| && es[i].visible
    ensures i < Stops(w, es, PageStart(w, k)) <==> PagesVisible(w, es, k, i)
    decreases |es| - PageStart(w, k)
  {
    var start, end := PageStart(w, k), PageEnd(w.batch, es, PageStart(w, k));
    if Behind(w, k, i) {
      assert end == PageStart(w, k + 1);
      PagesVisibleStep(w, es, k, i);
      if PageVisible(w, es, k) {
        StopsAtNext(w, es, start);
        StopsExactly(w, es, k + 1, i);
      }
    } else {
      assert SomeVisible(es, start, end);
      StopsAtNext(w, es, start);
      LastPageIsEnough(w, es, k, i);
    }
  }

  predicate AllInReach(w: World)
    requires w.batch > 0
  {
    forall b, i :: 0 <= b < |w.buckets| && 0 <= i < |w.buckets[b]| && w.buckets[b][i].visible ==> InReach(w, b, i)
  }

  lemma AllInReachExactly(w: World)
    requires w.batch > 0
    ensures AllInReach(w) <==> NoHiddenPage(w)
  {
    forall b, i | 0 <= b < |w.buckets| && 0 <= i < |w.buckets[b]| && w.buckets[b][i].visible
      ensures InReach(w, b, i) <==> PagesVisible(w, w.buckets[b], 0, i)
    {
      StopsExactly(w, w.buckets[b], 0, i);
    }
  }

  /** Every visible entry of every bucket went through processBatch. */
  predicate AllPassed(w: World, s: State) {
    forall b, i :: 0 <= b < |w.buckets| && 0 <= i < |w.buckets[b]| && w.buckets[b][i].visible ==> (b, i) in s.passed
  }

  /**
   * A cycle recorded as done, over any crashes and resumes, put exactly the entries in reach
   * through processBatch; so it did so with every object if and only if every page with one
   * behind it has one on it.
   */
  lemma DoneCycleIsComplete(w: World, events: seq<Event>)
    requires Proper(w) && HarmlessRun(w, Init(), events)
    requires Exec(w, Init(), events).pc == Done
    ensures AllPassed(w, Exec(w, Init(), events)) <==> NoHiddenPage(w)
    ensures forall b: nat, i: nat :: (b, i) in Exec(w, Init(), events).passed <==> InReach(w, b, i)
  {
    InitIsSafe(w);
    RunKeepsInv(w, Init(), events);
    var s := Exec(w, Init(), events);
    assert forall b: nat, i: nat :: (b, i) in s.passed <==> InReach(w, b, i);
    assert AllPassed(w, s) <==> AllInReach(w);
    AllInReachExactly(w);
  }

  // ----- which peers an object is compared with -----

  /** The peer answers in every batch of the run that completes. */
  predicate AlwaysAnswers(w: World, s: State, events: seq<Event>, p: Node)
    requires w.batch > 0
    decreases |events|
  {
    events == [] ||
    ((events[0].Advance? && AtPage(w, s) ==> p in events[0].answered) && AlwaysAnswers(w, Apply(w, s, events[0]), events[1..], p))
  }

  predicate PassedIsMatched(s: State, p: Node) {
    forall q :: q in s.passed ==> (q.0, q.1, p) in s.matched
  }

  lemma {:induction false} AnsweringPeerIsMatched(w: World, s: State, events: seq<Event>, p: Node)
    requires w.batch > 0 && PassedIsMatched(s, p) && AlwaysAnswers(w, s, events, p)
    ensures PassedIsMatched(Exec(w, s, events), p)
    decreases |events|
  {
    if events != [] {
      AnsweringPeerIsMatched(w, Apply(w, s, events[0]), events[1..], p);
    }
  }

  predicate AllMatched(w: World, s: State, p: Node) {
    forall b, i :: 0 <= b < |w.buckets| && 0 <= i < |w.buckets[b]| && w.buckets[b][i].visible ==> (b, i, p) in s.matched
  }

  /** With a peer that answers in every batch, a done cycle compared the same: exactly what is in reach. */
  lemma DoneCycleComparesWith(w: World, events: seq<Event>, p: Node)
    requires Proper(w) && HarmlessRun(w, Init(), events) && AlwaysAnswers(w, Init(), events, p)
    requires Exec(w, Init(), events).pc == Done
    ensures AllMatched(w, Exec(w, Init(), events), p) <==> NoHiddenPage(w)
    ensures forall b: nat, i: nat :: (b, i, p) in Exec(w, Init(), events).matched <==> InReach(w, b, i)
  {
    var s := Exec(w, Init(), events);
    InitIsSafe(w);
    RunKeepsInv(w, Init(), events);
    DoneCycleIsComplete(w, events);
    AnsweringPeerIsMatched(w, Init(), events, p);
    forall b: nat, i: nat ensures (b, i, p) in s.matched <==> InReach(w, b, i) {
      if InReach(w, b, i) {
        assert (b, i) in s.passed;
      }
    }
    assert AllMatched(w, s, p) <==> AllInReach(w);
    AllInReachExactly(w);
  }

  /** A batch compares the object with the peer. */
  predicate Compares(w: World, s: State, e: Event, b: nat, i: nat, p: Node) {
    AtPage(w, s) && (b, i) in PageAt(w, s) &&
    match e
    case Advance(answered) => p in answered
    case Cancel(seen) => (i, p) in seen
    case _ => false
  }

  predicate ComparedInRun(w: World, s: State, events: seq<Event>, b: nat, i: nat, p: Node)
    requires w.batch > 0
    decreases |events|
  {
    events != [] && (Compares(w, s, events[0], b, i, p) || ComparedInRun(w, Apply(w, s, events[0]), events[1..], b, i, p))
  }

  lemma ComparesStep(w: World, s: State, e: Event, b: nat, i: nat, p: Node)
    requires w.batch > 0
    ensures (b, i, p) in Apply(w, s, e).matched <==> (b, i, p) in s.matched || Compares(w, s, e, b, i, p)
  {
    if e.Advance? && AtPage(w, s) && (b, i) in PageAt(w, s) && p in e.answered {
      assert (b, i, p) in Matches(PageAt(w, s), e.answered);
    }
  }

  /** Whoever answers when: an object counts as compared with a peer exactly when some batch compared them. */
  lemma {:induction false} MatchedExactly(w: World, s: State, events: seq<Event>, b: nat, i: nat, p: Node)
    requires w.batch > 0
    ensures (b, i, p) in Exec(w, s, events).matched <==> (b, i, p) in s.matched || ComparedInRun(w, s, events, b, i, p)
    decreases |events|
  {
    if events != [] {
      ComparesStep(w, s, events[0], b, i, p);
      MatchedExactly(w, Apply(w, s, events[0]), events[1..], b, i, p);
    }
  }

  // ----- cycles that are done and have missed something -----

  lemma ExecCons(w: World, s: State, e: Event, rest: seq<Event>)
    requires w.batch > 0
    ensures Exec(w, s, [e] + rest) == Exec(w, Apply(w, s, e), rest)
  {
    assert ([e] + rest)[1..] == rest;
  }

  function Advances(n: nat, answered: set<Node>): seq<Event> {
    if n == 0 then [] else [Advance(answered)] + Advances(n - 1, answered)
  }

  /** A hidden object on the first page of one, a visible one behind it. */
  function HiddenFirst(): World {
    World([[Entry("a", false), Entry("b", true)]], 1)
  }

  /** The page without a visible object ends the bucket: the cycle is done without object "b". */
  lemma HiddenPageEndsCycle(answered: set<Node>)
    ensures var w := HiddenFirst();
            Proper(w) && !NoHiddenPage(w) &&
            Exec(w, Init(), Advances(3, answered)).pc == Done && (0, 1) !in Exec(w, Init(), Advances(3, answered)).passed
  {
    var w := HiddenFirst();
    var es := w.buckets[0];
    assert |es| == 2 && !es[0].visible && es[1].visible && Less("a", "b");
    assert PageStart(w, 1) == 1 && !SomeVisible(es, 0, 1);
    assert !NoHiddenPage(w) by {
      assert Behind(w, 0, 1) && !PageVisible(w, es, 0);
    }
    var s1 := Act(w, Init(), answered);
    assert s1.pc == EndOfBucket;
    var s2 := Act(w, s1, answered);
    var s3 := Act(w, s2, answered);
    ExecCons(w, Init(), Advance(answered), Advances(2, answered));
    ExecCons(w, s1, Advance(answered), Advances(1, answered));
    ExecCons(w, s2, Advance(answered), Advances(0, answered));
    assert s3.pc == Done && s3.passed == {};
  }

  lemma {:induction false} SilenceMatchesNothing(w: World, s: State, n: nat)
    requires w.batch > 0 && s.matched == {}
    ensures Exec(w, s, Advances(n, {})).matched == {}
    decreases n
  {
    if n > 0 {
      assert Advances(n, {})[1..] == Advances(n - 1, {});
      SilenceMatchesNothing(w, Act(w, s, {}), n - 1);
    }
  }

  /** With peers that never answer, a cycle is done, every object has passed, and none was compared. */
  lemma SilentPeers()
    ensures var w := World([[Entry("a", true)]], 1); var s := Exec(w, Init(), Advances(4, {}));
            Proper(w) && s.pc == Done && AllPassed(w, s) && s.matched == {}
  {
    var w := World([[Entry("a", true)]], 1);
    var es := w.buckets[0];
    assert |es| == 1 && es[0].visible;
    assert SomeVisible(es, 0, 1);
    assert AtPage(w, Init());
    var s1 := Act(w, Init(), {});
    assert s1.pc == Saving("", false) && (0, 0) in s1.passed;
    var s2 := Act(w, s1, {});
    var s3 := Act(w, s2, {});
    var s4 := Act(w, s3, {});
    ExecCons(w, Init(), Advance({}), Advances(3, {}));
    ExecCons(w, s1, Advance({}), Advances(2, {}));
    ExecCons(w, s2, Advance({}), Advances(1, {}));
    ExecCons(w, s3, Advance({}), Advances(0, {}));
    SilenceMatchesNothing(w, Init(), 4);
  }

  // ----- stopping the scrubber inside a batch -----

  /** The scrubber is past entry `i` of bucket `b`. */
  predicate IsPast(w: World, s: State, b: nat, i: nat) {
    s.pc == Down || s.pc == Done || b < s.cp.idx ||
    (b == s.cp.idx < |w.buckets| &&
     (s.pc == EndOfBucket || i < Position(w.buckets[b], s.cp.lastKey)) &&
     (s.pc.Saving? && s.pc.more ==> i < Position(w.buckets[b], s.pc.next)))
  }

  /** The checkpoint is past entry `i` of bucket `b`. */
  predicate CheckpointPast(w: World, cp: Checkpoint, b: nat, i: nat) {
    b < cp.idx || (b == cp.idx < |w.buckets| && i < Position(w.buckets[b], cp.lastKey))
  }

  lemma ActStaysPast(w: World, s: State, b: nat, i: nat, answered: set<Node>)
    requires Proper(w) && (b, i) !in s.passed && IsPast(w, s, b, i)
    ensures (b, i) !in Act(w, s, answered).passed && IsPast(w, Act(w, s, answered), b, i)
  {
    if s.pc == Listing && AtPage(w, s) && b == s.cp.idx {
      var es := w.buckets[b];
      var start := Position(es, s.cp.lastKey);
      if PageEnd(w.batch, es, start) < |es| {
        NextPosition(w, es, start);
      }
    }
  }

  lemma StaysPast(w: World, s: State, e: Event, b: nat, i: nat)
    requires Proper(w) && (b, i) !in s.passed && IsPast(w, s, b, i) && (e.Crash? ==> CheckpointPast(w, e.at, b, i))
    ensures (b, i) !in Apply(w, s, e).passed && IsPast(w, Apply(w, s, e), b, i)
  {
    if e.Advance? {
      ActStaysPast(w, s, b, i, e.answered);
    }
  }

  /**
   * What the scrubber has gone past it does not come back to: whoever answers, over any stops, and
   * over crashes as long as the checkpoint that survives is past it too.
   */
  lemma {:induction false} NeverGoesBack(w: World, s: State, events: seq<Event>, b: nat, i: nat)
    requires Proper(w) && (b, i) !in s.passed && IsPast(w, s, b, i)
    requires forall k :: 0 <= k < |events| && events[k].Crash? ==> CheckpointPast(w, events[k].at, b, i)
    ensures (b, i) !in Exec(w, s, events).passed
    decreases |events|
  {
    if events != [] {
      StaysPast(w, s, events[0], b, i);
      NeverGoesBack(w, Apply(w, s, events[0]), events[1..], b, i);
    }
  }

  /** After a harmful stop, a resume at its checkpoint never passes the objects it skipped. */
  lemma HarmfulStopSkipsForGood(w: World, s: State, seen: set<(nat, Node)>, i: nat, events: seq<Event>)
    requires Proper(w) && Inv(w, s) && AtPage(w, s) && !Harmless(w, s, Cancel(seen))
    requires (s.cp.idx, i) in PageAt(w, s) && (s.cp.idx, i) !in s.passed
    requires forall k :: 0 <= k < |events| && events[k].Crash? ==> CheckpointPast(w, events[k].at, s.cp.idx, i)
    ensures var stopped := Apply(w, s, Cancel(seen));
            var resumed := Apply(w, stopped, Crash(stopped.cp));
            resumed.pc == Listing && CheckpointPast(w, stopped.cp, s.cp.idx, i) &&
            (s.cp.idx, i) !in Exec(w, resumed, events).passed
  {
    var stopped := Apply(w, s, Cancel(seen));
    NextBoundary(w, s.cp);
    NeverGoesBack(w, Apply(w, stopped, Crash(stopped.cp)), events, s.cp.idx, i);
  }

  /** After a listing that fails, the cycle goes on and never passes what it had still to list in the bucket. */
  lemma FailedListingSkipsForGood(w: World, s: State, i: nat, events: seq<Event>)
    requires Proper(w) && s.pc == Listing && s.cp.idx < |w.buckets| && (s.cp.idx, i) !in s.passed
    requires forall k :: 0 <= k < |events| && events[k].Crash? ==> CheckpointPast(w, events[k].at, s.cp.idx, i)
    ensures (s.cp.idx, i) !in Exec(w, Apply(w, s, ListFails), events).passed
  {
    NeverGoesBack(w, Apply(w, s, ListFails), events, s.cp.idx, i);
  }

  /** One bucket whose listing fails: the cycle is done and has passed nothing. */
  lemma FailedListingEndsCycle(w: World, answered: set<Node>)
    requires Proper(w) && |w.buckets| == 1
    ensures var s := Exec(w, Init(), [ListFails] + Advances(2, answered)); s.pc == Done && s.passed == {}
  {
    var s1 := Apply(w, Init(), ListFails);
    var s2 := Act(w, s1, answered);
    ExecCons(w, Init(), ListFails, Advances(2, answered));
    ExecCons(w, s1, Advance(answered), Advances(1, answered));
    ExecCons(w, s2, Advance(answered), Advances(0, answered));
  }

  /** Two objects, pages of one. */
  function TwoPages(): World {
    World([[Entry("a", true), Entry("b", true)]], 1)
  }

  lemma TwoPagesFacts()
    ensures var w := TwoPages(); var es := w.buckets[0];
            && Proper(w) && NoHiddenPage(w)
            && Position(es, "a") == 1 && SomeVisible(es, 0, 1) && SomeVisible(es, 1, 2)
  {
    var w := TwoPages();
    var es := w.buckets[0];
    assert |es| == 2 && es[0].visible && es[1].visible;
    assert Less("a", "b");
    LessIrreflexive("a");
    PositionAfterKey(es, 0);
    assert SomeVisible(es, 0, 1) && SomeVisible(es, 1, 2);
    forall k | 0 <= k <= 1 && Behind(w, k, 1) ensures PageVisible(w, es, k) {
      PageIndexIsSmall(w, k + 1);
    }
  }

  /** A stop during the first page, a resume, and a cycle recorded as done without object "a". */
  lemma StopInsideBatchSkipsObjects(peers: set<Node>)
    ensures var w := TwoPages();
            var run := [Cancel({})] + ([Crash(Checkpoint(0, "a"))] + Advances(4, peers));
            Proper(w) && NoHiddenPage(w) &&
            Exec(w, Init(), run).pc == Done && (0, 0) !in Exec(w, Init(), run).passed
  {
    var w := TwoPages();
    TwoPagesFacts();
    var s0 := Init();
    assert AtPage(w, s0);
    var s1 := Apply(w, s0, Cancel({}));
    assert s1.cp == Checkpoint(0, "a") && s1.passed == {};
    var s2 := Apply(w, s1, Crash(Checkpoint(0, "a")));
    ExecCons(w, s0, Cancel({}), [Crash(Checkpoint(0, "a"))] + Advances(4, peers));
    ExecCons(w, s1, Crash(Checkpoint(0, "a")), Advances(4, peers));
    LastPageAdvances(w, s2, peers);
  }

  lemma LastPageAdvances(w: World, s: State, peers: set<Node>)
    requires w == TwoPages() && s.pc == Listing && s.cp == Checkpoint(0, "a") && s.passed == {}
    ensures var t := Exec(w, s, Advances(4, peers)); t.pc == Done && (0, 0) !in t.passed
  {
    TwoPagesFacts();
    assert AtPage(w, s);
    var s1 := Act(w, s, peers);
    assert s1.pc == Saving("", false) && (0, 0) !in s1.passed;
    var s2 := Act(w, s1, peers);
    var s3 := Act(w, s2, peers);
    var s4 := Act(w, s3, peers);
    ExecCons(w, s, Advance(peers), Advances(3, peers));
    ExecCons(w, s1, Advance(peers), Advances(2, peers));
    ExecCons(w, s2, Advance(peers), Advances(1, peers));
    ExecCons(w, s3, Advance(peers), Advances(0, peers));
  }

  // ----- the scrubber itself -----

  /**
   * What happens around one processBatch: it completes with these peers answering, the process
   * dies before or after it, it is stopped inside, or no healthy peer is left.
   */
  datatype Fate =
    | Completes(answered: set<Node>) | KilledBefore | KilledAfter(answered: set<Node>)
    | Stopped(seen: set<(nat, Node)>) | PeersGone

  datatype Outcome = Finished | Killed | Cancelled | Aborted

  class AntiEntropyScrubber {
    const w: World
    var cp: Checkpoint
    ghost var log: seq<Event>

    ghost function Machine(): State
      requires w.batch > 0
      reads this
    {
      Exec(w, Init(), log)
    }

    ghost predicate Valid()
      reads this
    {
      Proper(w) && Machine().cp == cp
    }

    constructor (w: World)
      requires Proper(w)
      ensures Valid() && this.w == w && log == []
    {
      this.w := w;
      cp := Checkpoint(0, "");
      log := [];
    }

    ghost method Record(e: Event)
      requires w.batch > 0
      modifies this`log
      ensures log == old(log) + [e] && Machine() == Apply(w, old(Machine()), e)
    {
      ExecOneMore(w, Init(), log, e);
      log := log + [e];
    }

    /** loadCheckpoint on boot: whichever written checkpoint the store still has. */
    method Resume(stored: Checkpoint)
      requires Valid() && Machine().pc != Done && stored in Machine().saved
      modifies this
      ensures Valid() && cp == stored && Machine().pc == Listing && log == old(log) + [Crash(stored)]
    {
      cp := stored;
      Record(Crash(stored));
    }

    /** executeCycle: the bucket loop; `fate(n)` is what happens to the n-th batch, and `lists` says which listings work. */
    method ExecuteCycle(fate: nat -> Fate, lists: (nat, nat) -> bool) returns (r: Outcome)
      requires Valid() && Machine().pc == Listing
      modifies this
      ensures Valid() && old(log) <= log
      ensures r == Finished <==> Machine().pc == Done
      ensures r == Finished && HarmlessRun(w, Init(), log) ==> (AllPassed(w, Machine()) <==> NoHiddenPage(w))
      ensures forall p :: r == Finished && HarmlessRun(w, Init(), log) && AlwaysAnswers(w, Init(), log, p) ==>
              (AllMatched(w, Machine(), p) <==> NoHiddenPage(w))
      ensures (forall k: nat :: fate(k).Completes?) ==> r == Finished
    {
      var n := 0;
      while cp.idx < |w.buckets|
        invariant Valid() && Machine().pc == Listing && n >= 0 && old(log) <= log
        decreases |w.buckets| - cp.idx
      {
        r, n := ScanBucket(fate, lists, n);
        if r != Finished {
          return;
        }
        cp := cp.(lastKey := "");
        cp := cp.(idx := cp.idx + 1);
        Record(Advance({}));
      }
      Record(Advance({}));
      if HarmlessRun(w, Init(), log) {
        DoneCycleIsComplete(w, log);
        forall p | AlwaysAnswers(w, Init(), log, p) ensures AllMatched(w, Machine(), p) <==> NoHiddenPage(w) {
          DoneCycleComparesWith(w, log, p);
        }
      }
      r := Finished;
    }

    /** The page loop of one bucket; a listing that fails ends it. */
    method ScanBucket(fate: nat -> Fate, lists: (nat, nat) -> bool, n0: nat) returns (r: Outcome, n: nat)
      requires Valid() && Machine().pc == Listing && cp.idx < |w.buckets|
      modifies this
      ensures Valid() && cp.idx == old(cp.idx) && old(log) <= log
      ensures if r == Finished then Machine().pc == EndOfBucket else Machine().pc != Done
      ensures (forall k: nat :: fate(k).Completes?) ==> r == Finished
    {
      n := n0;
      var es, page := w.buckets[cp.idx], 0;
      while lists(cp.idx, page)
        invariant page >= 0 && Valid() && Machine().pc == Listing && cp.idx == old(cp.idx) && old(log) <= log
        decreases |es| - Position(es, cp.lastKey)
      {
        var at := Position(es, cp.lastKey);
        var end := PageEnd(w.batch, es, at);
        if !SomeVisible(es, at, end) {
          Record(Advance({}));
          return Finished, n;
        }
        var outcome := fate(n);
        n := n + 1;
        match outcome {
          case KilledBefore =>
            return Killed, n;
          case PeersGone =>
            Record(NoPeers);
            return Aborted, n;
          case Stopped(seen) =>
            cp := cp.(lastKey := NextMarker(w.batch, es, at));
            Record(Cancel(seen));
            return Cancelled, n;
          case KilledAfter(answered) =>
            Record(Advance(answered));
            return Killed, n;
          case Completes(answered) =>
            Record(Advance(answered));
            cp := cp.(lastKey := NextMarker(w.batch, es, at));
            Record(Advance({}));
            if end == |es| {
              return Finished, n;
            }
            NextPosition(w, es, at);
            page := page + 1;
        }
      }
      Record(ListFails);
      r := Finished;
    }
  }
}
