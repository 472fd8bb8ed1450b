// internal/cluster/ha_sync_worker.go: which sync jobs run, under concurrent Trigger
// calls, job starts and ends, failing statements and restarts of the process, next to the
// other writer of the table (internal/cluster/stale_reconciler.go).
module SyncJobs {
  import opened Options
  import opened Peers

  datatype JobStatus = Running | Done | Failed

  /** A row of ha_sync_jobs; its id is its index. */
  datatype Row = Row(node: Node, status: JobStatus)

  /**
   * `local` is this node and `running` the map under the lock.  `claims` are Trigger calls
   * between their locked section and the INSERT, `pending` jobs between INSERT and startJob,
   * `flight` the jobs whose goroutine is alive, and `delta` the passes of the stale reconciler.
   */
  datatype State = State(
    local: Node, rows: seq<Row>, running: set<Node>, claims: set<Node>,
    pending: set<nat>, flight: set<nat>, delta: set<nat>)

  datatype Event =
    | Claim(node: Node, read: bool)       // Trigger's locked section; `read` says whether the SELECT works
    | InsertFails(node: Node)             // the row cannot be created: the slot is given back
    | Insert(node: Node)                  // the row is created
    | Launch(id: nat)                     // startJob
    | Finish(id: nat, ok: bool)           // the goroutine records its result
    | Exit(id: nat)                       // the goroutine ends and frees the slot
    | DeltaBegins                         // reconcileObjects inserts a row for this node
    | DeltaEnds(id: nat, recorded: bool)  // it returns, having recorded its end or not
    | Reboot(found: set<nat>)             // the process restarts; Start reads these rows and finds their nodes

  /** The latest job of the node is recorded as done. */
  predicate LatestDone(rows: seq<Row>, n: Node) {
    exists id :: 0 <= id < |rows| && rows[id].node == n && rows[id].status == Done &&
      forall j :: id < j < |rows| ==> rows[j].node != n
  }

  predicate IsRunning(rows: seq<Row>, id: nat) {
    id < |rows| && rows[id].status == Running
  }

  /** Start: resume every running row that is found. */
  function Boot(local: Node, rows: seq<Row>, found: set<nat>): State {
    var ids := set id | id in found && IsRunning(rows, id);
    State(local, rows, set id | id in ids :: rows[id].node, {}, {}, ids, {})
  }

  function Apply(s: State, e: Event): State {
    match e
    case Claim(n, read) =>
      if n == s.local || n in s.running || (read && LatestDone(s.rows, n)) then s
      else s.(running := s.running + {n}, claims := s.claims + {n})
    case InsertFails(n) =>
      if n !in s.claims then s else s.(running := s.running - {n}, claims := s.claims - {n})
    case Insert(n) =>
      if n !in s.claims then s
      else s.(rows := s.rows + [Row(n, Running)], claims := s.claims - {n}, pending := s.pending + {|s.rows|})
    case Launch(id) =>
      if id !in s.pending || id >= |s.rows| then s
      else s.(running := s.running + {s.rows[id].node}, pending := s.pending - {id}, flight := s.flight + {id})
    case Finish(id, ok) =>
      if id !in s.flight || id >= |s.rows| then s
      else s.(rows := s.rows[id := s.rows[id].(status := if ok then Done else Failed)])
    case Exit(id) =>
      if id !in s.flight || id >= |s.rows| then s
      else s.(running := s.running - {s.rows[id].node}, flight := s.flight - {id})
    case DeltaBegins =>
      if Row(s.local, Done) !in s.rows then s
      else s.(rows := s.rows + [Row(s.local, Running)], delta := s.delta + {|s.rows|})
    case DeltaEnds(id, recorded) =>
      if id !in s.delta || id >= |s.rows| then s
      else
        var rows := if recorded then s.rows[id := s.rows[id].(status := Done)] else s.rows;
        s.(rows := rows, delta := s.delta - {id})
    case Reboot(found) => Boot(s.local, s.rows, found)
  }

  function Exec(s: State, events: seq<Event>): State
    decreases |events|
  {
    if events == [] then s else Exec(Apply(s, events[0]), events[1..])
  }

  lemma {:induction false} ExecOneMore(s: State, events: seq<Event>, e: Event)
    ensures Exec(s, events + [e]) == Apply(Exec(s, events), e)
    decreases |events|
  {
    if events == [] {
      assert [e][1..] == [] && events + [e] == [e];
    } else {
      assert (events + [e])[1..] == events[1..] + [e];
      ExecOneMore(Apply(s, events[0]), events[1..], e);
    }
  }

  /** Jobs that own their node's slot. */
  function Owners(s: State): set<nat> {
    s.pending + s.flight
  }

  predicate NoTwoInFlight(s: State) {
    forall i, j :: i in s.flight && j in s.flight && i < |s.rows| && j < |s.rows| && s.rows[i].node == s.rows[j].node ==> i == j
  }

  /** No node has two running rows among those found. */
  predicate Single(rows: seq<Row>, found: set<nat>) {
    forall i, j :: i in found && j in found && IsRunning(rows, i) && IsRunning(rows, j) && rows[i].node == rows[j].node ==> i == j
  }

  ghost predicate OneRunningRow(rows: seq<Row>) {
    forall i: nat, j: nat :: IsRunning(rows, i) && IsRunning(rows, j) && rows[i].node == rows[j].node ==> i == j
  }

  /** A slot is held by exactly one claim, pending job or live goroutine. */
  predicate SlotsOwned(s: State) {
    && (forall i :: i in Owners(s) ==> i < |s.rows| && s.rows[i].node in s.running && s.rows[i].node !in s.claims)
    && (forall i, j :: i in Owners(s) && j in Owners(s) && s.rows[i].node == s.rows[j].node ==> i == j)
    && s.claims <= s.running
    && s.pending !! s.flight
    && DeltaApart(s)
  }

  /** The stale reconciler's rows are this node's, and Trigger never touches those. */
  predicate DeltaApart(s: State) {
    && (forall i :: i in s.delta ==> i < |s.rows| && i !in Owners(s) && s.rows[i].node == s.local)
    && (forall i :: i in s.pending && i < |s.rows| ==> s.rows[i].node != s.local)
    && s.local !in s.claims
  }

  /** A job about to start is its node's latest, and it is not done; nor is the latest of a claimed node. */
  predicate StartsNotDone(s: State) {
    && (forall i :: i in s.pending ==> IsRunning(s.rows, i) && forall j :: i < j < |s.rows| ==> s.rows[j].node != s.rows[i].node)
    && (forall n :: n in s.claims ==> !LatestDone(s.rows, n))
  }

  lemma LatestDoneFrame(rows: seq<Row>, rows': seq<Row>, n: Node)
    requires LatestDone(rows', n) && |rows| <= |rows'|
    requires forall k :: |rows| <= k < |rows'| ==> rows'[k].node != n
    requires forall k :: 0 <= k < |rows| ==> rows'[k].node == rows[k].node && (rows[k].node == n ==> rows'[k] == rows[k])
    ensures LatestDone(rows, n)
  {
    var id :| 0 <= id < |rows'| && rows'[id].node == n && rows'[id].status == Done &&
      forall j :: id < j < |rows'| ==> rows'[j].node != n;
    assert id < |rows|;
    forall j | id < j < |rows| ensures rows[j].node != n { assert rows'[j].node != n; }
  }

  lemma LatestDoneKept(rows: seq<Row>, n: Node, m: Node)
    requires LatestDone(rows, m) && m != n
    ensures LatestDone(rows + [Row(n, Running)], m)
  {
    var id :| 0 <= id < |rows| && rows[id].node == m && rows[id].status == Done &&
      forall j :: id < j < |rows| ==> rows[j].node != m;
    var rows' := rows + [Row(n, Running)];
    assert rows'[id].node == m && rows'[id].status == Done;
  }

  // ----- one job per node -----

  /** A boot has two jobs in flight for a node exactly when two running rows it finds are that node's. */
  lemma BootDoubles(local: Node, rows: seq<Row>, found: set<nat>)
    ensures NoTwoInFlight(Boot(local, rows, found)) <==> Single(rows, found)
  {
    var s := Boot(local, rows, found);
    assert forall i: nat :: i in s.flight <==> i in found && IsRunning(rows, i);
  }

  lemma BootOwned(local: Node, rows: seq<Row>, found: set<nat>)
    requires Single(rows, found)
    ensures SlotsOwned(Boot(local, rows, found))
  {
  }

  lemma StepKeepsDeltaApart(s: State, e: Event)
    requires SlotsOwned(s) && !e.Reboot?
    ensures DeltaApart(Apply(s, e))
  {
  }

  lemma RowEventKeepsOwners(s: State, e: Event)
    requires SlotsOwned(s) && (e.Finish? || e.DeltaBegins? || e.DeltaEnds?)
    ensures SlotsOwned(Apply(s, e))
  {
    var t := Apply(s, e);
    StepKeepsDeltaApart(s, e);
    assert Owners(t) == Owners(s) && |s.rows| <= |t.rows|;
    assert forall i :: 0 <= i < |s.rows| ==> t.rows[i].node == s.rows[i].node;
  }

  lemma ClaimEventKeepsOwners(s: State, e: Event)
    requires SlotsOwned(s) && (e.Claim? || e.InsertFails? || e.Insert?)
    ensures SlotsOwned(Apply(s, e))
  {
    var t := Apply(s, e);
    StepKeepsDeltaApart(s, e);
    assert t.rows == s.rows ==> Owners(t) == Owners(s);
    assert t.rows != s.rows ==> Owners(t) == Owners(s) + {|s.rows|} && s.rows == t.rows[..|s.rows|];
  }

  lemma JobEventKeepsOwners(s: State, e: Event)
    requires SlotsOwned(s) && (e.Launch? || e.Exit?)
    ensures SlotsOwned(Apply(s, e))
  {
    var t := Apply(s, e);
    StepKeepsDeltaApart(s, e);
    assert e.Launch? || t == s ==> Owners(t) == Owners(s);
    assert e.Exit? && t != s ==> Owners(t) == Owners(s) - {e.id};
  }

  /** No step but a restart can put two jobs on one slot, whatever the statements return. */
  lemma StepKeepsOwners(s: State, e: Event)
    requires SlotsOwned(s) && !e.Reboot?
    ensures SlotsOwned(Apply(s, e))
  {
    if e.Finish? || e.DeltaBegins? || e.DeltaEnds? {
      RowEventKeepsOwners(s, e);
    } else if e.Launch? || e.Exit? {
      JobEventKeepsOwners(s, e);
    } else {
      ClaimEventKeepsOwners(s, e);
    }
  }

  /** At no point of the run are two jobs in flight for a node. */
  predicate AlwaysSingle(s: State, events: seq<Event>)
    decreases |events|
  {
    NoTwoInFlight(s) && (events == [] || AlwaysSingle(Apply(s, events[0]), events[1..]))
  }

  /** Every restart finds at most one running row of a node. */
  predicate RestartsSingle(s: State, events: seq<Event>)
    decreases |events|
  {
    events == [] ||
    ((events[0].Reboot? ==> Single(s.rows, events[0].found)) && RestartsSingle(Apply(s, events[0]), events[1..]))
  }

  lemma SingleStep(s: State, e: Event)
    requires SlotsOwned(s) && (e.Reboot? ==> Single(s.rows, e.found))
    ensures SlotsOwned(Apply(s, e))
  {
    if e.Reboot? {
      BootOwned(s.local, s.rows, e.found);
    } else {
      StepKeepsOwners(s, e);
    }
  }

  /**
   * Two jobs are in flight for a node at some point of a run exactly when some restart finds two
   * running rows of one node: concurrent triggers and failing statements alone never do it.
   */
  lemma {:induction false} SingleExactly(s: State, events: seq<Event>)
    requires SlotsOwned(s)
    ensures AlwaysSingle(s, events) <==> RestartsSingle(s, events)
    decreases |events|
  {
    if events != [] {
      var e, rest := events[0], events[1..];
      if e.Reboot? && !Single(s.rows, e.found) {
        BootDoubles(s.local, s.rows, e.found);
        assert !AlwaysSingle(Apply(s, e), rest);
      } else {
        SingleStep(s, e);
        SingleExactly(Apply(s, e), rest);
      }
    }
  }

  // ----- no slot is lost -----

  predicate HeldBy(s: State, n: Node) {
    n in s.claims || exists i :: i in Owners(s) && i < |s.rows| && s.rows[i].node == n
  }

  /** A slot is taken only by a claim, a pending job or a live goroutine of its node. */
  ghost predicate NoneLost(s: State) {
    forall n :: n in s.running ==> HeldBy(s, n)
  }

  lemma BootLosesNone(local: Node, rows: seq<Row>, found: set<nat>)
    ensures NoneLost(Boot(local, rows, found))
  {
    var t := Boot(local, rows, found);
    forall n | n in t.running ensures HeldBy(t, n) {
      var id :| id in t.flight && t.rows[id].node == n;
      assert id in Owners(t);
    }
  }

  lemma HolderStays(s: State, e: Event, n: Node)
    requires SlotsOwned(s) && HeldBy(s, n) && n in Apply(s, e).running && !e.Reboot?
    ensures HeldBy(Apply(s, e), n)
  {
    var t := Apply(s, e);
    if n in s.claims && n !in t.claims {
      assert t.rows[|s.rows|].node == n && |s.rows| in Owners(t);
    } else if n !in t.claims {
      var i :| i in Owners(s) && i < |s.rows| && s.rows[i].node == n;
      assert i in Owners(t) && t.rows[i].node == n;
    }
  }

  lemma NoneLostStep(s: State, e: Event)
    requires SlotsOwned(s) && NoneLost(s)
    ensures NoneLost(Apply(s, e))
  {
    var t := Apply(s, e);
    if e.Reboot? {
      BootLosesNone(s.local, s.rows, e.found);
    } else {
      forall n | n in t.running && n !in t.claims ensures HeldBy(t, n) {
        assert n in s.running;
        HolderStays(s, e, n);
      }
    }
  }

  /**
   * Over any run with single restarts, a node's slot is taken exactly while it has a claim, a pending
   * job or a live goroutine: whatever fails, none is left behind.
   */
  lemma {:induction false} SlotExactly(s: State, events: seq<Event>, n: Node)
    requires SlotsOwned(s) && NoneLost(s) && RestartsSingle(s, events)
    ensures n in Exec(s, events).running <==> HeldBy(Exec(s, events), n)
    decreases |events|
  {
    if events == [] {
      assert n in s.running ==> HeldBy(s, n);
    } else {
      SingleStep(s, events[0]);
      NoneLostStep(s, events[0]);
      SlotExactly(Apply(s, events[0]), events[1..], n);
    }
  }

  /** A claim whose row cannot be created leaves no trace. */
  lemma FailedInsertUndoesClaim(s: State, n: Node, read: bool)
    requires s.claims <= s.running && n !in s.running
    ensures Exec(s, [Claim(n, read), InsertFails(n)]) == s
  {
    var t := Apply(s, Claim(n, read));
    ExecCons(s, Claim(n, read), [InsertFails(n)]);
    ExecCons(t, InsertFails(n), []);
    assert n !in s.claims;
    assert (s.running + {n}) - {n} == s.running && (s.claims + {n}) - {n} == s.claims;
  }

  /** Even when two jobs of a node were running and one has given the slot away, a job that starts takes it. */
  lemma LaunchTakesSlot(s: State, id: nat)
    requires id in s.pending && id < |s.rows|
    ensures var t := Apply(s, Launch(id)); s.rows[id].node in t.running && id in t.flight && id !in t.pending
  {
  }

  // ----- no job past a done one: reserving a slot -----

  /** Trigger reserves a slot past a done job because it could not read the job's status. */
  predicate BlindClaim(s: State, e: Event) {
    e.Claim? && !e.read && e.node != s.local && e.node !in s.running && LatestDone(s.rows, e.node)
  }

  lemma ClaimsStayOpen(s: State, e: Event, n: Node)
    requires SlotsOwned(s) && StartsNotDone(s) && !BlindClaim(s, e) && n in Apply(s, e).claims
    ensures !LatestDone(Apply(s, e).rows, n)
  {
    var t := Apply(s, e);
    if n in s.claims && LatestDone(t.rows, n) {
      LatestDoneFrame(s.rows, t.rows, n);
    }
  }

  lemma PendingStaysLatest(s: State, e: Event, i: nat)
    requires SlotsOwned(s) && StartsNotDone(s) && i in Apply(s, e).pending
    ensures var t := Apply(s, e);
            IsRunning(t.rows, i) && forall j :: i < j < |t.rows| ==> t.rows[j].node != t.rows[i].node
  {
    if i in s.pending {
      assert s.rows[i].node !in s.claims;
    }
  }

  lemma KeepsStarts(s: State, e: Event)
    requires SlotsOwned(s) && StartsNotDone(s) && !BlindClaim(s, e)
    ensures StartsNotDone(Apply(s, e))
  {
    var t := Apply(s, e);
    forall n | n in t.claims ensures !LatestDone(t.rows, n) {
      ClaimsStayOpen(s, e, n);
    }
    forall i | i in t.pending
      ensures IsRunning(t.rows, i) && forall j :: i < j < |t.rows| ==> t.rows[j].node != t.rows[i].node
    {
      PendingStaysLatest(s, e, i);
    }
  }

  /** A step reserves a slot past a done job exactly when it is a claim whose status read failed. */
  lemma ClaimPastDone(s: State, e: Event)
    requires SlotsOwned(s) && StartsNotDone(s)
    ensures StartsNotDone(Apply(s, e)) <==> !BlindClaim(s, e)
  {
    if BlindClaim(s, e) {
      assert e.node in Apply(s, e).claims;
    } else {
      KeepsStarts(s, e);
    }
  }

  // ----- no job past a done one: starting it -----

  /** A restart finds a running row of a node whose latest job is done. */
  predicate RestartsPast(s: State, e: Event) {
    e.Reboot? && exists id :: id in e.found && IsRunning(s.rows, id) && LatestDone(s.rows, s.rows[id].node)
  }

  /** The step starts a job for a node whose latest job is done: a new one, or one that is resumed. */
  predicate StartsPast(s: State, e: Event) {
    (e.Insert? && e.node in s.claims && LatestDone(s.rows, e.node)) || RestartsPast(s, e)
  }

  predicate NeverStartsPast(s: State, events: seq<Event>)
    decreases |events|
  {
    events == [] || (!StartsPast(s, events[0]) && NeverStartsPast(Apply(s, events[0]), events[1..]))
  }

  /** Which claims are blind, by what has happened to them. */
  function BlindAfter(s: State, blind: set<Node>, e: Event): set<Node> {
    match e
    case Claim(n, _) => if BlindClaim(s, e) then blind + {n} else blind
    case InsertFails(n) => blind - {n}
    case Insert(n) => blind - {n}
    case Reboot(_) => {}
    case _ => blind
  }

  /** No blind claim gets its row, and no restart finds a running row of a node that is done. */
  predicate NoBlindStart(s: State, blind: set<Node>, events: seq<Event>)
    decreases |events|
  {
    events == [] ||
    (!(events[0].Insert? && events[0].node in blind) && !RestartsPast(s, events[0]) &&
     NoBlindStart(Apply(s, events[0]), BlindAfter(s, blind, events[0]), events[1..]))
  }

  /** The blind claims are those of done nodes. */
  predicate BlindKnown(s: State, blind: set<Node>) {
    blind <= s.claims && forall n :: n in s.claims ==> (n in blind <==> LatestDone(s.rows, n))
  }

  lemma LatestDoneSame(rows: seq<Row>, rows': seq<Row>, n: Node)
    requires |rows| <= |rows'| && forall k :: |rows| <= k < |rows'| ==> rows'[k].node != n
    requires forall k :: 0 <= k < |rows| ==> rows'[k].node == rows[k].node && (rows[k].node == n ==> rows'[k] == rows[k])
    ensures LatestDone(rows, n) <==> LatestDone(rows', n)
  {
    if LatestDone(rows', n) {
      LatestDoneFrame(rows, rows', n);
    }
    if LatestDone(rows, n) {
      var id :| 0 <= id < |rows| && rows[id].node == n && rows[id].status == Done &&
        forall j :: id < j < |rows| ==> rows[j].node != n;
      assert rows'[id].node == n && rows'[id].status == Done;
    }
  }

  /** While a node is claimed nothing happens to its rows. */
  lemma ClaimedRowsStay(s: State, e: Event, n: Node)
    requires SlotsOwned(s) && !e.Reboot? && n in s.claims && n in Apply(s, e).claims
    ensures LatestDone(s.rows, n) <==> LatestDone(Apply(s, e).rows, n)
  {
    LatestDoneSame(s.rows, Apply(s, e).rows, n);
  }

  lemma BlindStaysKnown(s: State, blind: set<Node>, e: Event)
    requires SlotsOwned(s) && BlindKnown(s, blind)
    ensures BlindKnown(Apply(s, e), BlindAfter(s, blind, e))
  {
    var t, after := Apply(s, e), BlindAfter(s, blind, e);
    if !e.Reboot? {
      forall n | n in t.claims ensures n in after <==> LatestDone(t.rows, n) {
        if n in s.claims {
          ClaimedRowsStay(s, e, n);
        }
      }
    }
  }

  /**
   * Over any run with single restarts: no job starts past a done one exactly when no blind claim gets
   * its row and no restart finds a running row of a done node.
   */
  lemma {:induction false} StartsExactly(s: State, blind: set<Node>, events: seq<Event>)
    requires SlotsOwned(s) && BlindKnown(s, blind) && RestartsSingle(s, events)
    ensures NeverStartsPast(s, events) <==> NoBlindStart(s, blind, events)
    decreases |events|
  {
    if events != [] {
      SingleStep(s, events[0]);
      BlindStaysKnown(s, blind, events[0]);
      StartsExactly(Apply(s, events[0]), BlindAfter(s, blind, events[0]), events[1..]);
    }
  }

  lemma {:induction false} NoRestartIsSingle(s: State, events: seq<Event>)
    requires forall k :: 0 <= k < |events| ==> !events[k].Reboot?
    ensures RestartsSingle(s, events)
    decreases |events|
  {
    if events != [] {
      NoRestartIsSingle(Apply(s, events[0]), events[1..]);
    }
  }

  /** The process before it starts: the table is all there is. */
  function Stopped(local: Node, rows: seq<Row>): State {
    State(local, rows, {}, {}, {}, {}, {})
  }

  /**
   * A boot that finds at most one running row per node, and then any interleaving of Trigger calls,
   * starts and ends: two jobs are never in flight for a node, even if statements fail; and none
   * starts past a done one exactly when the boot finds no running row of a done node and no blind
   * claim gets its row.
   */
  lemma OneBoot(local: Node, rows: seq<Row>, found: set<nat>, events: seq<Event>)
    requires Single(rows, found)
    requires forall k :: 0 <= k < |events| ==> !events[k].Reboot?
    ensures var s, run := Stopped(local, rows), [Reboot(found)] + events;
            AlwaysSingle(s, run) && (NeverStartsPast(s, run) <==> NoBlindStart(s, {}, run))
  {
    var s, run := Stopped(local, rows), [Reboot(found)] + events;
    assert run[1..] == events;
    NoRestartIsSingle(Apply(s, run[0]), events);
    SingleExactly(s, run);
    StartsExactly(s, {}, run);
  }

  lemma ExecCons(s: State, e: Event, rest: seq<Event>)
    ensures Exec(s, [e] + rest) == Exec(Apply(s, e), rest)
  {
    assert ([e] + rest)[1..] == rest;
  }

  /** A run past a done job: the status of a finished node cannot be read, and it is synced again. */
  lemma StartsPastDone(local: Node, n: Node)
    requires n != local
    ensures var s := Exec(Boot(local, [Row(n, Done)], {}), [Claim(n, false), Insert(n), Launch(1)]);
            s.rows == [Row(n, Done), Row(n, Running)] && 1 in s.flight
  {
    var s0 := Boot(local, [Row(n, Done)], {});
    var s1 := Apply(s0, Claim(n, false));
    var s2 := Apply(s1, Insert(n));
    var s3 := Apply(s2, Launch(1));
    assert s2.rows == [Row(n, Done), Row(n, Running)];
    ExecCons(s0, Claim(n, false), [Insert(n), Launch(1)]);
    ExecCons(s1, Insert(n), [Launch(1)]);
    ExecCons(s2, Launch(1), []);
  }

  /**
   * The other way: a job cancelled with its request leaves its row running, the next one finishes,
   * and a restart resumes the old one.  Every status was read.
   */
  lemma RestartsPastDone(local: Node, n: Node)
    requires n != local
    ensures var first := Exec(Stopped(local, []), [Claim(n, true), Insert(n), Launch(0), Exit(0)]);
            var second := Exec(first, [Claim(n, true), Insert(n), Launch(1), Finish(1, true)]);
            var s := Apply(second, Exit(1));
            && s == State(local, [Row(n, Running), Row(n, Done)], {}, {}, {}, {}, {})
            && Single(s.rows, {0}) && StartsPast(s, Reboot({0})) && 0 in Apply(s, Reboot({0})).flight
  {
    OneJob(Stopped(local, []), n);
    var first := Apply(AfterLaunch(Stopped(local, []), n), Exit(0));
    ExecCons4(Stopped(local, []), Claim(n, true), Insert(n), Launch(0), Exit(0));
    assert first == Stopped(local, [Row(n, Running)]);
    NotDone(n);
    OneJob(first, n);
    ExecCons4(first, Claim(n, true), Insert(n), Launch(1), Finish(1, true));
    var done := Apply(AfterLaunch(first, n), Finish(1, true));
    assert done.rows == [Row(n, Running), Row(n, Done)];
    assert LatestDone(done.rows, n) by { assert done.rows[1].status == Done; }
  }

  lemma NotDone(n: Node)
    ensures !LatestDone([Row(n, Running)], n)
  {
  }

  /** A table with no claims and no jobs, after one job has been launched. */
  function AfterLaunch(s: State, n: Node): State {
    s.(rows := s.rows + [Row(n, Running)], running := {n}, flight := {|s.rows|})
  }

  lemma OneJob(s: State, n: Node)
    requires s == Stopped(s.local, s.rows) && n != s.local && !LatestDone(s.rows, n)
    ensures Apply(Apply(Apply(s, Claim(n, true)), Insert(n)), Launch(|s.rows|)) == AfterLaunch(s, n)
  {
    var s1 := Apply(s, Claim(n, true));
    assert s1 == s.(running := {n}, claims := {n});
    var s2 := Apply(s1, Insert(n));
    assert s2 == s.(rows := s.rows + [Row(n, Running)], running := {n}, pending := {|s.rows|});
    assert s2.rows[|s.rows|].node == n;
  }

  lemma ExecCons4(s: State, a: Event, b: Event, c: Event, d: Event)
    ensures Exec(s, [a, b, c, d]) == Apply(Apply(Apply(Apply(s, a), b), c), d)
  {
    ExecCons(s, a, [b, c, d]);
    ExecCons(Apply(s, a), b, [c, d]);
    ExecCons(Apply(Apply(s, a), b), c, [d]);
    ExecCons(Apply(Apply(Apply(s, a), b), c), d, []);
  }

  // ----- what a result is worth -----

  /** The result the step records for the job, if it records one. */
  function Recorded(s: State, e: Event, id: nat): Option<JobStatus> {
    match e
    case Finish(i, ok) => if i == id && id in s.flight then Some(if ok then Done else Failed) else None
    case DeltaEnds(i, recorded) => if i == id && id in s.delta && recorded then Some(Done) else None
    case _ => None
  }

  /** The last result recorded for the job over the run. */
  function LastRecorded(s: State, events: seq<Event>, id: nat): Option<JobStatus>
    decreases |events|
  {
    if events == [] then None
    else
      var later := LastRecorded(Apply(s, events[0]), events[1..], id);
      if later.Some? then later else Recorded(s, events[0], id)
  }

  /** Over any run a row keeps its node, and its status is the last result recorded for it: nothing else writes it. */
  lemma {:induction false} StatusExactly(s: State, events: seq<Event>, id: nat)
    requires id < |s.rows|
    ensures var rows, last := Exec(s, events).rows, LastRecorded(s, events, id);
            id < |rows| && rows[id] == Row(s.rows[id].node, if last.Some? then last.value else s.rows[id].status)
    decreases |events|
  {
    if events != [] {
      StatusExactly(Apply(s, events[0]), events[1..], id);
    }
  }

  /** Nobody works on the job any more. */
  predicate Ended(s: State, id: nat) {
    id < |s.rows| && id !in Owners(s) && id !in s.delta
  }

  lemma {:induction false} EndedIsFinal(s: State, events: seq<Event>, id: nat)
    requires Ended(s, id) && forall k :: 0 <= k < |events| ==> !events[k].Reboot?
    ensures id < |Exec(s, events).rows| && Exec(s, events).rows[id] == s.rows[id]
    decreases |events|
  {
    if events != [] {
      EndedIsFinal(Apply(s, events[0]), events[1..], id);
    }
  }

  /** A goroutine or a pass that has ended never touches its row again, until a restart. */
  lemma EndIsFinal(s: State, e: Event, events: seq<Event>)
    requires SlotsOwned(s) && ((e.Exit? && e.id in s.flight) || (e.DeltaEnds? && e.id in s.delta)) && e.id < |s.rows|
    requires forall k :: 0 <= k < |events| ==> !events[k].Reboot?
    ensures var rows := Exec(Apply(s, e), events).rows;
            e.id < |rows| &&
            rows[e.id] == if e.DeltaEnds? && e.recorded then s.rows[e.id].(status := Done) else s.rows[e.id]
  {
    EndedIsFinal(Apply(s, e), events, e.id);
  }

  /** The job is its node's latest and has this status; the node's slot is taken exactly as long as the job lives. */
  predicate Concluded(s: State, id: nat, r: Row) {
    && SlotsOwned(s) && id < |s.rows| && s.rows[id] == r && r.node != s.local && r.node !in s.claims
    && (forall j :: id < j < |s.rows| ==> s.rows[j].node != r.node)
    && (r.node in s.running <==> id in s.flight)
  }

  /** Neither a restart nor another result for the job nor a claim of its node. */
  predicate LeavesAlone(e: Event, id: nat, n: Node) {
    !e.Reboot? && !(e.Finish? && e.id == id) && !(e.Claim? && e.node == n)
  }

  lemma ConcludedStays(s: State, id: nat, r: Row, e: Event)
    requires Concluded(s, id, r) && LeavesAlone(e, id, r.node)
    ensures Concluded(Apply(s, e), id, r)
  {
    StepKeepsOwners(s, e);
  }

  lemma {:induction false} ConcludedRuns(s: State, id: nat, r: Row, events: seq<Event>)
    requires Concluded(s, id, r) && forall k :: 0 <= k < |events| ==> LeavesAlone(events[k], id, r.node)
    ensures Concluded(Exec(s, events), id, r)
    decreases |events|
  {
    if events != [] {
      ConcludedStays(s, id, r, events[0]);
      ConcludedRuns(Apply(s, events[0]), id, r, events[1..]);
    }
  }

  lemma FinishConcludes(s: State, id: nat, ok: bool)
    requires SlotsOwned(s) && id in s.flight && id < |s.rows| && s.rows[id].node != s.local
    requires forall j :: id < j < |s.rows| ==> s.rows[j].node != s.rows[id].node
    ensures Concluded(Apply(s, Finish(id, ok)), id, Row(s.rows[id].node, if ok then Done else Failed))
  {
    StepKeepsOwners(s, Finish(id, ok));
  }

  /**
   * Once the latest job of a node has recorded its result, and whatever happens to other nodes in
   * between, the next Trigger that reads the status takes the node's slot exactly when the result was a
   * failure and the job has ended.
   */
  lemma RetriedExactly(s: State, id: nat, ok: bool, events: seq<Event>)
    requires SlotsOwned(s) && id in s.flight && id < |s.rows| && s.rows[id].node != s.local
    requires forall j :: id < j < |s.rows| ==> s.rows[j].node != s.rows[id].node
    requires forall k :: 0 <= k < |events| ==> LeavesAlone(events[k], id, s.rows[id].node)
    ensures var n, t := s.rows[id].node, Exec(Apply(s, Finish(id, ok)), events);
            n in Apply(t, Claim(n, true)).claims <==> !ok && id !in t.flight
  {
    var n := s.rows[id].node;
    var r := Row(n, if ok then Done else Failed);
    FinishConcludes(s, id, ok);
    ConcludedRuns(Apply(s, Finish(id, ok)), id, r, events);
    var t := Exec(Apply(s, Finish(id, ok)), events);
    assert t.rows[id] == r;
    assert LatestDone(t.rows, n) <==> ok;
  }

  // ----- which runs restart with single rows -----

  /** The step adds a running row to a node that has one. */
  predicate AddsSecond(s: State, e: Event) {
    || (e.Insert? && e.node in s.claims && Row(e.node, Running) in s.rows)
    || (e == DeltaBegins && Row(s.local, Done) in s.rows && Row(s.local, Running) in s.rows)
  }

  /** Two running rows for a node come about in two ways only, one for each writer of the table. */
  lemma SecondRunningRow(s: State, e: Event)
    requires SlotsOwned(s) && OneRunningRow(s.rows)
    ensures OneRunningRow(Apply(s, e).rows) <==> !AddsSecond(s, e)
  {
    var t := Apply(s, e);
    if AddsSecond(s, e) {
      var n := if e.Insert? then e.node else s.local;
      var id :| 0 <= id < |s.rows| && s.rows[id] == Row(n, Running);
      assert IsRunning(t.rows, id) && IsRunning(t.rows, |s.rows|);
    }
  }

  /**
   * Every pass and every goroutine that ends has recorded it, a pass begins only when this node
   * has no running row, and a restart finds every running row.
   */
  ghost predicate Orderly(s: State, e: Event) {
    match e
    case Exit(id) => id in s.flight ==> !IsRunning(s.rows, id)
    case DeltaBegins => Row(s.local, Running) !in s.rows
    case DeltaEnds(_, recorded) => recorded
    case Reboot(found) => forall id: nat :: IsRunning(s.rows, id) ==> id in found
    case _ => true
  }

  ghost predicate OrderlyRun(s: State, events: seq<Event>)
    decreases |events|
  {
    events == [] || (Orderly(s, events[0]) && OrderlyRun(Apply(s, events[0]), events[1..]))
  }

  /** Every running row belongs to a job or a pass that is alive or about to be. */
  ghost predicate NoOrphans(s: State) {
    forall id: nat :: IsRunning(s.rows, id) ==> id in Owners(s) || id in s.delta
  }

  lemma OrderlyStep(s: State, e: Event)
    requires SlotsOwned(s) && NoOrphans(s) && OneRunningRow(s.rows) && Orderly(s, e)
    ensures var t := Apply(s, e); SlotsOwned(t) && NoOrphans(t) && OneRunningRow(t.rows)
  {
    SingleStep(s, e);
    SecondRunningRow(s, e);
  }

  /** Orderly runs, over any number of restarts, never have two jobs in flight for a node. */
  lemma {:induction false} AnyRestarts(s: State, events: seq<Event>)
    requires SlotsOwned(s) && NoOrphans(s) && OneRunningRow(s.rows) && OrderlyRun(s, events)
    ensures AlwaysSingle(s, events) && OneRunningRow(Exec(s, events).rows)
    decreases |events|
  {
    if events != [] {
      OrderlyStep(s, events[0]);
      AnyRestarts(Apply(s, events[0]), events[1..]);
    }
  }

  /** A running row is its node's latest. */
  ghost predicate RunningIsLatest(rows: seq<Row>) {
    forall id: nat, j :: IsRunning(rows, id) && id < j < |rows| ==> rows[j].node != rows[id].node
  }

  lemma LatestStep(s: State, e: Event)
    requires SlotsOwned(s) && NoOrphans(s) && RunningIsLatest(s.rows) && Orderly(s, e)
    ensures RunningIsLatest(Apply(s, e).rows)
  {
    var t := Apply(s, e);
    forall id: nat, j | IsRunning(t.rows, id) && id < j < |t.rows| ensures t.rows[j].node != t.rows[id].node {
      if id < |s.rows| {
        assert IsRunning(s.rows, id);
      }
    }
  }

  lemma LatestIsNotDone(rows: seq<Row>, id: nat)
    requires RunningIsLatest(rows) && IsRunning(rows, id)
    ensures !LatestDone(rows, rows[id].node)
  {
  }

  /** Orderly runs whose status reads work never start a job past a done one, over any restarts. */
  lemma {:induction false} AnyRestartsStartWell(s: State, events: seq<Event>)
    requires SlotsOwned(s) && NoOrphans(s) && RunningIsLatest(s.rows) && BlindKnown(s, {}) && OrderlyRun(s, events)
    requires forall k :: 0 <= k < |events| && events[k].Claim? ==> events[k].read
    ensures NeverStartsPast(s, events)
    decreases |events|
  {
    if events != [] {
      var e := events[0];
      if e.Reboot? {
        forall id | id in e.found && IsRunning(s.rows, id) ensures !LatestDone(s.rows, s.rows[id].node) {
          LatestIsNotDone(s.rows, id);
        }
      }
      OrderlyStep(s, e);
      LatestStep(s, e);
      BlindStaysKnown(s, {}, e);
      AnyRestartsStartWell(Apply(s, e), events[1..]);
    }
  }

  function WithoutDelta(events: seq<Event>): seq<Event> {
    if events == [] then []
    else (if events[0].DeltaBegins? || events[0].DeltaEnds? then [] else [events[0]]) + WithoutDelta(events[1..])
  }

  /**
   * The stale reconciler only runs once this node has a done row, and nothing else writes one:
   * from a table with no row of this node it never writes any, over any run.
   */
  lemma {:induction false} DeltaNeverActs(s: State, events: seq<Event>)
    requires s.local !in s.claims && s.delta == {} && forall i :: 0 <= i < |s.rows| ==> s.rows[i].node != s.local
    ensures Exec(s, events) == Exec(s, WithoutDelta(events))
    decreases |events|
  {
    if events != [] {
      DeltaNeverActs(Apply(s, events[0]), events[1..]);
      if events[0].DeltaBegins? || events[0].DeltaEnds? {
        assert WithoutDelta(events) == WithoutDelta(events[1..]);
      } else {
        ExecCons(s, events[0], WithoutDelta(events[1..]));
      }
    }
  }

  // ----- runs that are not orderly -----

  function AfterCancelledJob(local: Node, n: Node): State {
    State(local, [Row(n, Running)], {}, {}, {}, {}, {})
  }

  /** A job whose context is cancelled ends and leaves its row running. */
  lemma CancelledJobLeavesRow(local: Node, n: Node)
    requires n != local
    ensures Exec(Boot(local, [], {}), [Claim(n, true), Insert(n), Launch(0), Exit(0)]) == AfterCancelledJob(local, n)
  {
    var s0 := Boot(local, [], {});
    var s1 := Apply(s0, Claim(n, true));
    var s2 := Apply(s1, Insert(n));
    var s3 := Apply(s2, Launch(0));
    assert s0 == State(local, [], {}, {}, {}, {}, {});
    assert s1 == State(local, [], {n}, {n}, {}, {}, {});
    assert s2 == State(local, [Row(n, Running)], {n}, {}, {0}, {}, {});
    assert s3 == State(local, [Row(n, Running)], {n}, {}, {}, {0}, {});
    ExecCons(s0, Claim(n, true), [Insert(n), Launch(0), Exit(0)]);
    ExecCons(s1, Insert(n), [Launch(0), Exit(0)]);
    ExecCons(s2, Launch(0), [Exit(0)]);
    ExecCons(s3, Exit(0), []);
  }

  lemma TwoRowsDouble(s: State, i: nat, j: nat)
    requires i != j && IsRunning(s.rows, i) && IsRunning(s.rows, j) && s.rows[i].node == s.rows[j].node
    ensures !NoTwoInFlight(Exec(s, [Reboot({i, j})]))
  {
    BootDoubles(s.local, s.rows, {i, j});
    ExecCons(s, Reboot({i, j}), []);
  }

  /** The next Trigger adds a second row, and a restart runs both. */
  lemma CancelledJobDoubles(local: Node, n: Node)
    requires n != local
    ensures !NoTwoInFlight(Exec(AfterCancelledJob(local, n), [Claim(n, true), Insert(n), Reboot({0, 1})]))
  {
    var s0 := AfterCancelledJob(local, n);
    var s1 := Apply(s0, Claim(n, true));
    var s2 := Apply(s1, Insert(n));
    assert s2.rows == [Row(n, Running), Row(n, Running)];
    ExecCons(s0, Claim(n, true), [Insert(n), Reboot({0, 1})]);
    ExecCons(s1, Insert(n), [Reboot({0, 1})]);
    TwoRowsDouble(s2, 0, 1);
  }

  /** Two cancelled passes of the stale reconciler do the same to this node itself. */
  lemma CancelledDeltaDoubles(local: Node)
    ensures !NoTwoInFlight(Exec(Boot(local, [Row(local, Done)], {}),
              [DeltaBegins, DeltaEnds(1, false), DeltaBegins, Reboot({1, 2})]))
  {
    var s0 := Boot(local, [Row(local, Done)], {});
    var s1 := Apply(s0, DeltaBegins);
    var s2 := Apply(s1, DeltaEnds(1, false));
    var s3 := Apply(s2, DeltaBegins);
    assert s0.rows == [Row(local, Done)] && s0.rows[0] in s0.rows;
    assert s1.rows == [Row(local, Done), Row(local, Running)] && s1.rows[0] in s1.rows;
    assert s3.rows == [Row(local, Done), Row(local, Running), Row(local, Running)];
    ExecCons(s0, DeltaBegins, [DeltaEnds(1, false), DeltaBegins, Reboot({1, 2})]);
    ExecCons(s1, DeltaEnds(1, false), [DeltaBegins, Reboot({1, 2})]);
    ExecCons(s2, DeltaBegins, [Reboot({1, 2})]);
    TwoRowsDouble(s3, 1, 2);
  }

  /** Nodes that are being synced or are done. */
  predicate Served(running: set<Node>, rows: seq<Row>, ns: seq<Node>) {
    forall n :: n in ns ==> n in running || LatestDone(rows, n)
  }

  /** A new job for one node leaves the others served. */
  lemma OneMoreServed(running: set<Node>, rows: seq<Row>, running': set<Node>, rows': seq<Row>, ns: seq<Node>, n: Node)
    requires Served(running, rows, ns) && running <= running' && (n in running' || LatestDone(rows', n))
    requires rows' == rows || rows' == rows + [Row(n, Running)]
    ensures Served(running', rows', ns + [n])
  {
    forall k | k in ns && k != n && LatestDone(rows, k) ensures LatestDone(rows', k) {
      LatestDoneKept(rows, n, k);
    }
  }

  // ----- the worker itself -----

  class HASyncWorker {
    const localID: Node
    var running: set<Node>
    var rows: seq<Row>
    ghost var log: seq<Event>
    ghost var boot: State
    ghost var m: State

    ghost predicate Valid()
      reads this
    {
      && m == Exec(boot, log) && (forall k :: 0 <= k < |log| ==> !log[k].Reboot?)
      && m.local == localID && m.running == running && m.rows == rows
    }

    /** NewHASyncWorker and Start: resume every running row that is found. */
    constructor (localID: Node, table: seq<Row>, found: set<nat>)
      ensures Valid() && this.localID == localID && boot == Boot(localID, table, found) && log == []
      ensures rows == table && (NoTwoInFlight(m) <==> Single(table, found))
    {
      this.localID := localID;
      rows, running := table, {};
      log, boot, m := [], Boot(localID, table, found), Boot(localID, table, found);
      new;
      for i := 0 to |rows|
        invariant rows == table && this.localID == localID && log == [] && m == boot == Boot(localID, table, found)
        invariant running == set id | id in found && id < i && IsRunning(table, id) :: table[id].node
      {
        if rows[i].status == Running && i in found {
          running := running + {rows[i].node};
        }
      }
      assert running == m.running;
      BootDoubles(localID, table, found);
    }

    ghost method Record(e: Event)
      requires m == Exec(boot, log) && !e.Reboot? && forall k :: 0 <= k < |log| ==> !log[k].Reboot?
      modifies this`log, this`m
      ensures m == Exec(boot, log) && log == old(log) + [e] && m == Apply(old(m), e)
      ensures old(SlotsOwned(m)) ==> SlotsOwned(m)
      ensures old(SlotsOwned(m) && StartsNotDone(m)) && !BlindClaim(old(m), e) ==> StartsNotDone(m)
    {
      ExecOneMore(boot, log, e);
      if SlotsOwned(m) {
        StepKeepsOwners(m, e);
        if StartsNotDone(m) && !BlindClaim(m, e) {
          KeepsStarts(m, e);
        }
      }
      log, m := log + [e], Apply(m, e);
    }

    /** The INSERT and startJob for a node whose slot is reserved. */
    method StartJob(n: Node)
      requires Valid() && n in m.claims
      modifies this`running, this`rows, this`log, this`m
      ensures Valid() && old(log) <= log
      ensures running == old(running) + {n} && rows == old(rows) + [Row(n, Running)] && |old(rows)| in m.flight
      ensures old(SlotsOwned(m)) ==> SlotsOwned(m)
      ensures old(SlotsOwned(m) && StartsNotDone(m)) ==> StartsNotDone(m)
    {
      var jobID := |rows|;
      rows := rows + [Row(n, Running)];
      Record(Insert(n));
      running := running + {n};
      Record(Launch(jobID));
    }

    /** The body of the loop for one peer; `read` and `inserted` say which statements work. */
    method TriggerNode(n: Node, read: bool, inserted: bool)
      requires Valid() && n != localID
      modifies this`running, this`rows, this`log, this`m
      ensures Valid() && old(log) <= log
      ensures old(SlotsOwned(m)) ==> SlotsOwned(m)
      ensures read && old(SlotsOwned(m) && StartsNotDone(m)) ==> StartsNotDone(m)
      ensures if old(n in running) || (read && LatestDone(old(rows), n)) || !inserted
              then running == old(running) && rows == old(rows)
              else running == old(running) + {n} && rows == old(rows) + [Row(n, Running)] && |old(rows)| in m.flight
    {
      if n in running || (read && LatestDone(rows, n)) {
        return;
      }
      running := running + {n};
      Record(Claim(n, read));
      if !inserted {
        running := running - {n};
        Record(InsertFails(n));
        return;
      }
      StartJob(n);
    }

    /** Trigger: a job for each of the first factor - 1 healthy peers that has none and is not known to be done. */
    method Trigger(factor: int, healthy: seq<Node>, known: nat -> bool, inserts: nat -> bool)
      requires Valid()
      modifies this`running, this`rows, this`log, this`m
      ensures Valid() && old(log) <= log
      ensures old(SlotsOwned(m)) ==> NoTwoInFlight(m)
      ensures (forall k: nat :: known(k)) && old(SlotsOwned(m) && StartsNotDone(m)) ==> StartsNotDone(m)
      ensures factor <= 1 ==> log == old(log)
      ensures factor > 1 && (forall k: nat :: inserts(k)) ==>
              Served(running, rows, Targets(factor, healthy, localID))
    {
      if factor <= 1 {
        return;
      }
      var replicas, k := 0, 0;
      while k < |healthy|
        invariant 0 <= k <= |healthy| && 0 <= replicas <= factor - 1
        invariant Valid() && old(log) <= log
        invariant old(SlotsOwned(m)) ==> SlotsOwned(m)
        invariant (forall i: nat :: known(i)) && old(SlotsOwned(m) && StartsNotDone(m)) ==> StartsNotDone(m)
        invariant replicas == |Others(healthy[..k], localID)|
        invariant (forall i: nat :: inserts(i)) ==> Served(running, rows, Others(healthy[..k], localID))
      {
        var n := healthy[k];
        OthersAppend(healthy[..k], n, localID);
        assert healthy[..k + 1] == healthy[..k] + [n];
        if n != localID {
          if replicas >= factor - 1 {
            break;
          }
          replicas := replicas + 1;
          ghost var wasRunning, before := running, rows;
          TriggerNode(n, known(k), inserts(k));
          if forall i: nat :: inserts(i) {
            OneMoreServed(wasRunning, before, running, rows, Others(healthy[..k], localID), n);
          }
        }
        k := k + 1;
      }
      OthersPrefix(healthy, k, localID);
      if k == |healthy| {
        assert healthy[..k] == healthy;
      }
    }
  }
}
