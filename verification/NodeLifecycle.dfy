// internal/cluster/health.go, manager.go and dead_node_reconciler.go: the health status of
// nodes under health checks, failed reads and writes, reconciliation passes and drains.
module NodeLifecycle {
  import opened Options
  import opened PastTime
  import opened Peers
  import P = StoragePressure

  type Time = int

  /** health_status, unavailable_since and last_seen of a row of cluster_nodes. */
  datatype Row = Row(status: Status, since: Option<Time>, lastSeen: Option<Time>)

  datatype Config = Config(factor: int, deadAfter: Time, pressure: real, release: real)

  /**
   * `probing` are health checks that have read the row and not yet written it back, with the
   * status they read.  `candidates` are the nodes a pass still has to look at, with the outage
   * start it found them by, and `degraded` says whether the degraded reason is non-empty.
   */
  datatype State = State(
    table: map<Node, Row>, now: Time, probing: set<(Node, Status)>, candidates: map<Node, Time>, degraded: bool)

  /** Which statements of markDeadIfSafe work: the read of the factor, the count, the writes. */
  datatype Marking = Marking(knows: bool, counted: bool, written: bool)

  /** The same for a recount of healthy nodes; `ok` is for the count and the writes. */
  datatype Recount = Recount(knows: bool, ok: bool)

  predicate Works(m: Marking) {
    m.counted && m.written
  }

  /** GetReplicationFactor: the configured factor, or 1 with no error when it cannot be read. */
  function Factor(cfg: Config, knows: bool): int {
    if knows then cfg.factor else 1
  }

  /**
   * Each event happens at a later time than the ones before it.  An UPDATE of a row that fails is
   * an event that does not happen.
   */
  datatype Event =
    | ProbeRead(node: Node)                                     // CheckNodeHealth reads the row
    | ProbeWrite(node: Node, was: Status, probe: P.Probe)       // and writes it after probing
    | MarkUnavailable(node: Node)                               // a failed proxied read
    | FanoutFails(node: Node)                                   // a failed replica write
    | Find                                                      // a pass looks for dead candidates
    | MarkDead(node: Node, marking: Marking)                    // the pass tries to mark one dead
    | Recompute(recount: Recount)                               // the pass ends with a recount, which may fail
    | Drain(node: Node, marking: Marking, recount: Recount)     // an operator drains a node
    | Tick(dt: nat)

  function HealthyNodes(table: map<Node, Row>): set<Node> {
    set n | n in table && table[n].status == Healthy
  }

  function Coalesce(since: Option<Time>, t: Time): Option<Time> {
    if since.Some? then since else Some(t)
  }

  /** CheckNodeHealth's UPDATE; a check that read a dead node writes nothing. */
  function ProbedRow(cfg: Config, row: Row, was: Status, probe: P.Probe, now: Time): Row {
    if was == Dead then row
    else
      var status := P.NextStatus(was, probe, cfg.pressure, cfg.release);
      if probe.healthy then Row(status, None, Some(now)) else Row(status, Coalesce(row.since, now), row.lastSeen)
  }

  function UnavailableRow(row: Row, now: Time): Row {
    if row.status == Dead then row else Row(Unavailable, Coalesce(row.since, now), row.lastSeen)
  }

  /** markDeadIfSafe's transaction: enough healthy nodes must remain without this one. */
  predicate SafeToKill(factor: int, table: map<Node, Row>, n: Node) {
    |HealthyNodes(table) - {n}| >= factor
  }

  predicate IsCandidate(cfg: Config, row: Row, now: Time) {
    row.status == Unavailable && row.since.Some? && row.since.value <= now - cfg.deadAfter
  }

  predicate TooFewHealthy(factor: int, table: map<Node, Row>) {
    factor > 1 && |HealthyNodes(table)| < factor
  }

  /** The row of node `n` after the event. */
  function RowAfter(cfg: Config, s: State, e: Event, n: Node): Row
    requires n in s.table
  {
    var row := s.table[n];
    match e
    case ProbeWrite(m, was, probe) =>
      if n == m && (m, was) in s.probing then ProbedRow(cfg, row, was, probe, s.now) else row
    case MarkUnavailable(m) => if n == m then UnavailableRow(row, s.now) else row
    case FanoutFails(m) => if n == m then row.(status := Unavailable) else row
    case MarkDead(m, marking) =>
      if n == m && m in s.candidates && Works(marking) && SafeToKill(Factor(cfg, marking.knows), s.table, n)
      then row.(status := Dead) else row
    case Drain(m, marking, _) =>
      if n == m && Works(marking) && SafeToKill(Factor(cfg, marking.knows), s.table, n) then row.(status := Dead) else row
    case _ => row
  }

  function TableAfter(cfg: Config, s: State, e: Event): map<Node, Row> {
    map n | n in s.table :: RowAfter(cfg, s, e, n)
  }

  function ProbingAfter(s: State, e: Event): set<(Node, Status)> {
    match e
    case ProbeRead(n) => if n in s.table then s.probing + {(n, s.table[n].status)} else s.probing
    case ProbeWrite(n, was, _) => s.probing - {(n, was)}
    case _ => s.probing
  }

  function CandidatesAfter(cfg: Config, s: State, e: Event): map<Node, Time> {
    match e
    case Find => map n | n in s.table && IsCandidate(cfg, s.table[n], s.now) :: s.table[n].since.value
    case MarkDead(n, _) => s.candidates - {n}
    case Recompute(_) => map[]
    case _ => s.candidates
  }

  /** The marking is refused, by the factor it read, and the reason is written. */
  predicate Refuses(cfg: Config, s: State, e: Event) {
    && (e.MarkDead? || e.Drain?) && e.node in s.table && Works(e.marking)
    && !SafeToKill(Factor(cfg, e.marking.knows), s.table, e.node)
    && (if e.MarkDead? then e.node in s.candidates else s.table[e.node].status != Dead)
  }

  /** The marking returns no error: it is refused or all of it works. */
  predicate MarksWell(cfg: Config, table: map<Node, Row>, n: Node, marking: Marking) {
    marking.counted && (marking.written || !SafeToKill(Factor(cfg, marking.knows), table, n))
  }

  /** Healthy nodes are recounted: at the end of a pass, and of a drain whose marking returned no error. */
  predicate Recounts(cfg: Config, s: State, e: Event) {
    match e
    case Recompute(recount) => recount.ok
    case Drain(n, marking, recount) =>
      recount.ok && n in s.table && s.table[n].status != Dead && MarksWell(cfg, s.table, n, marking)
    case _ => false
  }

  /** Whether the recount finds too few healthy nodes, by the factor it read. */
  predicate FindsTooFew(cfg: Config, table: map<Node, Row>, e: Event)
    requires e.Recompute? || e.Drain?
  {
    TooFewHealthy(Factor(cfg, e.recount.knows), table)
  }

  /** A recount settles the reason; otherwise a refusal sets it. */
  function DegradedAfter(cfg: Config, s: State, e: Event): bool {
    if Recounts(cfg, s, e) then FindsTooFew(cfg, TableAfter(cfg, s, e), e) else s.degraded || Refuses(cfg, s, e)
  }

  /** Time moves on with every event. */
  function Apply(cfg: Config, s: State, e: Event): State {
    State(TableAfter(cfg, s, e), if e.Tick? then s.now + e.dt + 1 else s.now + 1,
          ProbingAfter(s, e), CandidatesAfter(cfg, s, e), DegradedAfter(cfg, s, e))
  }

  function Exec(cfg: Config, s: State, events: seq<Event>): State
    decreases |events|
  {
    if events == [] then s else Exec(cfg, Apply(cfg, s, events[0]), events[1..])
  }

  function Start(table: map<Node, Row>, now: Time): State {
    State(table, now, {}, map[], false)
  }

  predicate IsDead(s: State, n: Node) {
    n in s.table && s.table[n].status == Dead
  }

  // ----- death never costs the cluster its replicas -----

  predicate Kills(cfg: Config, s: State, e: Event, n: Node) {
    && (e.MarkDead? || e.Drain?) && e.node == n && Works(e.marking)
    && SafeToKill(Factor(cfg, e.marking.knows), s.table, n)
    && (e.MarkDead? ==> n in s.candidates)
  }

  lemma DeathIsKilling(cfg: Config, s: State, e: Event, n: Node)
    requires n in s.table && !IsDead(s, n) && IsDead(Apply(cfg, s, e), n)
    ensures Kills(cfg, s, e, n)
  {
    assert Apply(cfg, s, e).table[n] == RowAfter(cfg, s, e, n);
  }

  lemma KilledRow(cfg: Config, s: State, e: Event, n: Node, m: Node)
    requires m in s.table && Kills(cfg, s, e, n)
    ensures RowAfter(cfg, s, e, m) == if m == n then s.table[m].(status := Dead) else s.table[m]
  {
  }

  lemma HealthyWithout(before: map<Node, Row>, after: map<Node, Row>, n: Node)
    requires after.Keys == before.Keys && (n in after ==> after[n].status != Healthy)
    requires forall m :: m in before && m != n ==> after[m] == before[m]
    ensures HealthyNodes(after) == HealthyNodes(before) - {n}
  {
  }

  lemma KillingKeepsOthers(cfg: Config, s: State, e: Event, n: Node)
    requires n in s.table && Kills(cfg, s, e, n)
    ensures HealthyNodes(TableAfter(cfg, s, e)) == HealthyNodes(s.table) - {n}
  {
    forall m | m in s.table ensures TableAfter(cfg, s, e)[m] == if m == n then s.table[m].(status := Dead) else s.table[m] {
      KilledRow(cfg, s, e, n, m);
    }
    HealthyWithout(s.table, TableAfter(cfg, s, e), n);
  }

  /** A step that turns a node dead is a marking or a drain, and leaves as many healthy nodes as the factor it read. */
  lemma DeathLeavesEnough(cfg: Config, s: State, e: Event, n: Node)
    requires n in s.table && !IsDead(s, n) && IsDead(Apply(cfg, s, e), n)
    ensures (e.MarkDead? || e.Drain?) && e.node == n
    ensures |HealthyNodes(Apply(cfg, s, e).table)| >= Factor(cfg, e.marking.knows)
  {
    DeathIsKilling(cfg, s, e, n);
    KillingKeepsOthers(cfg, s, e, n);
  }

  /** Node `n` dies in the step, and the factor was read or not. */
  predicate DiesBy(cfg: Config, s: State, e: Event, n: Node, knows: bool) {
    n in s.table && !IsDead(s, n) && (e.MarkDead? || e.Drain?) && e.marking.knows == knows && IsDead(Apply(cfg, s, e), n)
  }

  /** Every death leaves as many healthy nodes as configured exactly when the factor was read or is at most 1. */
  lemma DeathLeavesEnoughExactly(cfg: Config, knows: bool)
    ensures (forall s, e, n :: DiesBy(cfg, s, e, n, knows) ==> |HealthyNodes(Apply(cfg, s, e).table)| >= cfg.factor)
            <==> knows || cfg.factor <= 1
  {
    if knows || cfg.factor <= 1 {
      forall s, e, n | DiesBy(cfg, s, e, n, knows) ensures |HealthyNodes(Apply(cfg, s, e).table)| >= cfg.factor {
        DeathLeavesEnough(cfg, s, e, n);
      }
    } else {
      var s, e := LastSurvivor(cfg);
      assert DiesBy(cfg, s, e, "a", false);
    }
  }

  /** The factor cannot be read: a drain leaves one healthy node, whatever is configured. */
  lemma LastSurvivor(cfg: Config) returns (s: State, e: Event)
    ensures DiesBy(cfg, s, e, "a", false) && |HealthyNodes(Apply(cfg, s, e).table)| == 1
  {
    s := Start(map["a" := Row(Unavailable, None, None), "b" := Row(Healthy, None, None)], 0);
    e := Drain("a", Marking(false, true, true), Recount(false, true));
    assert HealthyNodes(s.table) == {"b"} && HealthyNodes(s.table) - {"a"} == {"b"};
    assert Kills(cfg, s, e, "a");
    KilledRow(cfg, s, e, "a", "a");
    KillingKeepsOthers(cfg, s, e, "a");
  }

  // ----- is dead for ever? -----

  /** The two writes that do not look at what the row says now. */
  predicate Unguarded(s: State, e: Event, n: Node) {
    e == FanoutFails(n) || (e.ProbeWrite? && e.node == n && e.was != Dead && (n, e.was) in s.probing)
  }

  /** A step revives a dead node exactly when it is one of the two unguarded writes. */
  lemma RevivedExactly(cfg: Config, s: State, e: Event, n: Node)
    requires IsDead(s, n)
    ensures !IsDead(Apply(cfg, s, e), n) <==> Unguarded(s, e, n)
  {
    assert Apply(cfg, s, e).table[n] == RowAfter(cfg, s, e, n);
  }

  predicate NeverUnguarded(cfg: Config, s: State, events: seq<Event>, n: Node)
    decreases |events|
  {
    events == [] ||
    ((IsDead(s, n) ==> !Unguarded(s, events[0], n)) && NeverUnguarded(cfg, Apply(cfg, s, events[0]), events[1..], n))
  }

  predicate AlwaysDead(cfg: Config, s: State, events: seq<Event>, n: Node)
    decreases |events|
  {
    IsDead(s, n) && (events == [] || AlwaysDead(cfg, Apply(cfg, s, events[0]), events[1..], n))
  }

  /** A dead node stays dead throughout a run exactly when no step of it is an unguarded write to the dead node. */
  lemma {:induction false} DeadIsForEver(cfg: Config, s: State, events: seq<Event>, n: Node)
    requires IsDead(s, n)
    ensures AlwaysDead(cfg, s, events, n) <==> NeverUnguarded(cfg, s, events, n)
    decreases |events|
  {
    if events != [] {
      RevivedExactly(cfg, s, events[0], n);
      if !Unguarded(s, events[0], n) {
        DeadIsForEver(cfg, Apply(cfg, s, events[0]), events[1..], n);
      }
    }
  }

  // ----- what a run leaves behind -----

  /** The state after the first `k` events. */
  function At(cfg: Config, s: State, events: seq<Event>, k: nat): State
    requires k <= |events|
  {
    if k == 0 then s else Apply(cfg, At(cfg, s, events, k - 1), events[k - 1])
  }

  lemma {:induction false} ExecOneMore(cfg: Config, s: State, events: seq<Event>, e: Event)
    ensures Exec(cfg, s, events + [e]) == Apply(cfg, Exec(cfg, s, events), e)
    decreases |events|
  {
    if events == [] {
      assert [e][1..] == [] && events + [e] == [e];
    } else {
      assert (events + [e])[1..] == events[1..] + [e];
      ExecOneMore(cfg, Apply(cfg, s, events[0]), events[1..], e);
    }
  }

  lemma {:induction false} AtIsExec(cfg: Config, s: State, events: seq<Event>, k: nat)
    requires k <= |events|
    ensures At(cfg, s, events, k) == Exec(cfg, s, events[..k])
    decreases k
  {
    if k > 0 {
      AtIsExec(cfg, s, events, k - 1);
      ExecOneMore(cfg, s, events[..k - 1], events[k - 1]);
      assert events[..k] == events[..k - 1] + [events[k - 1]];
    }
  }

  lemma {:induction false} TableKeepsNodes(cfg: Config, s: State, events: seq<Event>, k: nat)
    requires k <= |events|
    ensures At(cfg, s, events, k).table.Keys == s.table.Keys
    decreases k
  {
    if k > 0 {
      TableKeepsNodes(cfg, s, events, k - 1);
    }
  }

  type StepTest = (State, Event) -> bool

  /** Which of the first `k` steps meet the test. */
  function Meeting(cfg: Config, s: State, events: seq<Event>, k: nat, test: StepTest): (r: seq<bool>)
    requires k <= |events|
    ensures |r| == k
  {
    if k == 0 then [] else Meeting(cfg, s, events, k - 1, test) + [test(At(cfg, s, events, k - 1), events[k - 1])]
  }

  /** Some step of the run sets a flag, or it is up at the start, and every later step keeps it. */
  predicate SetAndKept(cfg: Config, s: State, events: seq<Event>, start: bool, sets: StepTest, keeps: StepTest) {
    Since(start, Meeting(cfg, s, events, |events|, sets), Meeting(cfg, s, events, |events|, keeps))
  }

  /** Each step raises the flag, or leaves it up. */
  ghost predicate Governs(cfg: Config, s: State, flag: State -> bool, sets: StepTest, keeps: StepTest) {
    forall t: State, e: Event :: t.table.Keys == s.table.Keys ==> (flag(Apply(cfg, t, e)) <==> sets(t, e) || (flag(t) && keeps(t, e)))
  }

  lemma {:induction false} FlagAt(
    cfg: Config, s: State, events: seq<Event>, k: nat, flag: State -> bool, sets: StepTest, keeps: StepTest)
    requires k <= |events| && Governs(cfg, s, flag, sets, keeps)
    ensures flag(At(cfg, s, events, k)) <==>
            Since(flag(s), Meeting(cfg, s, events, k, sets), Meeting(cfg, s, events, k, keeps))
    decreases k
  {
    if k > 0 {
      var before, e := At(cfg, s, events, k - 1), events[k - 1];
      FlagAt(cfg, s, events, k - 1, flag, sets, keeps);
      TableKeepsNodes(cfg, s, events, k - 1);
      assert flag(Apply(cfg, before, e)) <==> sets(before, e) || (flag(before) && keeps(before, e));
      SinceStep(flag(s), Meeting(cfg, s, events, k - 1, sets), Meeting(cfg, s, events, k - 1, keeps),
                sets(before, e), keeps(before, e));
    }
  }

  /** What each step does to the flag decides it over every run. */
  lemma FlagExactly(cfg: Config, s: State, events: seq<Event>, flag: State -> bool, sets: StepTest, keeps: StepTest)
    requires Governs(cfg, s, flag, sets, keeps)
    ensures flag(Exec(cfg, s, events)) <==> SetAndKept(cfg, s, events, flag(s), sets, keeps)
  {
    FlagAt(cfg, s, events, |events|, flag, sets, keeps);
    AtIsExec(cfg, s, events, |events|);
    assert events[..|events|] == events;
  }

  // ----- the degraded reason -----

  /** The recount finds too few by the factor it read, or there is none and the marking is refused. */
  predicate SetsReason(cfg: Config, s: State, e: Event) {
    if Recounts(cfg, s, e) then FindsTooFew(cfg, Apply(cfg, s, e).table, e) else Refuses(cfg, s, e)
  }

  lemma DegradedStep(cfg: Config, s: State, e: Event)
    ensures Apply(cfg, s, e).degraded <==> SetsReason(cfg, s, e) || (s.degraded && !Recounts(cfg, s, e))
  {
  }

  /** Healthy nodes other than `n` are fewer than the factor that is read. */
  predicate WouldStarve(cfg: Config, s: State, n: Node, knows: bool) {
    |(set m | m in s.table && m != n && s.table[m].status == Healthy)| < (if knows then cfg.factor else 1)
  }

  lemma StarvesExactly(cfg: Config, s: State, n: Node, knows: bool)
    ensures WouldStarve(cfg, s, n, knows) <==> !SafeToKill(Factor(cfg, knows), s.table, n)
  {
    assert (set m | m in s.table && m != n && s.table[m].status == Healthy) == HealthyNodes(s.table) - {n};
  }

  /**
   * One try per candidate and pass: a node that would starve the cluster is spared, and the reason set
   * if that can be written; otherwise it is killed.  When a statement fails nothing changes.
   */
  lemma MarkingExactly(cfg: Config, s: State, n: Node, marking: Marking)
    requires n in s.table
    ensures var t := Apply(cfg, s, MarkDead(n, marking));
            var acts := n in s.candidates && marking.counted && marking.written;
            && t.table == (if acts && !WouldStarve(cfg, s, n, marking.knows)
                           then s.table[n := s.table[n].(status := Dead)] else s.table)
            && (t.degraded <==> s.degraded || (acts && WouldStarve(cfg, s, n, marking.knows)))
            && n !in t.candidates
  {
    StarvesExactly(cfg, s, n, marking.knows);
  }

  /** A drain that works never leaves the cluster degraded: what it could break it refuses to do. */
  lemma DrainNeverDegrades(cfg: Config, s: State, n: Node, marking: Marking, recount: Recount)
    requires n in s.table && !IsDead(s, n) && marking.counted && marking.written && recount.ok
    requires (recount.knows ==> marking.knows) && cfg.factor >= 1
    ensures var t := Apply(cfg, s, Drain(n, marking, recount)); IsDead(t, n) ==> !t.degraded
    ensures IsDead(Apply(cfg, s, Drain(n, marking, recount)), n) <==> !WouldStarve(cfg, s, n, marking.knows)
  {
    StarvesExactly(cfg, s, n, marking.knows);
    if !WouldStarve(cfg, s, n, marking.knows) {
      KillingKeepsOthers(cfg, s, Drain(n, marking, recount), n);
    }
  }

  /** A refused drain leaves a reason exactly if the nodes, this one included, are too few or the recount fails. */
  lemma RefusedDrain(cfg: Config, s: State, n: Node, marking: Marking, recount: Recount)
    requires n in s.table && !IsDead(s, n) && marking.counted && WouldStarve(cfg, s, n, marking.knows)
    ensures var t := Apply(cfg, s, Drain(n, marking, recount));
            && t.table == s.table
            && (t.degraded <==> if recount.ok then recount.knows && cfg.factor > 1 && |HealthyNodes(s.table)| < cfg.factor
                                else s.degraded || marking.written)
  {
    StarvesExactly(cfg, s, n, marking.knows);
    assert TableAfter(cfg, s, Drain(n, marking, recount)) == s.table;
  }

  /** The drain returns an error: the node is dead or unknown, or the marking fails. */
  predicate DrainFails(cfg: Config, s: State, n: Node, marking: Marking) {
    n !in s.table || IsDead(s, n) || !marking.counted || (!marking.written && !WouldStarve(cfg, s, n, marking.knows))
  }

  lemma FailedDrainRow(cfg: Config, s: State, n: Node, marking: Marking, recount: Recount, m: Node)
    requires DrainFails(cfg, s, n, marking) && m in s.table
    ensures RowAfter(cfg, s, Drain(n, marking, recount), m) == s.table[m]
  {
    StarvesExactly(cfg, s, n, marking.knows);
  }

  lemma FailedDrainReason(cfg: Config, s: State, n: Node, marking: Marking, recount: Recount)
    requires DrainFails(cfg, s, n, marking)
    ensures DegradedAfter(cfg, s, Drain(n, marking, recount)) == s.degraded
  {
    StarvesExactly(cfg, s, n, marking.knows);
  }

  /** A drain that fails changes neither the table nor the reason. */
  lemma FailedDrain(cfg: Config, s: State, n: Node, marking: Marking, recount: Recount)
    requires DrainFails(cfg, s, n, marking)
    ensures var t := Apply(cfg, s, Drain(n, marking, recount)); t.table == s.table && t.degraded == s.degraded
  {
    forall m | m in s.table ensures RowAfter(cfg, s, Drain(n, marking, recount), m) == s.table[m] {
      FailedDrainRow(cfg, s, n, marking, recount, m);
    }
    FailedDrainReason(cfg, s, n, marking, recount);
  }

  lemma {:induction false} StaysTried(cfg: Config, s: State, events: seq<Event>, n: Node)
    requires n !in s.candidates && forall k :: 0 <= k < |events| ==> events[k] != Find
    ensures n !in Exec(cfg, s, events).candidates
    decreases |events|
  {
    if events != [] {
      StaysTried(cfg, Apply(cfg, s, events[0]), events[1..], n);
    }
  }

  /** Once tried, or once the pass is over, a node is not marked until a pass finds it again. */
  lemma TriedOnce(cfg: Config, s: State, e: Event, events: seq<Event>, n: Node, marking: Marking)
    requires e.Recompute? || (e.MarkDead? && e.node == n)
    requires forall k :: 0 <= k < |events| ==> events[k] != Find
    ensures var t := Exec(cfg, Apply(cfg, s, e), events); Apply(cfg, t, MarkDead(n, marking)).table == t.table
  {
    StaysTried(cfg, Apply(cfg, s, e), events, n);
    var t := Exec(cfg, Apply(cfg, s, e), events);
    assert forall m :: m in t.table ==> RowAfter(cfg, t, MarkDead(n, marking), m) == t.table[m];
  }

  function SettingReason(cfg: Config): StepTest {
    (s, e) => SetsReason(cfg, s, e)
  }

  function NotRecounting(cfg: Config): StepTest {
    (s, e) => !Recounts(cfg, s, e)
  }

  /**
   * After any run the reason is set exactly when the last successful recount found too few healthy
   * nodes, by the factor it read, or a marking was refused since; with no recount yet, when it was
   * set at the start or a marking was refused.
   */
  lemma DegradedExactly(cfg: Config, s: State, events: seq<Event>)
    ensures Exec(cfg, s, events).degraded <==>
            SetAndKept(cfg, s, events, s.degraded, SettingReason(cfg), NotRecounting(cfg))
  {
    var flag := (t: State) => t.degraded;
    forall t: State, e: Event ensures flag(Apply(cfg, t, e)) <==> SettingReason(cfg)(t, e) || (flag(t) && NotRecounting(cfg)(t, e)) {
      DegradedStep(cfg, t, e);
    }
    FlagExactly(cfg, s, events, flag, SettingReason(cfg), NotRecounting(cfg));
  }

  /** After the run and a recount the reason tells whether healthy nodes are too few for the configured factor. */
  predicate Tells(cfg: Config, s: State, events: seq<Event>, recount: Recount) {
    var t := Exec(cfg, s, events + [Recompute(recount)]);
    t.degraded <==> TooFewHealthy(cfg.factor, t.table)
  }

  lemma RecomputeFacts(cfg: Config, s: State, recount: Recount)
    ensures Apply(cfg, s, Recompute(recount)).table == s.table
    ensures Apply(cfg, s, Recompute(recount)).degraded <==>
            if recount.ok then TooFewHealthy(Factor(cfg, recount.knows), s.table) else s.degraded
  {
    assert TableAfter(cfg, s, Recompute(recount)) == s.table;
  }

  /**
   * A completed pass leaves the right reason, whatever came before it, exactly when its recount
   * works and read the factor, or the factor is at most 1.
   */
  lemma PassTellsExactly(cfg: Config, recount: Recount)
    ensures (forall s, events :: Tells(cfg, s, events, recount)) <==> recount.ok && (recount.knows || cfg.factor <= 1)
  {
    if recount.ok && (recount.knows || cfg.factor <= 1) {
      forall s, events ensures Tells(cfg, s, events, recount) {
        ExecOneMore(cfg, s, events, Recompute(recount));
        RecomputeFacts(cfg, Exec(cfg, s, events), recount);
      }
    } else {
      var s := Start(map[], 0).(degraded := !recount.ok && !TooFewHealthy(cfg.factor, map[]));
      ExecOneMore(cfg, s, [], Recompute(recount));
      RecomputeFacts(cfg, s, recount);
      assert HealthyNodes(map[]) == {};
      assert !Tells(cfg, s, [], recount);
    }
  }

  function AllHealthy(nodes: set<Node>): map<Node, Row> {
    map n | n in nodes :: Row(Healthy, None, None)
  }

  /** Of just enough healthy nodes one is lost, and the pass after it does not say so. */
  lemma FailedRecountMisleads(cfg: Config, nodes: set<Node>, b: Node, now: Time, recount: Recount)
    requires cfg.factor >= 2 && |nodes| == cfg.factor && b in nodes && !(recount.ok && recount.knows)
    ensures var t := Apply(cfg, Apply(cfg, Start(AllHealthy(nodes), now), MarkUnavailable(b)), Recompute(recount));
            !t.degraded && TooFewHealthy(cfg.factor, t.table)
  {
    var s := Start(AllHealthy(nodes), now);
    var lost := Apply(cfg, s, MarkUnavailable(b));
    assert HealthyNodes(s.table) == nodes;
    HealthyWithout(s.table, lost.table, b);
    RecomputeFacts(cfg, lost, recount);
  }

  // ----- the status of a node -----

  /** A health check of the node writes its result. */
  predicate Writes(s: State, e: Event, n: Node) {
    e.ProbeWrite? && e.node == n && e.was != Dead && (n, e.was) in s.probing
  }

  predicate HasStatus(s: State, n: Node, st: Status) {
    n in s.table && s.table[n].status == st
  }

  /** The step gives node `n` this status. */
  predicate Gives(cfg: Config, s: State, e: Event, n: Node, st: Status) {
    match st
    case Unknown => false
    case Dead => Kills(cfg, s, e, n)
    case Unavailable => e == FanoutFails(n) || (e == MarkUnavailable(n) && !IsDead(s, n)) || (Writes(s, e, n) && !e.probe.healthy)
    case Degraded => Writes(s, e, n) && e.probe.healthy && e.probe.latencyMs > 1000
    case StoragePressure =>
      Writes(s, e, n) && P.Informative(e.probe) &&
      (P.Usage(e.probe) >= cfg.pressure || (P.Usage(e.probe) >= cfg.release && e.was == StoragePressure))
    case Healthy =>
      Writes(s, e, n) && e.probe.healthy && e.probe.latencyMs <= 1000 &&
      (e.probe.total == 0 || P.Usage(e.probe) < cfg.release || (P.Usage(e.probe) < cfg.pressure && e.was != StoragePressure))
  }

  /** No write reaches the status of the node. */
  predicate Passes(cfg: Config, s: State, e: Event, n: Node) {
    !Writes(s, e, n) && e != FanoutFails(n) && (e == MarkUnavailable(n) ==> IsDead(s, n)) && !Kills(cfg, s, e, n)
  }

  lemma WrittenStatus(cfg: Config, s: State, e: Event, n: Node, st: Status)
    requires n in s.table && cfg.release < cfg.pressure && Writes(s, e, n)
    ensures RowAfter(cfg, s, e, n).status == st <==> Gives(cfg, s, e, n, st)
  {
    assert !Kills(cfg, s, e, n) && RowAfter(cfg, s, e, n) == ProbedRow(cfg, s.table[n], e.was, e.probe, s.now);
  }

  lemma UnwrittenStatus(cfg: Config, s: State, e: Event, n: Node, st: Status)
    requires n in s.table && !Writes(s, e, n)
    ensures RowAfter(cfg, s, e, n).status == st <==>
            Gives(cfg, s, e, n, st) || (s.table[n].status == st && Passes(cfg, s, e, n))
  {
    if Kills(cfg, s, e, n) {
      KilledRow(cfg, s, e, n, n);
    } else if e.MarkDead? || e.Drain? {
      assert RowAfter(cfg, s, e, n) == s.table[n];
    }
  }

  lemma StatusStep(cfg: Config, s: State, e: Event, n: Node, st: Status)
    requires n in s.table && cfg.release < cfg.pressure
    ensures HasStatus(Apply(cfg, s, e), n, st) <==>
            Gives(cfg, s, e, n, st) || (HasStatus(s, n, st) && Passes(cfg, s, e, n))
  {
    assert Apply(cfg, s, e).table[n] == RowAfter(cfg, s, e, n);
    if Writes(s, e, n) {
      WrittenStatus(cfg, s, e, n, st);
    } else {
      UnwrittenStatus(cfg, s, e, n, st);
    }
  }

  function Giving(cfg: Config, n: Node, st: Status): StepTest {
    (s, e) => Gives(cfg, s, e, n, st)
  }

  function Passing(cfg: Config, n: Node): StepTest {
    (s, e) => Passes(cfg, s, e, n)
  }

  /**
   * Over every run, and for each status: a node ends with it exactly when some step gave
   * it, or the node started with it, and no later step wrote the node's status.
   */
  lemma StatusExactly(cfg: Config, s: State, events: seq<Event>, n: Node, st: Status)
    requires n in s.table && cfg.release < cfg.pressure
    ensures HasStatus(Exec(cfg, s, events), n, st) <==>
            SetAndKept(cfg, s, events, HasStatus(s, n, st), Giving(cfg, n, st), Passing(cfg, n))
  {
    var flag := (t: State) => HasStatus(t, n, st);
    forall t: State, e: Event | t.table.Keys == s.table.Keys
      ensures flag(Apply(cfg, t, e)) <==> Giving(cfg, n, st)(t, e) || (flag(t) && Passing(cfg, n)(t, e))
    {
      assert n in t.table.Keys;
      StatusStep(cfg, t, e, n, st);
    }
    FlagExactly(cfg, s, events, flag, Giving(cfg, n, st), Passing(cfg, n));
  }

  lemma {:induction false} NotProbing(cfg: Config, s: State, events: seq<Event>, n: Node, was: Status)
    requires (n, was) !in s.probing && forall k :: 0 <= k < |events| ==> events[k] != ProbeRead(n)
    ensures (n, was) !in Exec(cfg, s, events).probing
    decreases |events|
  {
    if events != [] {
      NotProbing(cfg, Apply(cfg, s, events[0]), events[1..], n, was);
    }
  }

  /** A check writes once: until another one reads the row, its write has no effect. */
  lemma CheckWritesOnce(cfg: Config, s: State, events: seq<Event>, n: Node, was: Status, probe: P.Probe, again: P.Probe)
    requires forall k :: 0 <= k < |events| ==> events[k] != ProbeRead(n)
    ensures var t := Exec(cfg, Apply(cfg, s, ProbeWrite(n, was, probe)), events);
            Apply(cfg, t, ProbeWrite(n, was, again)).table == t.table
  {
    var u := Apply(cfg, s, ProbeWrite(n, was, probe));
    NotProbing(cfg, u, events, n, was);
    var t := Exec(cfg, u, events);
    assert forall m :: m in t.table ==> RowAfter(cfg, t, ProbeWrite(n, was, again), m) == t.table[m];
  }

  // ----- storage pressure -----

  predicate UnderPressure(s: State, n: Node) {
    HasStatus(s, n, StoragePressure)
  }

  /** A probe reaches the threshold; or one in the band read the pressure before it was lost. */
  predicate SetsPressure(cfg: Config, s: State, e: Event, n: Node) {
    Writes(s, e, n) && P.Informative(e.probe) &&
    (P.Usage(e.probe) >= cfg.pressure || (P.Usage(e.probe) >= cfg.release && e.was == StoragePressure && !UnderPressure(s, n)))
  }

  /** Nothing marks or kills the node, and a check that writes read the pressure and found it not released. */
  predicate KeepsPressure(cfg: Config, s: State, e: Event, n: Node) {
    && e != MarkUnavailable(n) && e != FanoutFails(n) && !Kills(cfg, s, e, n)
    && (Writes(s, e, n) ==> P.Informative(e.probe) && P.Usage(e.probe) >= cfg.release && e.was == StoragePressure)
  }

  lemma PressureStep(cfg: Config, s: State, e: Event, n: Node)
    requires n in s.table && cfg.release < cfg.pressure
    ensures UnderPressure(Apply(cfg, s, e), n) <==>
            SetsPressure(cfg, s, e, n) || (UnderPressure(s, n) && KeepsPressure(cfg, s, e, n))
  {
    StatusStep(cfg, s, e, n, StoragePressure);
  }

  function SettingPressure(cfg: Config, n: Node): StepTest {
    (s, e) => SetsPressure(cfg, s, e, n)
  }

  function KeepingPressure(cfg: Config, n: Node): StepTest {
    (s, e) => KeepsPressure(cfg, s, e, n)
  }

  /** Over every run: a node is under storage pressure exactly when that was set and has been kept since. */
  lemma PressureExactly(cfg: Config, s: State, events: seq<Event>, n: Node)
    requires n in s.table && cfg.release < cfg.pressure
    ensures UnderPressure(Exec(cfg, s, events), n) <==>
            SetAndKept(cfg, s, events, UnderPressure(s, n), SettingPressure(cfg, n), KeepingPressure(cfg, n))
  {
    var flag := (t: State) => UnderPressure(t, n);
    forall t: State, e: Event | t.table.Keys == s.table.Keys
      ensures flag(Apply(cfg, t, e)) <==> SettingPressure(cfg, n)(t, e) || (flag(t) && KeepingPressure(cfg, n)(t, e))
    {
      assert n in t.table.Keys;
      PressureStep(cfg, t, e, n);
    }
    FlagExactly(cfg, s, events, flag, SettingPressure(cfg, n), KeepingPressure(cfg, n));
  }

  // ----- the outage timer -----

  predicate SeenBy(row: Row, t: Time) {
    row.lastSeen.Some? ==> row.lastSeen.value <= t
  }

  /** No probe has succeeded since the recorded start of an outage, and nothing is in the future. */
  predicate Honest(row: Row, now: Time) {
    && SeenBy(row, now - 1)
    && (row.since.Some? ==> SeenBy(row, row.since.value) && row.since.value < now)
  }

  ghost predicate Inv(s: State) {
    && (forall n :: n in s.table ==> Honest(s.table[n], s.now))
    && (forall n :: n in s.candidates && n in s.table ==>
          s.candidates[n] < s.now &&
          (s.table[n].since == Some(s.candidates[n]) <==> SeenBy(s.table[n], s.candidates[n])))
  }

  lemma RowStaysHonest(cfg: Config, s: State, e: Event, n: Node)
    requires n in s.table && Honest(s.table[n], s.now)
    ensures Honest(RowAfter(cfg, s, e, n), s.now + 1)
  {
  }

  /** The recorded outage and the row part ways exactly when a probe succeeds. */
  lemma RowStaysFound(cfg: Config, s: State, e: Event, n: Node, found: Time)
    requires n in s.table && Honest(s.table[n], s.now) && found < s.now
    requires s.table[n].since == Some(found) <==> SeenBy(s.table[n], found)
    ensures RowAfter(cfg, s, e, n).since == Some(found) <==> SeenBy(RowAfter(cfg, s, e, n), found)
  {
  }

  lemma HonestLater(row: Row, now: Time, later: Time)
    requires Honest(row, now) && now <= later
    ensures Honest(row, later)
  {
  }

  lemma ApplyKeepsInv(cfg: Config, s: State, e: Event)
    requires Inv(s)
    ensures Inv(Apply(cfg, s, e))
  {
    var t := Apply(cfg, s, e);
    forall n | n in t.table ensures Honest(t.table[n], t.now) {
      RowStaysHonest(cfg, s, e, n);
      HonestLater(t.table[n], s.now + 1, t.now);
    }
    forall n | n in t.candidates && n in t.table
      ensures t.candidates[n] < t.now && (t.table[n].since == Some(t.candidates[n]) <==> SeenBy(t.table[n], t.candidates[n]))
    {
      if e != Find {
        assert n in s.candidates && t.candidates[n] == s.candidates[n];
        RowStaysFound(cfg, s, e, n, s.candidates[n]);
      }
    }
  }

  lemma {:induction false} RunKeepsInv(cfg: Config, s: State, events: seq<Event>)
    requires Inv(s)
    ensures Inv(Exec(cfg, s, events))
    decreases |events|
  {
    if events != [] {
      ApplyKeepsInv(cfg, s, events[0]);
      RunKeepsInv(cfg, Apply(cfg, s, events[0]), events[1..]);
    }
  }

  /** Neither a failed probe nor a failed read moves the start of an outage; any success clears it. */
  lemma OutageStart(cfg: Config, s: State, e: Event, n: Node)
    requires n in s.table && s.table[n].since.Some?
    ensures Apply(cfg, s, e).table[n].since ==
            if e.ProbeWrite? && e.node == n && e.was != Dead && (n, e.was) in s.probing && e.probe.healthy
            then None else s.table[n].since
  {
  }

  /** A health check that succeeded writes the row. */
  predicate Succeeds(s: State, e: Event, n: Node) {
    Writes(s, e, n) && e.probe.healthy
  }

  /** A failed health check or a failed read of a live node; a failed replica write is neither. */
  predicate StartsTimer(s: State, e: Event, n: Node) {
    (Writes(s, e, n) && !e.probe.healthy) || (e == MarkUnavailable(n) && !IsDead(s, n))
  }

  predicate TimerRuns(s: State, n: Node) {
    n in s.table && s.table[n].since.Some?
  }

  lemma TimerStep(cfg: Config, s: State, e: Event, n: Node)
    requires n in s.table
    ensures TimerRuns(Apply(cfg, s, e), n) <==> StartsTimer(s, e, n) || (TimerRuns(s, n) && !Succeeds(s, e, n))
  {
    assert Apply(cfg, s, e).table[n] == RowAfter(cfg, s, e, n);
  }

  function StartingTimer(n: Node): StepTest {
    (s, e) => StartsTimer(s, e, n)
  }

  function NotSucceeding(n: Node): StepTest {
    (s, e) => !Succeeds(s, e, n)
  }

  /** Over every run: an outage is on record exactly when a check or a read has failed and no check has succeeded since. */
  lemma TimerExactly(cfg: Config, s: State, events: seq<Event>, n: Node)
    requires n in s.table
    ensures TimerRuns(Exec(cfg, s, events), n) <==>
            SetAndKept(cfg, s, events, TimerRuns(s, n), StartingTimer(n), NotSucceeding(n))
  {
    var flag := (t: State) => TimerRuns(t, n);
    forall t: State, e: Event | t.table.Keys == s.table.Keys
      ensures flag(Apply(cfg, t, e)) <==> StartingTimer(n)(t, e) || (flag(t) && NotSucceeding(n)(t, e))
    {
      assert n in t.table.Keys;
      TimerStep(cfg, t, e, n);
    }
    FlagExactly(cfg, s, events, flag, StartingTimer(n), NotSucceeding(n));
  }

  /** No check of the node succeeds in the run, and nothing kills it. */
  predicate StaysDown(cfg: Config, s: State, events: seq<Event>, n: Node)
    decreases |events|
  {
    events == [] ||
    (!Succeeds(s, events[0], n) && !Kills(cfg, s, events[0], n) && StaysDown(cfg, Apply(cfg, s, events[0]), events[1..], n))
  }

  predicate DownSince(s: State, n: Node, t: Time) {
    HasStatus(s, n, Unavailable) && s.table[n].since.Some? && s.table[n].since.value <= t
  }

  lemma {:induction false} DownStays(cfg: Config, s: State, events: seq<Event>, n: Node, t: Time)
    requires DownSince(s, n, t) && StaysDown(cfg, s, events, n)
    ensures DownSince(Exec(cfg, s, events), n, t)
    decreases |events|
  {
    if events != [] {
      assert Apply(cfg, s, events[0]).table[n] == RowAfter(cfg, s, events[0], n);
      DownStays(cfg, Apply(cfg, s, events[0]), events[1..], n, t);
    }
  }

  /**
   * A node whose check or read has failed, with no success since and not killed, is found by the first
   * pass that comes the threshold later, and by its outage from that failure on or longer.
   */
  lemma OverdueIsFound(cfg: Config, s: State, e: Event, events: seq<Event>, n: Node)
    requires n in s.table && Honest(s.table[n], s.now) && StartsTimer(s, e, n) && StaysDown(cfg, Apply(cfg, s, e), events, n)
    ensures var t := Exec(cfg, Apply(cfg, s, e), events);
            s.now + cfg.deadAfter <= t.now ==>
            n in Apply(cfg, t, Find).candidates && Apply(cfg, t, Find).candidates[n] <= s.now
  {
    assert Apply(cfg, s, e).table[n] == RowAfter(cfg, s, e, n);
    DownStays(cfg, Apply(cfg, s, e), events, n, s.now);
  }

  /** What a pass records of its candidates stays at least the threshold in the past. */
  ghost predicate CandidatesOld(cfg: Config, s: State) {
    forall n :: n in s.candidates ==> s.candidates[n] <= s.now - cfg.deadAfter
  }

  lemma CandidatesOldStep(cfg: Config, s: State, e: Event)
    requires CandidatesOld(cfg, s)
    ensures CandidatesOld(cfg, Apply(cfg, s, e))
  {
  }

  lemma {:induction false} CandidatesStayOld(cfg: Config, s: State, events: seq<Event>)
    requires CandidatesOld(cfg, s)
    ensures CandidatesOld(cfg, Exec(cfg, s, events))
    decreases |events|
  {
    if events != [] {
      CandidatesOldStep(cfg, s, events[0]);
      CandidatesStayOld(cfg, Apply(cfg, s, events[0]), events[1..]);
    }
  }

  /**
   * In every run, a node the timer marks dead was found unavailable since a moment at least the
   * threshold ago; and no probe of it has succeeded since that moment exactly when the row still
   * carries that moment, which the marking does not look at.
   */
  lemma DeadByTimer(cfg: Config, table: map<Node, Row>, now: Time, events: seq<Event>, n: Node)
    requires forall m :: m in table ==> Honest(table[m], now)
    requires var s := Exec(cfg, Start(table, now), events);
             n in s.table && !IsDead(s, n) && IsDead(Apply(cfg, s, MarkDead(n, ALL_WORKS)), n)
    ensures var s := Exec(cfg, Start(table, now), events);
            && n in s.candidates
            && s.candidates[n] <= s.now - cfg.deadAfter
            && (SeenBy(s.table[n], s.candidates[n]) <==> s.table[n].since == Some(s.candidates[n]))
  {
    RunKeepsInv(cfg, Start(table, now), events);
    CandidatesStayOld(cfg, Start(table, now), events);
  }

  function OneDown(n: Node, other: Node, since: Time): map<Node, Row> {
    map[n := Row(Unavailable, Some(since), None), other := Row(Healthy, None, None)]
  }

  const WELL := P.Probe(true, 0, 0, 0)
  const ALL_WORKS := Marking(true, true, true)

  /** A check has read the row and a pass has found the node. */
  function ReadAndFound(cfg: Config, n: Node, other: Node, now: Time): State {
    Apply(cfg, Apply(cfg, Start(OneDown(n, other, now - cfg.deadAfter), now), ProbeRead(n)), Find)
  }

  lemma QuietTable(cfg: Config, s: State, e: Event)
    requires e.ProbeRead? || e == Find
    ensures Apply(cfg, s, e).table == s.table
  {
    assert forall n :: n in s.table ==> RowAfter(cfg, s, e, n) == s.table[n];
  }

  lemma ReadAndFoundFacts(cfg: Config, n: Node, other: Node, now: Time)
    requires cfg.deadAfter >= 0 && n != other
    ensures var s := ReadAndFound(cfg, n, other, now);
            s.table == OneDown(n, other, now - cfg.deadAfter) && (n, Unavailable) in s.probing && n in s.candidates
  {
    var s := Start(OneDown(n, other, now - cfg.deadAfter), now);
    var reading := Apply(cfg, s, ProbeRead(n));
    QuietTable(cfg, s, ProbeRead(n));
    QuietTable(cfg, reading, Find);
    assert IsCandidate(cfg, reading.table[n], reading.now);
  }

  lemma RecoveryIsWritten(cfg: Config, s: State, n: Node, other: Node, since: Time)
    requires n != other && s.table == OneDown(n, other, since) && (n, Unavailable) in s.probing && n in s.candidates
    ensures var t := Apply(cfg, s, ProbeWrite(n, Unavailable, WELL));
            t.table == map[n := Row(Healthy, None, Some(s.now)), other := Row(Healthy, None, None)] && n in t.candidates
  {
  }

  lemma KillHealthy(cfg: Config, s: State, n: Node, other: Node, a: Row, b: Row)
    requires cfg.factor == 1 && n != other && s.table == map[n := a, other := b] && b.status == Healthy && n in s.candidates
    ensures IsDead(Apply(cfg, s, MarkDead(n, ALL_WORKS)), n)
  {
    assert other in HealthyNodes(s.table) - {n};
    assert HealthyNodes(s.table) - {n} == {other};
    assert RowAfter(cfg, s, MarkDead(n, ALL_WORKS), n).status == Dead;
  }

  /** A node that recovers between the two halves of a pass is marked dead while healthy. */
  lemma RecoveredNodeIsMarkedDead(cfg: Config, n: Node, other: Node, now: Time)
    requires cfg.factor == 1 && cfg.deadAfter >= 0 && n != other
    ensures var well := Apply(cfg, ReadAndFound(cfg, n, other, now), ProbeWrite(n, Unavailable, WELL));
            n in well.table && well.table[n].status == Healthy && IsDead(Apply(cfg, well, MarkDead(n, ALL_WORKS)), n)
  {
    var found := ReadAndFound(cfg, n, other, now);
    ReadAndFoundFacts(cfg, n, other, now);
    RecoveryIsWritten(cfg, found, n, other, now - cfg.deadAfter);
    KillHealthy(cfg, Apply(cfg, found, ProbeWrite(n, Unavailable, WELL)), n, other,
                Row(Healthy, None, Some(found.now)), Row(Healthy, None, None));
  }

  // ----- the operations themselves -----

  function Candidates(cfg: Config, table: map<Node, Row>, now: Time): set<Node> {
    set n | n in table && IsCandidate(cfg, table[n], now)
  }

  /** Enough healthy nodes for the factor that the marking read. */
  predicate Enough(cfg: Config, table: map<Node, Row>, marking: Marking) {
    |HealthyNodes(table)| >= Factor(cfg, marking.knows)
  }

  /** The table once a pass has looked at these candidates, when nothing happens in between. */
  function MarkedTable(cfg: Config, table: map<Node, Row>, done: set<Node>, marking: Node -> Marking): map<Node, Row> {
    map n | n in table ::
      if n in done && Works(marking(n)) && Enough(cfg, table, marking(n)) then table[n].(status := Dead) else table[n]
  }

  /** One of them was refused, and the reason written. */
  predicate RefusedAmong(cfg: Config, table: map<Node, Row>, done: set<Node>, marking: Node -> Marking) {
    exists n :: n in done && Works(marking(n)) && !Enough(cfg, table, marking(n))
  }

  lemma SameHealthy(before: map<Node, Row>, after: map<Node, Row>)
    requires after.Keys == before.Keys
    requires forall m :: m in before ==> after[m] == before[m] || (before[m].status != Healthy && after[m].status != Healthy)
    ensures HealthyNodes(after) == HealthyNodes(before)
  {
  }

  /** Candidates are not healthy: looking at one does not change the count for the next. */
  lemma SafetyIsTheSame(cfg: Config, table: map<Node, Row>, done: set<Node>, n: Node, marking: Node -> Marking)
    requires n in table && table[n].status != Healthy
    requires forall m :: m in done && m in table ==> table[m].status != Healthy
    ensures SafeToKill(Factor(cfg, marking(n).knows), MarkedTable(cfg, table, done, marking), n) <==> Enough(cfg, table, marking(n))
  {
    SameHealthy(table, MarkedTable(cfg, table, done, marking));
    assert HealthyNodes(table) - {n} == HealthyNodes(table);
  }

  lemma MarkOneMore(cfg: Config, table: map<Node, Row>, done: set<Node>, n: Node, marking: Node -> Marking)
    requires n in table && n !in done
    ensures var before := MarkedTable(cfg, table, done, marking);
            MarkedTable(cfg, table, done + {n}, marking) ==
            (if Works(marking(n)) && Enough(cfg, table, marking(n)) then before[n := before[n].(status := Dead)] else before)
  {
  }

  lemma RefuseOneMore(cfg: Config, table: map<Node, Row>, done: set<Node>, n: Node, marking: Node -> Marking)
    ensures RefusedAmong(cfg, table, done + {n}, marking) <==>
            RefusedAmong(cfg, table, done, marking) || (Works(marking(n)) && !Enough(cfg, table, marking(n)))
  {
    assert n in done + {n};
    assert forall m :: m in done ==> m in done + {n};
  }

  lemma NoneMarked(cfg: Config, table: map<Node, Row>, marking: Node -> Marking)
    ensures MarkedTable(cfg, table, {}, marking) == table && !RefusedAmong(cfg, table, {}, marking)
  {
  }

  lemma CandidatesAreDown(cfg: Config, table: map<Node, Row>, now: Time, done: set<Node>, n: Node)
    requires done <= Candidates(cfg, table, now) && n in Candidates(cfg, table, now)
    ensures n in table && table[n].status != Healthy && forall m :: m in done && m in table ==> table[m].status != Healthy
  {
  }

  class ClusterManager {
    const cfg: Config
    var table: map<Node, Row>
    var degraded: bool

    constructor (cfg: Config, table: map<Node, Row>)
      ensures this.cfg == cfg && this.table == table && !degraded
    {
      this.cfg, this.table, degraded := cfg, table, false;
    }

    /** CheckNodeHealth, with what the probe returned and whether the UPDATE works; `None` is an error. */
    method CheckNodeHealth(n: Node, probe: P.Probe, now: Time, written: bool) returns (status: Option<Status>)
      modifies this`table
      ensures status == None <==> n !in old(table) || (old(table)[n].status != Dead && !written)
      ensures status == None ==> table == old(table)
      ensures status != None ==>
              && table == old(table)[n := ProbedRow(cfg, old(table)[n], old(table)[n].status, probe, now)]
              && status == Some(table[n].status)
    {
      if n !in table {
        return None;
      }
      var node := table[n];
      var next := P.NextStatus(node.status, probe, cfg.pressure, cfg.release);
      if node.status == Dead {
        return Some(Dead);
      }
      if !written {
        return None;
      }
      if probe.healthy {
        table := table[n := Row(next, None, Some(now))];
      } else {
        table := table[n := Row(next, Coalesce(node.since, now), node.lastSeen)];
      }
      return Some(next);
    }

    /** markNodeUnavailable; an error of its UPDATE is only logged. */
    method MarkNodeUnavailable(n: Node, now: Time, written: bool)
      modifies this`table
      ensures table == if n in old(table) && written then old(table)[n := UnavailableRow(old(table)[n], now)] else old(table)
    {
      if n in table && table[n].status != Dead && written {
        table := table[n := Row(Unavailable, Coalesce(table[n].since, now), table[n].lastSeen)];
      }
    }

    /** GetReplicationFactor: a failing read gives 1 and no error. */
    method GetReplicationFactor(knows: bool) returns (factor: int)
      ensures factor == Factor(cfg, knows)
    {
      factor := 1;
      if knows {
        factor := cfg.factor;
      }
    }

    /** markDeadIfSafe: false is an error, and a refusal is none. */
    method MarkDeadIfSafe(n: Node, marking: Marking) returns (ok: bool)
      requires n in table
      modifies this
      ensures ok <==> MarksWell(cfg, old(table), n, marking)
      ensures table == if Works(marking) && SafeToKill(Factor(cfg, marking.knows), old(table), n)
                       then old(table)[n := old(table)[n].(status := Dead)] else old(table)
      ensures degraded <==> old(degraded) || (Works(marking) && !SafeToKill(Factor(cfg, marking.knows), old(table), n))
    {
      var factor := GetReplicationFactor(marking.knows);
      if !marking.counted {
        return false;
      }
      var healthyExcludingCandidate := |HealthyNodes(table) - {n}|;
      if healthyExcludingCandidate < factor {
        if marking.written {
          degraded := true;
        }
        return true;
      }
      if !marking.written {
        return false;
      }
      table := table[n := table[n].(status := Dead)];
      return true;
    }

    /**
     * recomputeClusterDegradedState; when the count or the write fails the old reason stays, and when
     * the factor cannot be read the reason is cleared.
     */
    method RecomputeClusterDegradedState(recount: Recount)
      modifies this`degraded
      ensures degraded <==> if recount.ok then TooFewHealthy(Factor(cfg, recount.knows), table) else old(degraded)
    {
      var factor := GetReplicationFactor(recount.knows);
      if !recount.ok {
        return;
      }
      if factor <= 1 {
        degraded := false;
        return;
      }
      degraded := |HealthyNodes(table)| < factor;
    }

    /** One turn of the pass: `before` is the table it found and `done` who has had a turn. */
    method MarkNext(n: Node, marking: Node -> Marking, ghost before: map<Node, Row>, ghost done: set<Node>)
      requires table == MarkedTable(cfg, before, done, marking) && n in before && n !in done
      requires before[n].status != Healthy && forall m :: m in done && m in before ==> before[m].status != Healthy
      modifies this
      ensures table == MarkedTable(cfg, before, done + {n}, marking)
      ensures degraded <==> old(degraded) || (Works(marking(n)) && !Enough(cfg, before, marking(n)))
    {
      SafetyIsTheSame(cfg, before, done, n, marking);
      MarkOneMore(cfg, before, done, n, marking);
      var ok := MarkDeadIfSafe(n, marking(n));
    }

    /** The loop over the candidates, in any order. */
    method MarkAll(now: Time, marking: Node -> Marking)
      modifies this
      ensures table == MarkedTable(cfg, old(table), Candidates(cfg, old(table), now), marking)
      ensures degraded <==> old(degraded) || RefusedAmong(cfg, old(table), Candidates(cfg, old(table), now), marking)
    {
      var candidates := Candidates(cfg, table, now);
      ghost var before, done := table, {};
      NoneMarked(cfg, table, marking);
      while candidates != {}
        invariant candidates + done == Candidates(cfg, before, now) && candidates !! done
        invariant table == MarkedTable(cfg, before, done, marking)
        invariant degraded <==> old(degraded) || RefusedAmong(cfg, before, done, marking)
      {
        var n :| n in candidates;
        CandidatesAreDown(cfg, before, now, done, n);
        RefuseOneMore(cfg, before, done, n, marking);
        MarkNext(n, marking, before, done);
        candidates, done := candidates - {n}, done + {n};
      }
      assert done == Candidates(cfg, before, now);
    }

    /**
     * RunOnce: a marking that fails is left for the next pass.  All whose marking works and read the
     * same factor die or none does.
     */
    method RunOnce(now: Time, found: bool, marking: Node -> Marking, recount: Recount) returns (ok: bool)
      modifies this
      ensures ok == found
      ensures !ok ==> table == old(table) && degraded == old(degraded)
      ensures ok ==> table == MarkedTable(cfg, old(table), Candidates(cfg, old(table), now), marking)
      ensures ok ==> (degraded <==> if recount.ok then TooFewHealthy(Factor(cfg, recount.knows), table)
                                    else old(degraded) || RefusedAmong(cfg, old(table), Candidates(cfg, old(table), now), marking))
    {
      if !found {
        return false;
      }
      MarkAll(now, marking);
      RecomputeClusterDegradedState(recount);
      return true;
    }

    /** DrainNode: false is an error. */
    method DrainNode(n: Node, marking: Marking, recount: Recount) returns (ok: bool)
      modifies this
      ensures ok <==> n in old(table) && old(table)[n].status != Dead && MarksWell(cfg, old(table), n, marking)
      ensures !ok ==> table == old(table) && degraded == old(degraded)
      ensures ok ==> table == if SafeToKill(Factor(cfg, marking.knows), old(table), n)
                              then old(table)[n := old(table)[n].(status := Dead)] else old(table)
      ensures ok ==> (degraded <==> if recount.ok then TooFewHealthy(Factor(cfg, recount.knows), table)
                                    else old(degraded) || (marking.written && !SafeToKill(Factor(cfg, marking.knows), old(table), n)))
    {
      if n !in table || table[n].status == Dead {
        return false;
      }
      ok := MarkDeadIfSafe(n, marking);
      if !ok {
        return;
      }
      RecomputeClusterDegradedState(recount);
    }
  }
}
