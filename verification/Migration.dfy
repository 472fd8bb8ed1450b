// internal/cluster/migration.go: moving a bucket to another node, step by step, with a crash
// possible after every step.
module Migration {

  const MAX_ERRORS: nat := 10
  const SAMPLE: nat := 10

  /** A row of the objects table: one stored object (or version). */
  datatype Row = Row(key: string, version: string, size: nat)

  datatype Config = Config(verifyData: bool, deleteSource: bool, hasBucketManager: bool)

  /** The scan failed; the copy failed; it failed although the target stored it; it was acknowledged. */
  datatype Outcome = Unread | Refused | ReplyLost | Acked

  datatype Phase = Counting | Copying | Sharing(step: nat) | Verifying | Moving | Deleting | Done | Failed

  /** `source` and `target` are the rows held by the two nodes, `moved` is the bucket's location. */
  datatype State = State(
    phase: Phase, cursor: nat, copied: nat, bytes: nat, errors: nat,
    source: set<Row>, target: set<Row>, moved: bool)

  datatype Event =
    | Count(ok: bool)
    | Copy(outcome: Outcome)
    | EndCopy(ok: bool)        // the listing ends, or breaks off with an error
    | Share(ok: bool)          // permissions, ACLs, configuration
    | Verify(sampleOk: bool)
    | SetLocation(ok: bool)
    | Remove(gone: set<Row>)   // ForceDeleteBucket has removed some objects
    | EndDelete(ok: bool)

  function Rows(rows: seq<Row>): set<Row> {
    set r | r in rows
  }

  function Total(rows: seq<Row>): nat {
    if rows == [] then 0 else Total(rows[..|rows| - 1]) + rows[|rows| - 1].size
  }

  /**
   * The one per cent rule. With no bytes expected the source divides by zero: 0/0 is not greater
   * than 1 and passes, a positive difference gives infinity and does not.
   */
  predicate BytesClose(expected: nat, migrated: nat) {
    if migrated <= expected then (expected - migrated) * 100 <= expected
    else (migrated - expected) * 100 <= expected
  }

  function Start(rows: seq<Row>): State {
    State(Counting, 0, 0, 0, 0, Rows(rows), {}, false)
  }

  function Copied(s: State, row: Row, o: Outcome): State {
    var t := s.(cursor := s.cursor + 1, target := if o == ReplyLost || o == Acked then s.target + {row} else s.target);
    if o == Acked then t.(copied := s.copied + 1, bytes := s.bytes + row.size)
    else t.(errors := s.errors + 1, phase := if s.errors + 1 >= MAX_ERRORS then Failed else s.phase)
  }

  function Apply(c: Config, rows: seq<Row>, s: State, e: Event): State {
    match e
    case Count(ok) =>
      if s.phase != Counting then s
      else s.(phase := if !ok then Failed else if rows == [] then Sharing(0) else Copying)
    case Copy(o) =>
      if s.phase != Copying || s.cursor >= |rows| then s else Copied(s, rows[s.cursor], o)
    case EndCopy(ok) =>
      if s.phase != Copying || (ok && s.cursor < |rows|) then s
      else s.(phase := if ok then Sharing(0) else Failed)
    case Share(ok) =>
      if !s.phase.Sharing? then s
      else s.(phase :=
        if !ok then Failed
        else if s.phase.step < 2 then Sharing(s.phase.step + 1)
        else if c.verifyData && rows != [] then Verifying
        else Moving)
    case Verify(sampleOk) =>
      if s.phase != Verifying then s
      else s.(phase := if s.copied == |rows| && BytesClose(Total(rows), s.bytes) && sampleOk then Moving else Failed)
    case SetLocation(ok) =>
      if s.phase != Moving then s
      else if !ok then s.(phase := Failed)
      else s.(moved := true, phase := if !c.deleteSource then Done else if c.hasBucketManager then Deleting else Failed)
    case Remove(gone) =>
      if s.phase != Deleting then s else s.(source := s.source - gone)
    case EndDelete(ok) =>
      if s.phase != Deleting then s
      else if ok then s.(source := {}, phase := Done) else s.(phase := Failed)
  }

  /** Every prefix of a run is a run: what holds of all runs holds at every crash point. */
  function Exec(c: Config, rows: seq<Row>, s: State, events: seq<Event>): State
    decreases |events|
  {
    if events == [] then s else Exec(c, rows, Apply(c, rows, s, events[0]), events[1..])
  }

  function Run(c: Config, rows: seq<Row>, events: seq<Event>): State {
    Exec(c, rows, Start(rows), events)
  }

  lemma {:induction false} ExecJoin(c: Config, rows: seq<Row>, s: State, before: seq<Event>, after: seq<Event>)
    ensures Exec(c, rows, s, before + after) == Exec(c, rows, Exec(c, rows, s, before), after)
    decreases |before|
  {
    if before == [] {
      assert before + after == after;
    } else {
      assert (before + after)[1..] == before[1..] + after;
      ExecJoin(c, rows, Apply(c, rows, s, before[0]), before[1..], after);
    }
  }

  // ----- how many rows a node lacks -----

  /** How many of the rows are not held. */
  function Missing(rows: seq<Row>, held: set<Row>): nat {
    if rows == [] then 0
    else Missing(rows[..|rows| - 1], held) + if rows[|rows| - 1] in held then 0 else 1
  }

  lemma {:induction false} MissingIsMonotone(rows: seq<Row>, held: set<Row>, more: set<Row>)
    requires held <= more
    ensures Missing(rows, more) <= Missing(rows, held)
    decreases |rows|
  {
    if rows != [] {
      MissingIsMonotone(rows[..|rows| - 1], held, more);
    }
  }

  lemma {:induction false} NoneMissing(rows: seq<Row>, held: set<Row>)
    ensures Missing(rows, held) == 0 <==> Rows(rows) <= held
    decreases |rows|
  {
    if rows != [] {
      var n := |rows| - 1;
      assert rows == rows[..n] + [rows[n]];
      assert Rows(rows) == Rows(rows[..n]) + {rows[n]};
      NoneMissing(rows[..n], held);
    }
  }

  // ----- the invariant -----

  predicate PastCopy(p: Phase) {
    p.Sharing? || p == Verifying || p == Moving || p == Deleting || p == Done
  }

  ghost predicate Counted(rows: seq<Row>, s: State) {
    && s.cursor <= |rows| && s.copied + s.errors == s.cursor
    && Missing(rows[..s.cursor], s.target) <= s.errors
    && (s.errors == 0 ==> s.bytes == Total(rows[..s.cursor]))
  }

  ghost predicate Inv(c: Config, rows: seq<Row>, s: State) {
    && Counted(rows, s)
    && (s.errors < MAX_ERRORS || (s.phase == Failed && !s.moved))
    && (PastCopy(s.phase) || s.moved ==> s.cursor == |rows|)
    && (c.verifyData && (s.phase == Moving || s.moved) ==> s.errors == 0)
    && (s.source == Rows(rows) || (s.moved && c.deleteSource && c.hasBucketManager))
    && (s.phase == Deleting || s.phase == Done ==> s.moved)
    && (s.phase == Deleting ==> c.deleteSource && c.hasBucketManager)
    && (s.moved ==> s.phase == Deleting || s.phase == Done || s.phase == Failed)
  }

  lemma CopiedIsCounted(rows: seq<Row>, s: State, o: Outcome)
    requires Counted(rows, s) && s.cursor < |rows|
    ensures Counted(rows, Copied(s, rows[s.cursor], o))
  {
    var t := Copied(s, rows[s.cursor], o);
    assert rows[..t.cursor][..s.cursor] == rows[..s.cursor];
    MissingIsMonotone(rows[..s.cursor], s.target, t.target);
  }

  lemma ApplyKeepsInv(c: Config, rows: seq<Row>, s: State, e: Event)
    requires Inv(c, rows, s)
    ensures Inv(c, rows, Apply(c, rows, s, e))
  {
    if e.Copy? && s.phase == Copying && s.cursor < |rows| {
      CopiedIsCounted(rows, s, e.outcome);
    }
  }

  lemma {:induction false} ExecKeepsInv(c: Config, rows: seq<Row>, s: State, events: seq<Event>)
    requires Inv(c, rows, s)
    ensures Inv(c, rows, Exec(c, rows, s, events))
    decreases |events|
  {
    if events != [] {
      ApplyKeepsInv(c, rows, s, events[0]);
      ExecKeepsInv(c, rows, Apply(c, rows, s, events[0]), events[1..]);
    }
  }

  lemma RunKeepsInv(c: Config, rows: seq<Row>, events: seq<Event>)
    ensures Inv(c, rows, Run(c, rows, events))
  {
    assert rows[..0] == [];
    ExecKeepsInv(c, rows, Start(rows), events);
  }

  /** After the copy the byte count can disagree only if the object count does. */
  lemma AllCopiedMeansAllBytes(c: Config, rows: seq<Row>, events: seq<Event>)
    ensures var s := Run(c, rows, events); PastCopy(s.phase) && s.copied == |rows| ==> s.bytes == Total(rows)
  {
    var s := Run(c, rows, events);
    RunKeepsInv(c, rows, events);
    if PastCopy(s.phase) {
      assert rows[..s.cursor] == rows;
    }
  }

  // ----- how a migration ends -----

  /** The one per cent rule as a share, and with nothing expected. */
  lemma BytesCloseExactly(expected: nat, migrated: nat)
    ensures BytesClose(expected, migrated) <==> 99 * expected <= 100 * migrated <= 101 * expected
    ensures BytesClose(0, migrated) <==> migrated == 0
  {
  }

  /** The event is a failure of the step at hand. */
  predicate Breaks(c: Config, rows: seq<Row>, s: State, e: Event) {
    match s.phase
    case Counting => e == Count(false)
    case Copying => e == EndCopy(false) || (e.Copy? && e.outcome != Acked && s.cursor < |rows| && s.errors == 9)
    case Sharing(_) => e == Share(false)
    case Verifying => e.Verify? && (s.copied < |rows| || !e.sampleOk)
    case Moving => e == SetLocation(false) || (e == SetLocation(true) && c.deleteSource && !c.hasBucketManager)
    case Deleting => e == EndDelete(false)
    case _ => false
  }

  /** A migration fails exactly on a failure of the step it is at; the tenth failed copy is one, and so is an incomplete copy. */
  lemma FailsExactly(c: Config, rows: seq<Row>, events: seq<Event>, e: Event)
    requires Run(c, rows, events).phase != Failed
    ensures var s := Run(c, rows, events); Apply(c, rows, s, e).phase == Failed <==> Breaks(c, rows, s, e)
  {
    RunKeepsInv(c, rows, events);
    AllCopiedMeansAllBytes(c, rows, events);
  }

  /** A migration that has failed or is done stays as it is. */
  lemma {:induction false} EndIsFinal(c: Config, rows: seq<Row>, s: State, events: seq<Event>)
    requires s.phase == Failed || s.phase == Done
    ensures Exec(c, rows, s, events) == s
    decreases |events|
  {
    if events != [] {
      EndIsFinal(c, rows, s, events[1..]);
    }
  }

  /** How many of the events are of this kind. */
  function Number(events: seq<Event>, e: Event): nat {
    if events == [] then 0 else (if events[0] == e then 1 else 0) + Number(events[1..], e)
  }

  /** How many of permissions, ACLs and configuration have been sent by the time of this phase. */
  function SharesBy(p: Phase, moved: bool): nat {
    if p.Sharing? then p.step else if p == Verifying || p == Moving || moved then 3 else 0
  }

  lemma {:induction false} SharesComeFirst(c: Config, rows: seq<Row>, s: State, events: seq<Event>)
    requires s.phase.Sharing? ==> s.phase.step <= 2
    requires s.moved ==> s.phase == Deleting || s.phase == Done || s.phase == Failed
    ensures var t := Exec(c, rows, s, events);
            && (t.moved ==> !t.phase.Sharing?)
            && SharesBy(t.phase, t.moved) <= SharesBy(s.phase, s.moved) + Number(events, Share(true))
    decreases |events|
  {
    if events != [] {
      SharesComeFirst(c, rows, Apply(c, rows, s, events[0]), events[1..]);
    }
  }

  /** The location changes only after permissions, ACLs and configuration have all been sent. */
  lemma MovedMeansShared(c: Config, rows: seq<Row>, events: seq<Event>)
    requires Run(c, rows, events).moved
    ensures Number(events, Share(true)) >= 3
  {
    SharesComeFirst(c, rows, Start(rows), events);
  }

  /** While the source is being deleted, it lacks exactly what has been removed, and a failure leaves it so. */
  lemma PartlyDeleted(c: Config, rows: seq<Row>, s: State, gone: set<Row>)
    requires s.phase == Deleting
    ensures var t := Apply(c, rows, Apply(c, rows, s, Remove(gone)), EndDelete(false));
            t.phase == Failed && t.source == s.source - gone && t.target == s.target && t.moved == s.moved
  {
  }

  // ----- what can be lost -----

  /** At no point of any run are more than nine objects on neither node. */
  lemma AtMostNineLost(c: Config, rows: seq<Row>, events: seq<Event>)
    ensures var s := Run(c, rows, events); Missing(rows, s.source + s.target) < MAX_ERRORS
  {
    var s := Run(c, rows, events);
    RunKeepsInv(c, rows, events);
    if s.source == Rows(rows) {
      NoneMissing(rows, s.source + s.target);
    } else {
      assert rows[..s.cursor] == rows;
      MissingIsMonotone(rows, s.target, s.source + s.target);
    }
  }

  /** Once the location has changed, a verified migration has every object on the target. */
  lemma MovedMeansCopied(c: Config, rows: seq<Row>, events: seq<Event>)
    requires c.verifyData || rows == []
    ensures var s := Run(c, rows, events); s.moved ==> Rows(rows) <= s.target
  {
    var s := Run(c, rows, events);
    RunKeepsInv(c, rows, events);
    if s.moved {
      assert rows[..s.cursor] == rows;
      NoneMissing(rows, s.target);
    }
  }

  ghost predicate Distinct(rows: seq<Row>) {
    forall i, j :: 0 <= i < j < |rows| ==> rows[i] != rows[j]
  }

  /** `n` times the same outcome. */
  function Copies(n: nat, o: Outcome): seq<Event> {
    seq(n, _ => Copy(o))
  }

  lemma {:induction false} RefusedPrefix(c: Config, rows: seq<Row>, s: State, n: nat)
    requires s.phase == Copying && s.cursor + n <= |rows| && s.errors + n < MAX_ERRORS
    ensures Exec(c, rows, s, Copies(n, Refused)) == s.(cursor := s.cursor + n, errors := s.errors + n)
    decreases n
  {
    if n > 0 {
      assert Copies(n, Refused)[1..] == Copies(n - 1, Refused);
      RefusedPrefix(c, rows, Apply(c, rows, s, Copy(Refused)), n - 1);
    }
  }

  lemma {:induction false} AckedRest(c: Config, rows: seq<Row>, s: State, n: nat)
    requires s.phase == Copying && s.cursor + n == |rows|
    ensures var t := Exec(c, rows, s, Copies(n, Acked));
            && t == s.(cursor := |rows|, copied := s.copied + n, bytes := t.bytes, target := t.target)
            && t.target == s.target + Rows(rows[s.cursor..])
    decreases n
  {
    if n > 0 {
      var u := Apply(c, rows, s, Copy(Acked));
      assert Copies(n, Acked)[1..] == Copies(n - 1, Acked);
      AckedRest(c, rows, u, n - 1);
      assert rows[s.cursor..] == [rows[s.cursor]] + rows[u.cursor..];
      assert Rows(rows[s.cursor..]) == {rows[s.cursor]} + Rows(rows[u.cursor..]);
    }
  }

  lemma ExecTwo(c: Config, rows: seq<Row>, s: State, e1: Event, e2: Event)
    ensures Exec(c, rows, s, [e1, e2]) == Apply(c, rows, Apply(c, rows, s, e1), e2)
  {
    assert [e1, e2][1..] == [e2];
    assert Exec(c, rows, Apply(c, rows, s, e1), [e2]) == Apply(c, rows, Apply(c, rows, s, e1), e2);
  }

  lemma ExecThree(c: Config, rows: seq<Row>, s: State, e1: Event, e2: Event, e3: Event)
    ensures Exec(c, rows, s, [e1, e2, e3]) == Apply(c, rows, Apply(c, rows, Apply(c, rows, s, e1), e2), e3)
  {
    assert [e1, e2, e3][1..] == [e2, e3];
    ExecTwo(c, rows, Apply(c, rows, s, e1), e2, e3);
  }

  const FINISH_COPY: seq<Event> := [EndCopy(true), Share(true), Share(true)]
  const CHANGE_LOCATION: seq<Event> := [Share(true), SetLocation(true)]

  /** The steps after the copy, all successful. */
  const REST: seq<Event> := FINISH_COPY + CHANGE_LOCATION

  lemma RestMoves(c: Config, rows: seq<Row>, s: State)
    requires s.phase == Copying && s.cursor == |rows| && !c.verifyData
    ensures var t := Exec(c, rows, s, REST);
            && t.moved && t.target == s.target && t.source == s.source
            && (c.deleteSource && c.hasBucketManager ==> t.phase == Deleting)
  {
    ExecJoin(c, rows, s, FINISH_COPY, CHANGE_LOCATION);
    ExecThree(c, rows, s, EndCopy(true), Share(true), Share(true));
    ExecTwo(c, rows, s.(phase := Sharing(2)), Share(true), SetLocation(true));
  }

  /** The copies of a run in which the target refuses exactly the first `f` objects. */
  function LossyCopy(rows: seq<Row>, f: nat): seq<Event>
    requires f <= |rows|
  {
    [Count(true)] + Copies(f, Refused) + Copies(|rows| - f, Acked)
  }

  lemma LossyCopyRuns(c: Config, rows: seq<Row>, f: nat)
    requires rows != [] && f <= |rows| && f < MAX_ERRORS
    ensures var s := Run(c, rows, LossyCopy(rows, f));
            && s.phase == Copying && s.cursor == |rows|
            && s.target == Rows(rows[f..]) && s.source == Rows(rows)
  {
    var s0 := Apply(c, rows, Start(rows), Count(true));
    ExecJoin(c, rows, Start(rows), [Count(true)] + Copies(f, Refused), Copies(|rows| - f, Acked));
    ExecJoin(c, rows, Start(rows), [Count(true)], Copies(f, Refused));
    assert Exec(c, rows, Start(rows), [Count(true)]) == s0;
    RefusedPrefix(c, rows, s0, f);
    AckedRest(c, rows, s0.(cursor := f, errors := f), |rows| - f);
  }

  lemma LossyRunMoves(c: Config, rows: seq<Row>, f: nat)
    requires rows != [] && f <= |rows| && f < MAX_ERRORS && !c.verifyData
    ensures var s := Run(c, rows, LossyCopy(rows, f) + REST);
            && s.moved && s.target == Rows(rows[f..])
            && (c.deleteSource && c.hasBucketManager ==> s.phase == Deleting)
  {
    LossyCopyRuns(c, rows, f);
    ExecJoin(c, rows, Start(rows), LossyCopy(rows, f), REST);
    RestMoves(c, rows, Run(c, rows, LossyCopy(rows, f)));
  }

  lemma {:induction false} MissingPrefix(rows: seq<Row>, f: nat, n: nat)
    requires Distinct(rows) && f <= |rows| && n <= |rows|
    ensures Missing(rows[..n], Rows(rows[f..])) == if n <= f then n else f
    decreases n
  {
    if n > 0 {
      assert rows[..n][..n - 1] == rows[..n - 1];
      MissingPrefix(rows, f, n - 1);
      if f < n {
        assert rows[f..][n - 1 - f] == rows[n - 1];
      } else {
        forall i | 0 <= i < |rows[f..]| ensures rows[f..][i] != rows[n - 1] {
          assert rows[f..][i] == rows[f + i];
        }
      }
    }
  }

  /** Nine is reached: without verification any number of objects below ten can be lost, and no more. */
  lemma LosesAsMany(c: Config, rows: seq<Row>, f: nat) returns (events: seq<Event>)
    requires Distinct(rows) && rows != [] && f <= |rows| && f < MAX_ERRORS
    requires !c.verifyData && c.deleteSource && c.hasBucketManager
    ensures var s := Run(c, rows, events);
            s.phase == Done && s.moved && Missing(rows, s.source + s.target) == f
  {
    var before := LossyCopy(rows, f) + REST;
    LossyRunMoves(c, rows, f);
    ExecJoin(c, rows, Start(rows), before, [EndDelete(true)]);
    events := before + [EndDelete(true)];
    var s := Run(c, rows, events);
    assert s.source + s.target == Rows(rows[f..]);
    assert rows[..|rows|] == rows;
    MissingPrefix(rows, f, |rows|);
  }

  /** The steps after the copy up to the location, all successful; an empty bucket is not verified. */
  function Steps(c: Config, rows: seq<Row>): seq<Event> {
    [Share(true), Share(true), Share(true)] + (if c.verifyData && rows != [] then [Verify(true)] else []) + [SetLocation(true)]
  }

  lemma StepsMove(c: Config, rows: seq<Row>, s: State)
    requires s.phase == Sharing(0) && s.copied == |rows| && s.bytes == Total(rows)
    ensures Exec(c, rows, s, Steps(c, rows)) ==
            s.(moved := true, phase := if !c.deleteSource then Done else if c.hasBucketManager then Deleting else Failed)
  {
    var shares := [Share(true), Share(true), Share(true)];
    var u := s.(phase := if c.verifyData && rows != [] then Verifying else Moving);
    ExecThree(c, rows, s, Share(true), Share(true), Share(true));
    assert Exec(c, rows, s, shares) == u;
    if c.verifyData && rows != [] {
      assert Steps(c, rows) == shares + [Verify(true), SetLocation(true)];
      ExecJoin(c, rows, s, shares, [Verify(true), SetLocation(true)]);
      ExecTwo(c, rows, u, Verify(true), SetLocation(true));
    } else {
      assert Steps(c, rows) == shares + [SetLocation(true)];
      ExecJoin(c, rows, s, shares, [SetLocation(true)]);
    }
  }

  /** The copy of a run in which nothing fails. */
  function WholeCopy(rows: seq<Row>): seq<Event> {
    [Count(true)] + if rows == [] then [] else Copies(|rows|, Acked) + [EndCopy(true)]
  }

  lemma WholeCopyRuns(c: Config, rows: seq<Row>)
    ensures var s := Run(c, rows, WholeCopy(rows));
            && s.phase == Sharing(0) && s.copied == |rows| && s.bytes == Total(rows)
            && s.target == Rows(rows) && s.source == Rows(rows) && !s.moved
  {
    var s0 := Apply(c, rows, Start(rows), Count(true));
    if rows == [] {
      assert WholeCopy(rows) == [Count(true)];
    } else {
      ExecJoin(c, rows, Start(rows), [Count(true)], Copies(|rows|, Acked) + [EndCopy(true)]);
      assert Exec(c, rows, Start(rows), [Count(true)]) == s0;
      ExecJoin(c, rows, s0, Copies(|rows|, Acked), [EndCopy(true)]);
      AckedRest(c, rows, s0, |rows|);
      assert rows[0..] == rows;
    }
    AllCopiedMeansAllBytes(c, rows, WholeCopy(rows));
  }

  /**
   * When nothing fails a migration ends done: the bucket is on the target and is there by its
   * location, and is gone from the source exactly if that was asked for.
   */
  lemma NothingFails(c: Config, rows: seq<Row>)
    requires c.deleteSource ==> c.hasBucketManager
    ensures var s := Run(c, rows, WholeCopy(rows) + Steps(c, rows) + if c.deleteSource then [EndDelete(true)] else []);
            s.phase == Done && s.moved && s.target == Rows(rows) && s.source == if c.deleteSource then {} else Rows(rows)
  {
    var last := if c.deleteSource then [EndDelete(true)] else [];
    WholeCopyRuns(c, rows);
    StepsMove(c, rows, Run(c, rows, WholeCopy(rows)));
    ExecJoin(c, rows, Start(rows), WholeCopy(rows), Steps(c, rows));
    ExecJoin(c, rows, Start(rows), WholeCopy(rows) + Steps(c, rows), last);
  }

  ghost predicate SafeAtEveryPoint(c: Config, rows: seq<Row>) {
    forall events :: var s := Run(c, rows, events); Rows(rows) <= s.source + s.target
  }

  /**
   * Every object is on some node at every crash point of every run, exactly when the migration
   * verifies, keeps the source, or has nothing to move.
   */
  lemma SafeExactly(c: Config, rows: seq<Row>)
    requires Distinct(rows)
    ensures SafeAtEveryPoint(c, rows) <==> c.verifyData || !c.deleteSource || !c.hasBucketManager || rows == []
  {
    if c.verifyData || !c.deleteSource || !c.hasBucketManager || rows == [] {
      forall events ensures var s := Run(c, rows, events); Rows(rows) <= s.source + s.target {
        RunKeepsInv(c, rows, events);
        if c.verifyData || rows == [] {
          MovedMeansCopied(c, rows, events);
        }
      }
    } else {
      var events := LosesAsMany(c, rows, 1);
      var s := Run(c, rows, events);
      NoneMissing(rows, s.source + s.target);
    }
  }

  ghost predicate MovesOnlyComplete(c: Config, rows: seq<Row>) {
    forall events :: var s := Run(c, rows, events); s.moved ==> Rows(rows) <= s.target
  }

  /** The location names a node holding the whole bucket, in every run, exactly when it verifies. */
  lemma LocationExactly(c: Config, rows: seq<Row>)
    requires Distinct(rows)
    ensures MovesOnlyComplete(c, rows) <==> c.verifyData || rows == []
  {
    if c.verifyData || rows == [] {
      forall events ensures var s := Run(c, rows, events); s.moved ==> Rows(rows) <= s.target {
        MovedMeansCopied(c, rows, events);
      }
    } else {
      LossyRunMoves(c, rows, 1);
      var s := Run(c, rows, LossyCopy(rows, 1) + REST);
      assert rows[..|rows|] == rows;
      MissingPrefix(rows, 1, |rows|);
      NoneMissing(rows, s.target);
    }
  }

  // ----- the migration itself -----

  /** What the database, the target and the bucket manager answer. */
  datatype World = World(
    countOk: bool,
    outcome: nat -> Outcome,    // of the i-th listed row
    delivered: nat,             // how many rows the listing yields,
    listOk: bool,               // and whether it ends without an error
    shareOk: nat -> bool,       // permissions, ACLs, configuration
    lookupOk: bool,             // node, credentials and sample query in verifyMigration
    head: nat -> bool,          // the i-th sampled object is on the target with its ETag
    locationOk: bool,
    removed: set<Row>,          // what ForceDeleteBucket removes before it fails
    deleteOk: bool)

  /** How many of the first `n` rows were not acknowledged. */
  function Failures(outcome: nat -> Outcome, n: nat): nat {
    if n == 0 then 0 else Failures(outcome, n - 1) + if outcome(n - 1) == Acked then 0 else 1
  }

  lemma {:induction false} FailuresGrow(outcome: nat -> Outcome, k: nat, n: nat)
    requires k <= n
    ensures Failures(outcome, k) <= Failures(outcome, n)
    decreases n
  {
    if k < n {
      FailuresGrow(outcome, k, n - 1);
    }
  }

  predicate SampleOk(w: World, n: nat) {
    w.lookupOk && forall i: nat :: i < n && i < SAMPLE ==> w.head(i)
  }

  /** When a migration gets as far as the location: with verification no copy may fail, without it nine may. */
  predicate Prepared(c: Config, rows: seq<Row>, w: World) {
    && w.countOk && w.shareOk(0) && w.shareOk(1) && w.shareOk(2)
    && (rows != [] ==> w.listOk && Failures(w.outcome, |rows|) < if c.verifyData then 1 else MAX_ERRORS)
    && (rows != [] && c.verifyData ==> SampleOk(w, |rows|))
  }

  predicate Succeeds(c: Config, rows: seq<Row>, w: World) {
    Prepared(c, rows, w) && w.locationOk && (c.deleteSource ==> c.hasBucketManager && w.deleteOk)
  }

  class MigrationJob {
    const c: Config
    const rows: seq<Row>
    var objectsTotal: nat
    var bytesTotal: nat
    var objectsMigrated: nat
    var bytesMigrated: nat
    var source: set<Row>
    var target: set<Row>
    var moved: bool
    ghost var log: seq<Event>
    ghost var m: State

    /** The nodes and the location are those of a run; its prefixes are the crash points. */
    ghost predicate Mirrors()
      reads this
    {
      m == Run(c, rows, log) && m.source == source && m.target == target && m.moved == moved
    }

    constructor (c: Config, rows: seq<Row>)
      ensures Mirrors() && m == Start(rows) && this.c == c && this.rows == rows
    {
      this.c, this.rows := c, rows;
      objectsTotal, bytesTotal, objectsMigrated, bytesMigrated := 0, 0, 0, 0;
      source, target, moved := Rows(rows), {}, false;
      log, m := [], Start(rows);
    }

    ghost method Record(e: Event)
      requires m == Run(c, rows, log)
      modifies this`m, this`log
      ensures m == Run(c, rows, log) && m == Apply(c, rows, old(m), e)
    {
      ExecJoin(c, rows, Start(rows), log, [e]);
      log, m := log + [e], Apply(c, rows, m, e);
    }

    /** copyObject, and what the target then holds. */
    method CopyObject(row: Row, o: Outcome)
      requires Mirrors() && m.phase == Copying && m.cursor < |rows| && row == rows[m.cursor]
      modifies this`target, this`m, this`log
      ensures Mirrors() && m == Copied(old(m), row, o)
    {
      if o == Acked || o == ReplyLost {
        target := target + {row};
      }
      Record(Copy(o));
    }

    /** One turn of the listing loop: `copied` and `bytes` so far, and the progress every ten objects. */
    method CopyNext(row: Row, o: Outcome, copied0: nat, bytes0: nat) returns (copied: nat, bytes: nat)
      requires Mirrors() && m.phase == Copying && m.cursor < |rows| && row == rows[m.cursor]
      requires m.copied == copied0 && m.bytes == bytes0
      modifies this`target, this`objectsMigrated, this`bytesMigrated, this`m, this`log
      ensures Mirrors() && m == Copied(old(m), row, o) && m.copied == copied && m.bytes == bytes
    {
      copied, bytes := copied0, bytes0;
      CopyObject(row, o);
      if o == Acked {
        copied, bytes := copied + 1, bytes + row.size;
        if copied % 10 == 0 {
          objectsMigrated, bytesMigrated := copied, bytes;
        }
      }
    }

    /** copyBucketObjects: ten failures give up, fewer are tolerated. */
    method CopyBucketObjects(w: World) returns (ok: bool)
      requires Mirrors() && m == Start(rows).(phase := Copying)
      requires w.delivered <= |rows| && (w.listOk ==> w.delivered == |rows|)
      modifies this`target, this`objectsMigrated, this`bytesMigrated, this`m, this`log
      ensures Mirrors()
      ensures ok <==> w.listOk && Failures(w.outcome, |rows|) < MAX_ERRORS
      ensures m.phase == if ok then Sharing(0) else Failed
      ensures ok ==> objectsMigrated == m.copied == |rows| - Failures(w.outcome, |rows|) && bytesMigrated == m.bytes
    {
      var copied, bytes, errors := 0, 0, 0;
      var i := 0;
      while i < w.delivered
        invariant 0 <= i <= w.delivered && errors == Failures(w.outcome, i) < MAX_ERRORS && copied == i - errors
        invariant Mirrors() && m.phase == Copying && m.cursor == i
        invariant m.errors == errors && m.copied == copied && m.bytes == bytes
      {
        var o := w.outcome(i);
        copied, bytes := CopyNext(rows[i], o, copied, bytes);
        if o != Acked {
          errors := errors + 1;
          if errors >= MAX_ERRORS {
            FailuresGrow(w.outcome, i + 1, |rows|);
            return false;
          }
        }
        i := i + 1;
      }
      Record(EndCopy(w.listOk));
      if !w.listOk {
        return false;
      }
      objectsMigrated, bytesMigrated := copied, bytes;
      return true;
    }

    /** verifyMigration: the counts, the bytes within one per cent, and the first ten objects. */
    method VerifyMigration(w: World) returns (ok: bool)
      ensures ok <==> objectsMigrated == objectsTotal && BytesClose(bytesTotal, bytesMigrated) && SampleOk(w, |rows|)
    {
      if objectsMigrated != objectsTotal {
        return false;
      }
      var diff: int := bytesTotal - bytesMigrated;
      if diff < 0 {
        diff := -diff;
      }
      if diff * 100 > bytesTotal || !w.lookupOk {
        return false;
      }
      var i := 0;
      while i < |rows| && i < SAMPLE
        invariant 0 <= i <= |rows| && i <= SAMPLE && forall j: nat :: j < i ==> w.head(j)
      {
        if !w.head(i) {
          return false;
        }
        i := i + 1;
      }
      return true;
    }

    /** The three steps that copy what belongs to the bucket besides its objects. */
    method ShareSettings(w: World) returns (ok: bool)
      requires Mirrors() && m.phase == Sharing(0)
      modifies this`m, this`log
      ensures Mirrors() && (ok <==> w.shareOk(0) && w.shareOk(1) && w.shareOk(2))
      ensures m == old(m).(phase := if !ok then Failed else if c.verifyData && rows != [] then Verifying else Moving)
    {
      var k := 0;
      while k < 3
        invariant 0 <= k <= 3 && Mirrors() && forall j: nat :: j < k ==> w.shareOk(j)
        invariant m == old(m).(phase := if k < 3 then Sharing(k) else if c.verifyData && rows != [] then Verifying else Moving)
      {
        Record(Share(w.shareOk(k)));
        if !w.shareOk(k) {
          return false;
        }
        k := k + 1;
      }
      return true;
    }

    /** The location change and, if asked for, the deletion of the source. */
    method Switch(w: World) returns (ok: bool)
      requires Mirrors() && m.phase == Moving
      modifies this
      ensures Mirrors() && (ok <==> w.locationOk && (c.deleteSource ==> c.hasBucketManager && w.deleteOk))
      ensures ok ==> moved && source == (if c.deleteSource then {} else old(source))
    {
      Record(SetLocation(w.locationOk));
      if !w.locationOk {
        return false;
      }
      moved := true;
      if c.deleteSource {
        if !c.hasBucketManager {
          return false;
        }
        if !w.deleteOk {
          source := source - w.removed;
          Record(Remove(w.removed));
        } else {
          source := {};
        }
        Record(EndDelete(w.deleteOk));
        return w.deleteOk;
      }
      return true;
    }

    /** Verification, against the totals counted at the start. */
    method Check(w: World) returns (ok: bool)
      requires Mirrors() && m.phase == Verifying && objectsTotal == |rows| && bytesTotal == Total(rows)
      requires objectsMigrated == m.copied && bytesMigrated == m.bytes
      modifies this`m, this`log
      ensures Mirrors() && (ok <==> old(m.copied) == |rows| && SampleOk(w, |rows|))
      ensures ok ==> m.phase == Moving
    {
      ok := VerifyMigration(w);
      AllCopiedMeansAllBytes(c, rows, log);
      Record(Verify(SampleOk(w, |rows|)));
    }

    /** Everything before the location changes. */
    method Prepare(w: World) returns (ok: bool)
      requires Mirrors() && m == Start(rows)
      requires w.delivered <= |rows| && (w.listOk ==> w.delivered == |rows|)
      modifies this
      ensures Mirrors() && source == old(source) && moved == old(moved) == false
      ensures ok ==> m.phase == Moving
      ensures ok <==> Prepared(c, rows, w)
    {
      Record(Count(w.countOk));
      if !w.countOk {
        return false;
      }
      objectsTotal, bytesTotal := |rows|, Total(rows);
      if |rows| > 0 {
        ok := CopyBucketObjects(w);
        if !ok {
          return false;
        }
      }
      ok := ShareSettings(w);
      if ok && c.verifyData && |rows| > 0 {
        ok := Check(w);
      }
    }

    /**
     * executeMigration. It succeeds exactly when Succeeds says so; however it ends, a verified
     * one has lost nothing and has moved only a complete bucket.
     */
    method ExecuteMigration(w: World) returns (ok: bool)
      requires Mirrors() && m == Start(rows)
      requires w.delivered <= |rows| && (w.listOk ==> w.delivered == |rows|)
      modifies this
      ensures Mirrors() && (ok <==> Succeeds(c, rows, w))
      ensures ok ==> moved && source == if c.deleteSource then {} else Rows(rows)
      ensures c.verifyData ==> Rows(rows) <= source + target && (moved ==> Rows(rows) <= target)
      ensures Missing(rows, source + target) < MAX_ERRORS
    {
      ok := Prepare(w);
      if ok {
        ok := Switch(w);
      }
      RunKeepsInv(c, rows, log);
      AtMostNineLost(c, rows, log);
      if c.verifyData {
        MovedMeansCopied(c, rows, log);
      }
    }
  }
}
