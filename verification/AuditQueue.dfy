// internal/audit/sqlite.go: the audit log's single writer, fed by a bounded channel, with
// flush barriers and a closing flush.
module AuditQueue {

  const QUEUE_SIZE: nat := 4096
  const BATCH_SIZE: nat := 128

  /** A batch that was handed to insertBatch, and whether its transaction committed. */
  datatype Batch<E> = Batch(events: seq<E>, committed: bool)

  /** What the worker is doing; while serving a flush it knows how many events came before the call. */
  datatype Mode = Selecting | Draining(before: nat) | Exited

  /**
   * `accepted` is every event LogEvent took, `settled` the batches written or lost, in order.
   * `waiting` and `served` are Flush calls, each by the number of events accepted before it.
   */
  datatype State<E> = State(
    accepted: seq<E>, queue: seq<E>, batch: seq<E>, settled: seq<Batch<E>>,
    closed: bool, mode: Mode, waiting: seq<nat>, served: seq<nat>)

  datatype Event<E> =
    | Log(event: E)             // LogEvent puts it on the channel
    | CallFlush                 // Flush puts its reply channel on flushChan
    | CloseQueue                // Close closes the channel
    | Receive(ok: bool)         // the worker takes one event; `ok` is insertBatch's result if it flushes
    | Timer(ok: bool)           // the batch timer fires
    | TakeFlush                 // the worker picks up a flush request
    | Drain                     // and moves one queued event to the batch
    | Reply(ok: bool)           // until the queue is empty: it flushes and answers
    | Finish(ok: bool)          // closed and empty: it flushes and exits

  function Init<E>(): State<E> {
    State([], [], [], [], false, Selecting, [], [])
  }

  /** The worker's flush closure. */
  function Flushed<E>(s: State<E>, ok: bool): State<E> {
    if s.batch == [] then s else s.(settled := s.settled + [Batch(s.batch, ok)], batch := [])
  }

  /** The worker moves the first queued event to the end of the batch. */
  function Moved<E>(s: State<E>): State<E>
    requires s.queue != []
  {
    s.(batch := s.batch + [s.queue[0]], queue := s.queue[1..])
  }

  function Apply<E>(s: State<E>, e: Event<E>): State<E> {
    match e
    case Log(x) =>
      if s.closed || |s.queue| >= QUEUE_SIZE then s else s.(queue := s.queue + [x], accepted := s.accepted + [x])
    case CallFlush => s.(waiting := s.waiting + [|s.accepted|])
    case CloseQueue => s.(closed := true)
    case Receive(ok) =>
      if s.mode != Selecting || s.queue == [] then s
      else
        var t := Moved(s);
        if |t.batch| >= BATCH_SIZE then Flushed(t, ok) else t
    case Timer(ok) => if s.mode == Selecting then Flushed(s, ok) else s
    case TakeFlush =>
      if s.mode != Selecting || s.waiting == [] then s
      else s.(mode := Draining(s.waiting[0]), waiting := s.waiting[1..])
    case Drain =>
      if !s.mode.Draining? || s.queue == [] then s
      else Moved(s)
    case Reply(ok) =>
      if !s.mode.Draining? || s.queue != [] then s
      else Flushed(s, ok).(mode := Selecting, served := s.served + [s.mode.before])
    case Finish(ok) =>
      if s.mode != Selecting || !s.closed || s.queue != [] then s
      else Flushed(s, ok).(mode := Exited)
  }

  function Exec<E>(s: State<E>, events: seq<Event<E>>): State<E>
    decreases |events|
  {
    if events == [] then s else Exec(Apply(s, events[0]), events[1..])
  }

  lemma {:induction false} ExecOneMore<E>(s: State<E>, events: seq<Event<E>>, e: Event<E>)
    ensures Exec(s, events + [e]) == Apply(Exec(s, events), e)
    decreases |events|
  {
    if events == [] {
      assert [e][1..] == [] && events + [e] == [e];
    } else {
      assert (events + [e])[1..] == events[1..] + [e];
      ExecOneMore(Apply(s, events[0]), events[1..], e);
    }
  }

  // ----- nothing is lost, repeated or reordered -----

  /** All events of the settled batches, in order. */
  function Settled<E>(bs: seq<Batch<E>>): seq<E> {
    if bs == [] then [] else Settled(bs[..|bs| - 1]) + bs[|bs| - 1].events
  }

  /** The table: the events of the committed batches, in order. */
  function Committed<E>(bs: seq<Batch<E>>): seq<E> {
    if bs == [] then []
    else Committed(bs[..|bs| - 1]) + if bs[|bs| - 1].committed then bs[|bs| - 1].events else []
  }

  predicate NoneFailed<E>(bs: seq<Batch<E>>) {
    forall i :: 0 <= i < |bs| ==> bs[i].committed
  }

  /** Where the accepted events are, and how far Flush calls have been served. */
  ghost predicate Flow<E>(s: State<E>) {
    && s.accepted == Settled(s.settled) + s.batch + s.queue
    && (forall i :: 0 <= i < |s.settled| ==> s.settled[i].events != [])
    && (forall i :: 0 <= i < |s.waiting| ==> s.waiting[i] <= |s.accepted|)
    && (s.mode.Draining? ==> s.mode.before <= |s.accepted|)
    && (forall i :: 0 <= i < |s.served| ==> s.served[i] <= |Settled(s.settled)|)
  }

  ghost predicate Inv<E>(s: State<E>) {
    && Flow(s)
    && |s.queue| <= QUEUE_SIZE
    && (!s.mode.Draining? ==> |s.batch| < BATCH_SIZE)
    && (s.mode == Exited ==> s.closed && s.queue == [] && s.batch == [])
  }

  lemma FlushKeepsFlow<E>(s: State<E>, ok: bool)
    requires Flow(s)
    ensures Flow(Flushed(s, ok)) && Flushed(s, ok).batch == []
    ensures |Settled(Flushed(s, ok).settled)| == |Settled(s.settled)| + |s.batch|
  {
    if s.batch != [] {
      var bs := s.settled + [Batch(s.batch, ok)];
      assert bs[..|bs| - 1] == s.settled;
    }
  }

  lemma MoveKeepsFlow<E>(s: State<E>)
    requires Flow(s) && s.queue != []
    ensures Flow(Moved(s))
  {
    assert s.queue == [s.queue[0]] + s.queue[1..];
    assert s.batch + s.queue == s.batch + [s.queue[0]] + s.queue[1..];
  }

  lemma LogKeepsFlow<E>(s: State<E>, x: E)
    requires Flow(s)
    ensures Flow(s.(queue := s.queue + [x], accepted := s.accepted + [x]))
  {
    assert Settled(s.settled) + s.batch + (s.queue + [x]) == Settled(s.settled) + s.batch + s.queue + [x];
  }

  lemma ReceiveKeepsInv<E>(s: State<E>, ok: bool)
    requires Inv(s)
    ensures Inv(Apply(s, Receive(ok)))
  {
    if s.mode == Selecting && s.queue != [] {
      MoveKeepsFlow(s);
      FlushKeepsFlow(Moved(s), ok);
    }
  }

  lemma FlushingKeepsInv<E>(s: State<E>, e: Event<E>)
    requires Inv(s) && (e.Timer? || e.Finish?)
    ensures Inv(Apply(s, e))
  {
    FlushKeepsFlow(s, e.ok);
  }

  lemma AnswerKeepsFlow<E>(s: State<E>, before: nat)
    requires Flow(s) && before <= |Settled(s.settled)|
    ensures Flow(s.(mode := Selecting, served := s.served + [before]))
  {
  }

  lemma ReplyKeepsInv<E>(s: State<E>, ok: bool)
    requires Inv(s)
    ensures Inv(Apply(s, Reply(ok)))
  {
    if s.mode.Draining? && s.queue == [] {
      FlushKeepsFlow(s, ok);
      assert |s.accepted| == |Settled(s.settled)| + |s.batch|;
      AnswerKeepsFlow(Flushed(s, ok), s.mode.before);
    }
  }

  lemma QueueingKeepsInv<E>(s: State<E>, e: Event<E>)
    requires Inv(s) && (e.Log? || e.CallFlush? || e.CloseQueue? || e.TakeFlush? || e.Drain?)
    ensures Inv(Apply(s, e))
  {
    if e.Log? {
      LogKeepsFlow(s, e.event);
    } else if e.Drain? && s.queue != [] {
      MoveKeepsFlow(s);
    }
  }

  lemma ApplyKeepsInv<E>(s: State<E>, e: Event<E>)
    requires Inv(s)
    ensures Inv(Apply(s, e))
  {
    match e
    case Receive(ok) => ReceiveKeepsInv(s, ok);
    case Timer(_) => FlushingKeepsInv(s, e);
    case Finish(_) => FlushingKeepsInv(s, e);
    case Reply(ok) => ReplyKeepsInv(s, ok);
    case _ => QueueingKeepsInv(s, e);
  }

  lemma {:induction false} RunKeepsInv<E>(s: State<E>, events: seq<Event<E>>)
    requires Inv(s)
    ensures Inv(Exec(s, events))
    decreases |events|
  {
    if events != [] {
      ApplyKeepsInv(s, events[0]);
      RunKeepsInv(Apply(s, events[0]), events[1..]);
    }
  }

  /**
   * In every run each accepted event is, in order and exactly once, in a settled batch, the
   * current batch or the queue.
   */
  lemma Conserved<E>(events: seq<Event<E>>)
    ensures var s := Exec(Init<E>(), events); s.accepted == Settled(s.settled) + s.batch + s.queue
  {
    RunKeepsInv(Init<E>(), events);
  }

  /** The table holds all settled events exactly when no batch failed. */
  lemma {:induction false} CommittedExactly<E>(bs: seq<Batch<E>>)
    requires forall i :: 0 <= i < |bs| ==> bs[i].events != []
    ensures |Committed(bs)| <= |Settled(bs)|
    ensures Committed(bs) == Settled(bs) <==> NoneFailed(bs)
    decreases |bs|
  {
    if bs != [] {
      var n := |bs| - 1;
      CommittedExactly(bs[..n]);
      if Committed(bs) == Settled(bs) {
        assert bs[n].committed;
        assert Committed(bs)[..|Committed(bs[..n])|] == Settled(bs)[..|Settled(bs[..n])|];
      }
      if NoneFailed(bs) {
        assert NoneFailed(bs[..n]);
      }
    }
  }

  lemma ServedIsCommitted<E>(s: State<E>, k: nat)
    requires Inv(s) && k < |s.served| && NoneFailed(s.settled)
    ensures s.served[k] <= |s.accepted| && s.accepted[..s.served[k]] <= Committed(s.settled)
  {
    CommittedExactly(s.settled);
    assert s.accepted[..s.served[k]] == Settled(s.settled)[..s.served[k]];
  }

  /** When a Flush returns and no insert failed, every event accepted before the call is in the table. */
  lemma FlushCommits<E>(events: seq<Event<E>>, k: nat)
    requires k < |Exec(Init<E>(), events).served| && NoneFailed(Exec(Init<E>(), events).settled)
    ensures var s := Exec(Init<E>(), events);
            s.served[k] <= |s.accepted| && s.accepted[..s.served[k]] <= Committed(s.settled)
  {
    RunKeepsInv(Init<E>(), events);
    ServedIsCommitted(Exec(Init<E>(), events), k);
  }

  lemma NothingLeft<E>(s: State<E>)
    requires Inv(s) && s.queue == [] && s.batch == []
    ensures s.accepted == Settled(s.settled)
    ensures Committed(s.settled) == s.accepted <==> NoneFailed(s.settled)
  {
    CommittedExactly(s.settled);
  }

  /** When the worker has exited, everything accepted is settled, and in the table if no insert failed. */
  lemma CloseCommits<E>(events: seq<Event<E>>)
    requires Exec(Init<E>(), events).mode == Exited
    ensures var s := Exec(Init<E>(), events);
            && s.accepted == Settled(s.settled)
            && (Committed(s.settled) == s.accepted <==> NoneFailed(s.settled))
  {
    RunKeepsInv(Init<E>(), events);
    NothingLeft(Exec(Init<E>(), events));
  }

  lemma TableIsComplete<E>(s: State<E>, events: seq<Event<E>>)
    requires s == Exec(Init<E>(), events) && s.queue == [] && s.batch == []
    ensures NoneFailed(s.settled) <==> Committed(s.settled) == s.accepted
  {
    RunKeepsInv(Init<E>(), events);
    NothingLeft(s);
  }

  lemma CommittedAfterFlush<E>(s: State<E>, ok: bool)
    ensures Committed(Flushed(s, ok).settled) == Committed(s.settled) + if ok then s.batch else []
  {
    if s.batch != [] {
      var bs := s.settled + [Batch(s.batch, ok)];
      assert bs[..|bs| - 1] == s.settled;
    }
  }

  // ----- and something happens -----

  lemma {:induction false} ExecJoin<E>(s: State<E>, before: seq<Event<E>>, after: seq<Event<E>>)
    ensures Exec(s, before + after) == Exec(Exec(s, before), after)
    decreases |before|
  {
    if before == [] {
      assert before + after == after;
    } else {
      assert (before + after)[1..] == before[1..] + after;
      ExecJoin(Apply(s, before[0]), before[1..], after);
    }
  }

  function Drains<E>(n: nat): seq<Event<E>> {
    seq(n, _ => Drain)
  }

  function Receives<E>(n: nat): seq<Event<E>> {
    seq(n, _ => Receive(true))
  }

  lemma {:induction false} DrainsQueue<E>(s: State<E>)
    requires s.mode.Draining?
    ensures Exec(s, Drains<E>(|s.queue|)) == s.(batch := s.batch + s.queue, queue := [])
    decreases |s.queue|
  {
    if s.queue != [] {
      var u := Apply(s, Drain);
      assert Drains<E>(|s.queue|)[1..] == Drains<E>(|u.queue|);
      DrainsQueue(u);
      assert s.batch + s.queue == u.batch + u.queue;
    } else {
      assert s.batch + s.queue == s.batch;
    }
  }

  lemma DrainAndReply<E>(s: State<E>, ok: bool)
    requires s.mode.Draining?
    ensures Exec(s, Drains<E>(|s.queue|) + [Reply(ok)]) ==
            Flushed(s.(batch := s.batch + s.queue, queue := []), ok).(mode := Selecting, served := s.served + [s.mode.before])
  {
    ExecJoin(s, Drains<E>(|s.queue|), [Reply(ok)]);
    DrainsQueue(s);
  }

  /** The oldest waiting Flush call is served by draining the queue: batch and queue are empty, and it is answered. */
  lemma FlushIsServed<E>(s: State<E>, ok: bool)
    requires s.mode == Selecting && s.waiting != []
    ensures var t := Exec(Apply(s, TakeFlush), Drains<E>(|s.queue|) + [Reply(ok)]);
            && t.mode == Selecting && t.queue == [] && t.batch == [] && t.accepted == s.accepted
            && t.waiting == s.waiting[1..] && t.served == s.served + [s.waiting[0]]
            && Committed(t.settled) == Committed(s.settled) + if ok then s.batch + s.queue else []
  {
    DrainAndReply(Apply(s, TakeFlush), ok);
    CommittedAfterFlush(Apply(s, TakeFlush).(batch := s.batch + s.queue, queue := []), ok);
  }

  /** A Flush call waits behind the others, for all that was accepted before it. */
  lemma FlushWaits<E>(s: State<E>)
    ensures Apply(s, CallFlush) == s.(waiting := s.waiting + [|s.accepted|])
  {
  }

  lemma FlushFailsNone<E>(s: State<E>)
    requires NoneFailed(s.settled)
    ensures NoneFailed(Flushed(s, true).settled)
  {
  }

  lemma ReceiveTakes<E>(s: State<E>)
    requires s.mode == Selecting && s.queue != []
    ensures var u := Apply(s, Receive(true));
            && u == s.(queue := s.queue[1..], batch := u.batch, settled := u.settled)
            && (NoneFailed(s.settled) ==> NoneFailed(u.settled))
  {
    if NoneFailed(s.settled) {
      FlushFailsNone(Moved(s));
    }
  }

  lemma {:induction false} ReceivesQueue<E>(s: State<E>, n: nat)
    requires Inv(s) && s.mode == Selecting && n <= |s.queue|
    ensures var t := Exec(s, Receives<E>(n));
            && Inv(t) && t.mode == Selecting && t.closed == s.closed && t.queue == s.queue[n..] && t.accepted == s.accepted
            && (NoneFailed(s.settled) ==> NoneFailed(t.settled))
    decreases n
  {
    if n > 0 {
      assert Receives<E>(n)[1..] == Receives<E>(n - 1);
      ReceiveTakes(s);
      ReceiveKeepsInv(s, true);
      var u := Apply(s, Receive(true));
      assert u.queue[n - 1..] == s.queue[n..];
      ReceivesQueue(u, n - 1);
    }
  }

  lemma FinishExits<E>(s: State<E>)
    requires s.mode == Selecting && s.closed && s.queue == [] && NoneFailed(s.settled)
    ensures var t := Apply(s, Finish(true));
            t.mode == Exited && t.accepted == s.accepted && t.queue == [] && t.batch == [] && NoneFailed(t.settled)
  {
    FlushFailsNone(s);
  }

  lemma ClosedDrains<E>(s: State<E>)
    requires Inv(s) && s.mode == Selecting && s.closed && NoneFailed(s.settled)
    ensures var t := Exec(s, Receives<E>(|s.queue|) + [Finish(true)]);
            Inv(t) && t.mode == Exited && t.accepted == s.accepted && NoneFailed(t.settled)
  {
    ExecJoin(s, Receives<E>(|s.queue|), [Finish(true)]);
    ReceivesQueue(s, |s.queue|);
    var u := Exec(s, Receives<E>(|s.queue|));
    FinishExits(u);
    FlushingKeepsInv(u, Finish(true));
  }

  /** After Close the worker takes what is queued, writes the last batch and exits; then all of it is in the table. */
  lemma CloseEnds<E>(s: State<E>)
    requires Inv(s) && s.mode == Selecting && NoneFailed(s.settled)
    ensures var t := Exec(Apply(s, CloseQueue), Receives<E>(|s.queue|) + [Finish(true)]);
            t.mode == Exited && t.accepted == s.accepted && Committed(t.settled) == s.accepted
  {
    QueueingKeepsInv(s, CloseQueue);
    ClosedDrains(Apply(s, CloseQueue));
    NothingLeft(Exec(Apply(s, CloseQueue), Receives<E>(|s.queue|) + [Finish(true)]));
  }

  /** An event is accepted exactly while the queue is open and has fewer than 4096 others on it. */
  lemma AcceptedExactly<E>(s: State<E>, x: E)
    ensures Apply(s, Log(x)).accepted == (if !s.closed && |s.queue| < 4096 then s.accepted + [x] else s.accepted)
    ensures Apply(s, Log(x)).accepted == s.accepted ==> Apply(s, Log(x)) == s
  {
  }

  /** Taking an event writes a batch exactly if it is the batch's 128th. */
  lemma ReceiveWritesExactly<E>(s: State<E>, ok: bool)
    requires Inv(s)
    ensures Apply(s, Receive(ok)).settled != s.settled <==> s.mode == Selecting && s.queue != [] && |s.batch| == 127
  {
  }

  /** The timer writes what there is of a batch, unless the worker is busy with a flush or gone. */
  lemma TimerWrites<E>(s: State<E>, ok: bool)
    requires Inv(s)
    ensures var t := Apply(s, Timer(ok));
            if s.mode == Selecting && s.batch != [] then t == s.(batch := [], settled := s.settled + [Batch(s.batch, ok)]) else t == s
  {
  }

  // ----- the store itself -----

  class SQLiteStore<E(==)> {
    var writeChan: seq<E>
    var flushChan: nat
    var batch: seq<E>
    var db: seq<E>
    var closed: bool
    var done: bool
    ghost var log: seq<Event<E>>
    ghost var m: State<E>

    /** The fields are those of a state of the machine. */
    ghost predicate Mirrors()
      reads this
    {
      && m == Exec(Init<E>(), log) && m.queue == writeChan && m.batch == batch && db == Committed(m.settled)
      && m.closed == closed && (done <==> m.mode == Exited) && |m.waiting| == flushChan
    }

    ghost predicate Valid()
      reads this
    {
      Mirrors() && !m.mode.Draining?
    }

    constructor ()
      ensures Valid() && m == Init<E>()
    {
      writeChan, flushChan, batch, db, closed, done := [], 0, [], [], false, false;
      log, m := [], Init<E>();
    }

    ghost method Record(e: Event<E>)
      requires m == Exec(Init<E>(), log)
      modifies this`m, this`log
      ensures m == Apply(old(m), e) && m == Exec(Init<E>(), log)
    {
      ExecOneMore(Init<E>(), log, e);
      log, m := log + [e], Apply(m, e);
    }

    /** LogEvent: false when the context ends before there is room. */
    method LogEvent(e: E, roomInTime: bool) returns (ok: bool)
      requires Valid() && !closed
      modifies this`writeChan, this`log, this`m
      ensures Valid()
      ensures ok <==> old(|writeChan|) < QUEUE_SIZE && roomInTime
      ensures m.accepted == old(m.accepted) + if ok then [e] else []
    {
      if |writeChan| >= QUEUE_SIZE || !roomInTime {
        return false;
      }
      writeChan := writeChan + [e];
      Record(Log(e));
      return true;
    }

    /** insertBatch as the flush closure uses it; `s` is the machine state it is called in. */
    method InsertBatch(ok: bool, ghost s: State<E>)
      requires s.batch == batch && db == Committed(s.settled)
      modifies this`db, this`batch
      ensures batch == Flushed(s, ok).batch && db == Committed(Flushed(s, ok).settled)
    {
      CommittedAfterFlush(s, ok);
      if batch == [] {
        return;
      }
      if ok {
        db := db + batch;
      }
      batch := [];
    }

    /** The worker's case for a received event. */
    method OnReceive(ok: bool)
      requires Valid() && !done && writeChan != []
      modifies this`writeChan, this`batch, this`db, this`log, this`m
      ensures Valid() && writeChan == old(writeChan)[1..]
      ensures m.accepted == old(m.accepted)
    {
      ghost var moved := Moved(m);
      batch := batch + [writeChan[0]];
      writeChan := writeChan[1..];
      if |batch| >= BATCH_SIZE {
        InsertBatch(ok, moved);
      }
      Record(Receive(ok));
    }

    method OnTimer(ok: bool)
      requires Valid() && !done
      modifies this`batch, this`db, this`log, this`m
      ensures Valid() && batch == []
      ensures m.accepted == old(m.accepted)
    {
      ghost var s := m;
      assert s.mode == Selecting;
      InsertBatch(ok, s);
      Record(Timer(ok));
      assert m == Flushed(s, ok);
    }

    /** The end of a flush barrier: write the batch and answer the caller. */
    method Answer(ok: bool)
      requires Mirrors() && m.mode.Draining? && writeChan == []
      modifies this`batch, this`db, this`log, this`m
      ensures Valid() && batch == [] && m.accepted == old(m.accepted) && m.served == old(m.served) + [old(m.mode.before)]
      ensures m.waiting == old(m.waiting)
      ensures NoneFailed(m.settled) <==> db == m.accepted
    {
      InsertBatch(ok, m);
      Record(Reply(ok));
      assert m == Flushed(old(m), ok).(mode := Selecting, served := old(m.served) + [old(m.mode.before)]);
      TableIsComplete(m, log);
    }

    method DrainOne()
      requires Mirrors() && m.mode.Draining? && writeChan != []
      modifies this`writeChan, this`batch, this`log, this`m
      ensures Mirrors() && m == Moved(old(m)) && writeChan == old(writeChan)[1..]
    {
      batch := batch + [writeChan[0]];
      writeChan := writeChan[1..];
      Record(Drain);
    }

    /** The worker's case for a flush request: everything queued goes into the batch first. */
    method OnFlush(ok: bool)
      requires Valid() && !done && flushChan > 0
      modifies this`writeChan, this`flushChan, this`batch, this`db, this`log, this`m
      ensures Valid() && batch == [] && writeChan == [] && flushChan == old(flushChan) - 1
      ensures m.accepted == old(m.accepted) && m.served == old(m.served) + [old(m.waiting[0])]
      ensures NoneFailed(m.settled) <==> db == m.accepted
    {
      ghost var start := m;
      flushChan := flushChan - 1;
      Record(TakeFlush);
      while |writeChan| > 0
        invariant Mirrors() && !done && flushChan == old(flushChan) - 1 && m.mode == Draining(start.waiting[0])
        invariant m.accepted == start.accepted && m.served == start.served
      {
        DrainOne();
      }
      Answer(ok);
    }

    /** Flush: the request joins the ones that wait, and the worker serves them in turn. */
    method Flush(inserts: nat -> bool)
      requires Valid() && !done
      modifies this`writeChan, this`flushChan, this`batch, this`db, this`log, this`m
      ensures Valid() && batch == [] && writeChan == [] && flushChan == 0
      ensures m.accepted == old(m.accepted)
      ensures NoneFailed(m.settled) <==> db == m.accepted
    {
      ghost var before := m.accepted;
      flushChan := flushChan + 1;
      Record(CallFlush);
      var n := 0;
      while flushChan > 0
        invariant Valid() && !done && n >= 0 && m.accepted == before
        invariant flushChan == 0 ==> batch == [] && writeChan == [] && (NoneFailed(m.settled) <==> db == m.accepted)
      {
        OnFlush(inserts(n));
        n := n + 1;
      }
    }

    /** The worker's case for a closed, empty channel. */
    method OnClosed(ok: bool)
      requires Valid() && !done && closed && writeChan == []
      modifies this`batch, this`db, this`done, this`log, this`m
      ensures Valid() && done && m.accepted == old(m.accepted)
      ensures NoneFailed(m.settled) <==> db == m.accepted
    {
      WriteLast(ok);
      done := true;
    }

    /** The flush before the worker exits. */
    method WriteLast(ok: bool)
      requires Mirrors() && m.mode == Selecting && closed && writeChan == []
      modifies this`batch, this`db, this`log, this`m
      ensures m == Exec(Init<E>(), log) && m == Flushed(old(m), ok).(mode := Exited)
      ensures m.queue == writeChan && m.batch == batch && db == Committed(m.settled)
      ensures NoneFailed(m.settled) <==> db == m.accepted
    {
      InsertBatch(ok, m);
      Record(Finish(ok));
      assert m == Flushed(old(m), ok).(mode := Exited);
      TableIsComplete(m, log);
    }

    /** Close: the worker empties the channel, flushes and exits. */
    method Close(inserts: nat -> bool)
      requires Valid() && !done
      modifies this`writeChan, this`batch, this`db, this`closed, this`done, this`log, this`m
      ensures Valid() && done && m.accepted == old(m.accepted)
      ensures NoneFailed(m.settled) <==> db == m.accepted
    {
      closed := true;
      Record(CloseQueue);
      var n := 0;
      while writeChan != []
        invariant Valid() && !done && closed && n >= 0 && m.accepted == old(m.accepted)
        decreases |writeChan|
      {
        OnReceive(inserts(n));
        n := n + 1;
      }
      OnClosed(inserts(n));
    }
  }
}
