/**
 * Whole runs of the program against one log file, as the integration tests
 * drive it: a queue is opened on the log, producers, consumers and the
 * persistence worker act in some order, and the queue is shut down; later a
 * new queue is opened on the same log.
 */
module Sessions {
  import opened Wrappers
  import opened Messages
  import opened LogStore
  import opened MessageQueues

  /** One thing that happens to an open queue. */
  datatype Action =
    | Produce(m: Message)        // a producer calls `enqueue(m)`
    | Consume                    // a consumer calls `dequeue()`
    | Persist(writeOk: bool)     // the worker runs one pass of its loop; its write succeeds when `writeOk`

  /** The messages the actions enqueue, in order. */
  function Produced(actions: seq<Action>): (ms: seq<Message>)
    ensures |ms| <= |actions|
  {
    if actions == [] then []
    else
      var last := actions[|actions| - 1];
      Produced(actions[..|actions| - 1]) + (if last.Produce? then [last.m] else [])
  }

  lemma ProducedStep(actions: seq<Action>, i: nat)
    requires i < |actions|
    ensures Produced(actions[..i + 1]) ==
      Produced(actions[..i]) + (if actions[i].Produce? then [actions[i].m] else [])
  {
    assert actions[..i + 1][..i] == actions[..i];
  }

  /** No worker pass among the actions has its write fail. */
  predicate NoFailedWrite(actions: seq<Action>) {
    forall i :: 0 <= i < |actions| ==> actions[i] != Persist(false)
  }

  /**
   * Performs one action on an open queue: the ready queue and what the
   * consumers received together still hold the same messages in the same
   * order, extended by the message a producer enqueued. Only a failed write
   * of a non-empty batch loses messages.
   */
  method Perform(q: MessageQueue, a: Action) returns (got: Option<Message>)
    requires q.Valid() && q.batch == []
    modifies q, q.store
    ensures q.Valid() && q.batch == []
    ensures q.initialLog == old(q.initialLog)
    ensures q.accepted == old(q.accepted) + (if a.Produce? then [a.m] else [])
    ensures (if got.Some? then [got.value] else []) + q.ready
      == old(q.ready) + (if a.Produce? then [a.m] else [])
    ensures q.intact == (old(q.intact) && (a != Persist(false) || old(q.staging) == []))
  {
    got := None;
    match a {
      case Produce(m) =>
        q.Enqueue(m);
      case Consume =>
        got := q.Dequeue();
      case Persist(writeOk) =>
        var _ := q.WorkerStep(writeOk);
    }
  }

  /** What a consumer received, followed by what is still queued, is unchanged by one action apart from the produced message. */
  lemma Conserved(consumed: seq<Message>, ready0: seq<Message>, got: Option<Message>, ready: seq<Message>, extra: seq<Message>)
    requires (if got.Some? then [got.value] else []) + ready == ready0 + extra
    ensures (consumed + (if got.Some? then [got.value] else [])) + ready == (consumed + ready0) + extra
  {
    assert (consumed + (if got.Some? then [got.value] else [])) + ready
      == consumed + ((if got.Some? then [got.value] else []) + ready);
  }

  /**
   * Performs `actions` in order on an open queue: the consumers receive a
   * prefix of what was queued followed by the produced messages, and the
   * queue accepts exactly the produced ones.
   */
  method PerformAll(q: MessageQueue, actions: seq<Action>) returns (consumed: seq<Message>)
    requires q.Valid() && q.batch == [] && q.accepted == []
    modifies q, q.store
    ensures q.Valid() && q.batch == []
    ensures q.initialLog == old(q.initialLog)
    ensures q.accepted == Produced(actions)
    ensures consumed + q.ready == old(q.ready) + Produced(actions)
    ensures old(q.intact) && NoFailedWrite(actions) ==> q.intact
  {
    consumed := [];
    var i := 0;
    while i < |actions|
      invariant 0 <= i <= |actions|
      invariant q.Valid() && q.batch == []
      invariant q.initialLog == old(q.initialLog)
      invariant q.accepted == Produced(actions[..i])
      invariant consumed + q.ready == old(q.ready) + Produced(actions[..i])
      invariant old(q.intact) && NoFailedWrite(actions[..i]) ==> q.intact
    {
      ghost var ready0 := q.ready;
      var got := Perform(q, actions[i]);
      ProducedStep(actions, i);
      Conserved(consumed, ready0, got, q.ready, if actions[i].Produce? then [actions[i].m] else []);
      consumed := consumed + (if got.Some? then [got.value] else []);
      assert NoFailedWrite(actions[..i + 1]) ==> NoFailedWrite(actions[..i]) && actions[i] != Persist(false) by {
        if NoFailedWrite(actions[..i + 1]) {
          assert actions[..i + 1][i] == actions[i];
          assert forall j :: 0 <= j < i ==> actions[..i][j] == actions[..i + 1][j];
        }
      }
      i := i + 1;
    }
    assert actions[..i] == actions;
  }

  /**
   * Opens a queue on `store`, performs `actions` in order, and shuts the
   * queue down, the shutdown's write number `n` succeeding when
   * `outcome(n)`. The consumers receive a prefix of the recovered messages
   * followed by the produced ones, the log only grows, and when no write
   * fails it gains one record for every produced message, consumed or not.
   */
  method RunSession(store: LogFile, batchSize: int, actions: seq<Action>, outcome: nat -> bool)
    returns (consumed: seq<Message>)
    requires store.Valid()
    modifies store
    ensures store.Valid()
    ensures consumed <= Replay(old(store.lines)) + Produced(actions)
    ensures old(store.lines) <= store.lines
    ensures NoFailedWrite(actions) && (forall n :: outcome(n)) ==>
      store.lines == old(store.lines) + Records(Produced(actions))
  {
    var q := new MessageQueue(store, batchSize);
    assert !store.present ==> Replay(store.lines) == [];
    consumed := PerformAll(q, actions);
    ghost var staged := q.staging;
    q.Shutdown(outcome);
    if forall n :: outcome(n) {
      AllWrittenWhenWritesSucceed(batchSize, staged, outcome, 0);
    }
  }

  /**
   * Shut down, then start again on the same log: the new queue recovers at
   * least what the log held before, and when no write failed it holds
   * exactly that followed by every message the run produced, in order,
   * including the ones already consumed.
   */
  method RestartRecoversAll(store: LogFile, batchSize: int, actions: seq<Action>, outcome: nat -> bool)
    returns (q: MessageQueue)
    requires store.Valid()
    modifies store
    ensures q.Valid() && q.store == store
    ensures Replay(old(store.lines)) <= q.ready
    ensures NoFailedWrite(actions) && (forall n :: outcome(n)) ==>
      q.ready == Replay(old(store.lines)) + Produced(actions)
  {
    var _ := RunSession(store, batchSize, actions, outcome);
    ReplayAppend(old(store.lines), store.lines[|old(store.lines)|..]);
    assert store.lines == old(store.lines) + store.lines[|old(store.lines)|..];
    ReplayRecords(Produced(actions));
    q := new MessageQueue(store, batchSize);
  }

  /** The messages of successive runs, one run after the other. */
  function ProducedInRuns(runs: seq<seq<Action>>): (ms: seq<Message>)
  {
    if runs == [] then []
    else ProducedInRuns(runs[..|runs| - 1]) + Produced(runs[|runs| - 1])
  }

  /** No run has a failed write. */
  predicate NoFailedWriteInRuns(runs: seq<seq<Action>>) {
    forall c :: 0 <= c < |runs| ==> NoFailedWrite(runs[c])
  }

  /**
   * Repeated start/stop cycles on one log: the log only grows, and when no
   * write fails every cycle's records accumulate and recovery after the
   * last one yields all of them in order.
   */
  method StartStopCycles(store: LogFile, batchSize: int, runs: seq<seq<Action>>, outcome: nat -> bool)
    requires store.Valid()
    modifies store
    ensures store.Valid()
    ensures old(store.lines) <= store.lines
    ensures NoFailedWriteInRuns(runs) && (forall n :: outcome(n)) ==>
      store.lines == old(store.lines) + Records(ProducedInRuns(runs))
    ensures NoFailedWriteInRuns(runs) && (forall n :: outcome(n)) ==>
      Replay(store.lines) == Replay(old(store.lines)) + ProducedInRuns(runs)
  {
    ghost var succeeds := NoFailedWriteInRuns(runs) && (forall n :: outcome(n));
    var c := 0;
    while c < |runs|
      invariant 0 <= c <= |runs|
      invariant store.Valid()
      invariant old(store.lines) <= store.lines
      invariant succeeds ==> store.lines == old(store.lines) + Records(ProducedInRuns(runs[..c]))
    {
      ghost var before := store.lines;
      var _ := RunSession(store, batchSize, runs[c], outcome);
      assert runs[..c + 1][..c] == runs[..c];
      if succeeds {
        assert NoFailedWrite(runs[c]);
        assert store.lines == before + Records(Produced(runs[c]));
        AppendRecordsTwice(old(store.lines), ProducedInRuns(runs[..c]), Produced(runs[c]));
      }
      c := c + 1;
    }
    assert runs[..c] == runs;
    if succeeds {
      ReplayAppend(old(store.lines), Records(ProducedInRuns(runs)));
      ReplayRecords(ProducedInRuns(runs));
    }
  }
}
