/**
 * MessageQueue (src/main/java/com/ofek/queue/MessageQueue.java) without its
 * threads: the ready queue consumers poll, the staging buffer that feeds
 * persistence, and the log file, with the persistence worker's loop body as
 * an explicit step.
 */
module MessageQueues {
  import opened Wrappers
  import opened Messages
  import opened LogStore

  const DefaultBatchSize: int := 100

  /**
   * How many staged messages one worker step writes: the one it takes, plus
   * more while the batch is below `batchSize` and messages remain.
   */
  function BatchCount(batchSize: int, staged: nat): (k: nat)
    ensures staged == 0 <==> k == 0
    ensures k <= staged && k <= (if batchSize > 1 then batchSize else 1)
    ensures batchSize >= 1 && staged >= batchSize ==> k == batchSize
    ensures batchSize >= 1 && staged <= batchSize ==> k == staged
  {
    if staged == 0 then 0
    else if batchSize <= 1 then 1
    else if staged < batchSize then staged
    else batchSize
  }

  /**
   * The messages a flush of `staged` writes to the log, when the worker's
   * write number `n` (counting from `step`) succeeds exactly when
   * `outcome(n)`: each pass takes the next `BatchCount` messages, and a
   * failed write loses them.
   */
  function Persisted(batchSize: int, staged: seq<Message>, outcome: nat -> bool, step: nat): (ms: seq<Message>)
    ensures |ms| <= |staged|
    decreases |staged|
  {
    if staged == [] then []
    else
      var k := BatchCount(batchSize, |staged|);
      (if outcome(step) then staged[..k] else []) + Persisted(batchSize, staged[k..], outcome, step + 1)
  }

  /** Every write of a flush of `staged` succeeds. */
  predicate AllWritten(batchSize: int, staged: seq<Message>, outcome: nat -> bool, step: nat)
    decreases |staged|
  {
    staged == [] ||
    (outcome(step) && AllWritten(batchSize, staged[BatchCount(batchSize, |staged|)..], outcome, step + 1))
  }

  /** A flush logs everything it was given exactly when none of its writes fails. */
  lemma {:induction false} PersistedAllWritten(batchSize: int, staged: seq<Message>, outcome: nat -> bool, step: nat)
    ensures AllWritten(batchSize, staged, outcome, step) <==> Persisted(batchSize, staged, outcome, step) == staged
    decreases |staged|
  {
    if staged != [] {
      var k := BatchCount(batchSize, |staged|);
      PersistedAllWritten(batchSize, staged[k..], outcome, step + 1);
      assert staged == staged[..k] + staged[k..];
      if outcome(step) {
        var rest := Persisted(batchSize, staged[k..], outcome, step + 1);
        assert staged[..k] + rest == staged <==> rest == staged[k..] by {
          if staged[..k] + rest == staged {
            assert rest == (staged[..k] + rest)[k..];
          }
        }
      }
    }
  }

  /** When no write can fail, every flush writes all of its batches. */
  lemma {:induction false} AllWrittenWhenWritesSucceed(batchSize: int, staged: seq<Message>, outcome: nat -> bool, step: nat)
    requires forall n :: outcome(n)
    ensures AllWritten(batchSize, staged, outcome, step)
    decreases |staged|
  {
    if staged != [] {
      AllWrittenWhenWritesSucceed(batchSize, staged[BatchCount(batchSize, |staged|)..], outcome, step + 1);
    }
  }

  /** One pass of a flush: the written prefix grows by the batch, if its write succeeded. */
  lemma FlushStep(batchSize: int, before: seq<Message>, outcome: nat -> bool, step: nat, written: seq<Message>, chunk: seq<Message>)
    requires before != []
    requires chunk == if outcome(step) then before[..BatchCount(batchSize, |before|)] else []
    ensures written + Persisted(batchSize, before, outcome, step)
      == (written + chunk) + Persisted(batchSize, before[BatchCount(batchSize, |before|)..], outcome, step + 1)
    ensures AllWritten(batchSize, before, outcome, step)
      == (outcome(step) && AllWritten(batchSize, before[BatchCount(batchSize, |before|)..], outcome, step + 1))
  {
  }

  class MessageQueue {
    /** The ready queue (`queue`): what `dequeue` hands out, oldest first. */
    var ready: seq<Message>
    /** The staging buffer (`persistenceQueue`): what still has to reach the log. */
    var staging: seq<Message>
    /** The worker's `batch` list: taken from the staging buffer, not yet written. */
    var batch: seq<Message>
    const batchSize: int
    const store: LogFile

    /** The log's lines when this queue was constructed. */
    ghost var initialLog: seq<string>
    /** Every message enqueued on this queue, in order. */
    ghost var accepted: seq<Message>
    /** The messages the worker has taken out of the staging buffer. */
    ghost var taken: seq<Message>
    /** The messages whose records the worker has appended to the log. */
    ghost var logged: seq<Message>
    /** No batch has been lost to a failed write. */
    ghost var intact: bool

    ghost predicate Valid()
      reads this, store
    {
      && store.Valid()
      && accepted == taken + batch + staging
      && store.lines == initialLog + Records(logged)
      && (intact ==> logged == taken)
    }

    /** `MessageQueue(filename, batchSize, enableConsoleLogging)`: recovers the log into the ready queue. */
    constructor (store: LogFile, batchSize: int)
      requires store.Valid()
      ensures Valid() && intact && batch == []
      ensures this.store == store && this.batchSize == batchSize
      ensures ready == (if store.present then Replay(store.lines) else [])
      ensures staging == [] && accepted == [] && initialLog == store.lines
    {
      this.store := store;
      this.batchSize := batchSize;
      var recovered := MessageQueue.LoadMessagesFromFile(store);
      ready := recovered;
      staging, batch := [], [];
      initialLog, accepted, taken, logged, intact := store.lines, [], [], [], true;
    }

    /** `MessageQueue(filename)`: the same, with batches of 100. */
    constructor Open(store: LogFile)
      requires store.Valid()
      ensures Valid() && intact && batch == []
      ensures this.store == store && batchSize == DefaultBatchSize
      ensures ready == (if store.present then Replay(store.lines) else [])
      ensures staging == [] && accepted == [] && initialLog == store.lines
    {
      this.store := store;
      batchSize := DefaultBatchSize;
      var recovered := MessageQueue.LoadMessagesFromFile(store);
      ready := recovered;
      staging, batch := [], [];
      initialLog, accepted, taken, logged, intact := store.lines, [], [], [], true;
    }

    /**
     * `loadMessagesFromFile`: nothing when the file is missing, otherwise the
     * message of every line that holds a record, in file order.
     */
    static method LoadMessagesFromFile(store: LogFile) returns (ms: seq<Message>)
      ensures !store.present ==> ms == []
      ensures store.present ==> ms == Replay(store.lines)
    {
      if !store.present {
        return [];
      }
      ms := [];
      var i := 0;
      while i < |store.lines|
        invariant 0 <= i <= |store.lines|
        invariant ms == Replay(store.lines[..i])
      {
        var line := store.lines[i];
        match DecodeRecord(line) {
          case Some(m) => ms := ms + [m];
          case None =>
        }
        ReplayAppend(store.lines[..i], [line]);
        assert store.lines[..i + 1] == store.lines[..i] + [line];
        i := i + 1;
      }
      assert store.lines[..i] == store.lines;
    }

    /** `enqueue`: the message joins the tail of the ready queue and of the staging buffer. */
    method Enqueue(m: Message)
      requires Valid()
      modifies this`ready, this`staging, this`accepted
      ensures Valid()
      ensures ready == old(ready) + [m]
      ensures staging == old(staging) + [m]
      ensures accepted == old(accepted) + [m]
    {
      ready := ready + [m];
      staging := staging + [m];
      accepted := accepted + [m];
    }

    /** `dequeue`: the oldest ready message, or `None` (null) when there is none. */
    method Dequeue() returns (m: Option<Message>)
      requires Valid()
      modifies this`ready
      ensures Valid()
      ensures old(ready) == [] ==> m == None && ready == old(ready)
      ensures old(ready) != [] ==> m == Some(old(ready)[0]) && ready == old(ready)[1..]
    {
      if ready == [] {
        m := None;
      } else {
        m := Some(ready[0]);
        ready := ready[1..];
      }
    }

    /** `size`: the number of ready messages. */
    method Size() returns (n: nat)
      ensures n == |ready|
    {
      n := |ready|;
    }

    /**
     * `saveBatchToFile`: an empty batch does not touch the file; otherwise
     * the file is created if need be and one record per message is appended.
     * When the write fails (`writeOk` false) the file is left as it was.
     */
    method SaveBatchToFile(messages: seq<Message>, writeOk: bool)
      requires store.Valid()
      modifies store
      ensures store.Valid()
      ensures store.lines == old(store.lines) + (if writeOk then Records(messages) else [])
      ensures store.present == (old(store.present) || (writeOk && messages != []))
    {
      if messages == [] {
        return;
      }
      if writeOk {
        store.Append(Records(messages));
      }
    }

    /**
     * The worker's collecting phase: `take()` one staged message into the
     * empty batch, then `poll()` more while the batch is below `batchSize`
     * and the staging buffer is not empty.
     */
    method FillBatch()
      requires Valid() && batch == [] && staging != []
      modifies this`batch, this`staging
      ensures Valid()
      ensures batch + staging == old(staging)
      ensures |batch| == BatchCount(batchSize, |old(staging)|)
    {
      batch := [staging[0]];
      staging := staging[1..];
      while |batch| < batchSize && staging != []
        invariant batch + staging == old(staging)
        invariant 1 <= |batch| <= (if batchSize > 1 then batchSize else 1)
      {
        batch := batch + [staging[0]];
        staging := staging[1..];
      }
      assert accepted == taken + (batch + staging);
    }

    /**
     * The worker's writing phase: `saveBatchToFile(batch)`, then
     * `batch.clear()`. A batch whose write fails is cleared all the same, so
     * its messages never reach the log.
     */
    method WriteBatch(writeOk: bool)
      requires Valid()
      modifies this`batch, this`taken, this`logged, this`intact, store
      ensures Valid()
      ensures batch == []
      ensures taken == old(taken) + old(batch)
      ensures store.lines == old(store.lines) + (if writeOk then Records(old(batch)) else [])
      ensures store.present == (old(store.present) || (writeOk && old(batch) != []))
      ensures intact == (old(intact) && (writeOk || old(batch) == []))
    {
      SaveBatchToFile(batch, writeOk);
      if writeOk {
        assert store.lines == initialLog + Records(logged + batch) by {
          AppendRecordsTwice(initialLog, logged, batch);
        }
        logged := logged + batch;
      } else {
        intact := intact && batch == [];
      }
      assert accepted == (taken + batch) + [] + staging;
      taken, batch := taken + batch, [];
    }

    /**
     * One pass of the persistence worker's loop: collect a batch, write it,
     * clear it. With nothing staged the worker would block in `take()`, and
     * the step changes nothing.
     */
    method WorkerStep(writeOk: bool) returns (k: nat)
      requires Valid() && batch == []
      modifies this, store
      ensures Valid() && batch == []
      ensures k == BatchCount(batchSize, |old(staging)|)
      ensures staging == old(staging)[k..]
      ensures store.lines == old(store.lines) + (if writeOk then Records(old(staging)[..k]) else [])
      ensures store.present == (old(store.present) || (writeOk && k > 0))
      ensures ready == old(ready) && accepted == old(accepted) && initialLog == old(initialLog)
      ensures intact == (old(intact) && (writeOk || k == 0))
    {
      if staging == [] {
        return 0;
      }
      FillBatch();
      k := |batch|;
      assert batch == old(staging)[..k] && staging == old(staging)[k..];
      WriteBatch(writeOk);
    }

    /**
     * `flush`: the worker runs until the staging buffer is empty, its write
     * number `n` succeeding exactly when `outcome(n)`; the log gains the
     * records of the batches whose write succeeded, in order.
     */
    method Flush(outcome: nat -> bool)
      requires Valid() && batch == []
      modifies this, store
      ensures Valid() && batch == []
      ensures staging == []
      ensures store.lines == old(store.lines) + Records(Persisted(batchSize, old(staging), outcome, 0))
      ensures store.present == (old(store.present) || Persisted(batchSize, old(staging), outcome, 0) != [])
      ensures ready == old(ready) && accepted == old(accepted) && initialLog == old(initialLog)
      ensures intact == (old(intact) && AllWritten(batchSize, old(staging), outcome, 0))
    {
      ghost var written: seq<Message> := [];
      var step: nat := 0;
      while staging != []
        invariant Valid() && batch == []
        invariant written + Persisted(batchSize, staging, outcome, step) == Persisted(batchSize, old(staging), outcome, 0)
        invariant store.lines == old(store.lines) + Records(written)
        invariant store.present == (old(store.present) || written != [])
        invariant (intact && AllWritten(batchSize, staging, outcome, step))
          == (old(intact) && AllWritten(batchSize, old(staging), outcome, 0))
        invariant ready == old(ready) && accepted == old(accepted) && initialLog == old(initialLog)
        decreases |staging|
      {
        ghost var before := staging;
        var k := WorkerStep(outcome(step));
        ghost var chunk := if outcome(step) then before[..k] else [];
        FlushStep(batchSize, before, outcome, step, written, chunk);
        AppendRecordsTwice(old(store.lines), written, chunk);
        written := written + chunk;
        step := step + 1;
      }
    }

    /**
     * `shutdown`: flushes, then shuts the executor down. The model's worker
     * keeps no thread, so only the flush is visible: when no write has
     * failed, every message ever enqueued on this queue, consumed or not, is
     * in the log.
     */
    method Shutdown(outcome: nat -> bool)
      requires Valid() && batch == []
      modifies this, store
      ensures Valid() && batch == []
      ensures staging == []
      ensures store.lines == old(store.lines) + Records(Persisted(batchSize, old(staging), outcome, 0))
      ensures ready == old(ready) && accepted == old(accepted) && initialLog == old(initialLog)
      ensures intact == (old(intact) && AllWritten(batchSize, old(staging), outcome, 0))
      ensures intact ==> store.lines == initialLog + Records(accepted)
    {
      Flush(outcome);
      if intact {
        assert accepted == taken + [] + [] == logged;
      }
    }
  }
}
