# A persistent FIFO message queue, in Dafny

This project models the core of the `messages-queue` repository:

- `MessageQueue` (`src/main/java/com/ofek/queue/MessageQueue.java`) is an in-memory FIFO of messages. Every enqueued message is also persisted to an append-only log file by a background worker in batches, and the log is replayed into the queue when a queue is opened on the same file.
- `Message` (`src/main/java/com/ofek/queue/Message.java`) is the immutable byte payload the queue carries.

The model has no threads. The queue is a Dafny class, `MessageQueues.MessageQueue`, with these fields:

- `ready`: the `queue` that `dequeue` polls;
- `staging`: the `persistenceQueue` that feeds the worker;
- `batch`: the worker's batch list;
- `batchSize`;
- `store`: the log file, a `LogStore.LogFile` object holding an exists flag and its lines.

The worker's loop body is an explicit method, `WorkerStep`. It is split into its two phases:

- `FillBatch`: take one staged message, then poll more while the batch is below `batchSize`.
- `WriteBatch`: `saveBatchToFile`, then `batch.clear()`.

`Flush` runs worker steps until the staging buffer is empty. `Shutdown` is `Flush`, because shutting the executor down does not interrupt a worker that is running.

Ghost fields record:

- the log as it was when the queue was opened;
- every message accepted, taken by the worker and logged;
- whether any batch was lost to a failed write.

The class invariant `Valid()` ties these together:

- accepted = taken + batch + staging;
- log = initial log + records of what was logged;
- when no write failed, everything taken was logged.

`Message` is a datatype over bytes (`Bytes.Byte`, 0..255). A datatype value cannot be aliased or mutated, which is what the Java class gets from its `final` field and its defensive copies. Its string conversions use UTF-8 (RFC 3629, section 3), modelled concretely in `Utf8`, with the round trip `Decode(Encode(s)) == s` proved.

**Record codec.** The log holds one line per message: the payload in Base64 (the basic alphabet with padding, section 4 of RFC 4648). This is how the repository's tests read the log back (`src/test/java/com/ofek/queue/MessageQueueTest.java:135`, `:169`, `:199`, `:356`). The model proves the following about it:

- Base64 decoding inverts encoding;
- a record never contains a line terminator;
- a log written with a newline after every record and read back with `readLine` semantics (`LineText`: `\n`, `\r` and `\r\n` end a line) yields the same records.

The `id|payload` text that `saveBatchToFile` writes as the source stands (line 117) is modelled separately in `PipeFormat`, together with the input that breaks it (see "## Findings").

**Where the source is a snapshot mid-refactor.** `MessageQueue.java` does not compile as it stands. The model follows the evident design and diverges in these places:

- `lock`, `persistenceQueue`, `persistenceExecutor`, `batchSize` and `saveMessageToFile` are used but never declared (lines 35, 44, 58, 76, 90). The model declares the staging buffer and `batchSize`. Enqueue's `saveMessageToFile` is modelled as adding the message to the staging buffer.
- The three-argument constructor ignores `batchSize` and never starts the worker (lines 28-31). The model keeps `batchSize` and lets the caller run worker steps.
- `saveBatchToFile` writes an undeclared `message` as `getId() + "|" + getPayload()` (line 117). `Message` has no id, and a `byte[]` would print as an object reference. The model writes one Base64 record per batch message.
- A batch whose write fails is cleared all the same (line 99), so its messages never reach the log. The model follows the code, not a design that keeps unwritten messages: `WriteBatch(false)` drops the batch and clears the ghost `intact` flag.
- Recovery skips a line that does not split at `|` (line 134). The model's recovery skips a line that is not a Base64 record.

## Model

| member | source | states |
|---|---|---|
| Messages.FromString | src/main/java/com/ofek/queue/Message.java:15-17 | decoding the payload gives back the string, for every string (empty, with newlines, tabs, pipes, any Unicode scalar); the payload is empty exactly when the string is |
| Messages.AsString | src/main/java/com/ofek/queue/Message.java:24-26 | decoding yields at most one character per payload byte; with `FromString` it forms the round trip above |
| Messages.FromBytes | src/main/java/com/ofek/queue/Message.java:10-12 | the message holds the array's contents at the time of the call |
| Messages.GetPayload | src/main/java/com/ofek/queue/Message.java:19-21 | the result is a freshly allocated array whose contents equal the payload |
| Messages.CopiesDoNotAlias | src/main/java/com/ofek/queue/Message.java:7-21 | writing into the caller's array after construction, and into the array `getPayload` returned, leaves the message's payload equal to the original contents |
| Messages.ToString | src/main/java/com/ofek/queue/Message.java:29-33 | the text begins with `Message{`, holds the payload string right after `Message{, payload='`, and is that string plus a fixed 21 characters long |
| Utf8.EncodeChar | src/main/java/com/ofek/queue/Message.java:16 | one character encodes to 1 to 4 bytes, and to a single byte exactly when it is ASCII |
| Utf8.Encode | src/main/java/com/ofek/queue/Message.java:16 | a string of n characters encodes to between n and 4n bytes |
| Utf8.DecodeFirst | src/main/java/com/ofek/queue/Message.java:25 | decoding the first character of non-empty bytes consumes between 1 and all of them |
| Utf8.Decode | src/main/java/com/ofek/queue/Message.java:25 | decoding yields at most one character per byte |
| Utf8.DecodeFirstEncodeChar | src/main/java/com/ofek/queue/Message.java:15-26 | decoding the encoding of a character followed by anything yields that character and consumes exactly its encoding |
| Utf8.DecodeEncode | src/main/java/com/ofek/queue/Message.java:15-26 | decoding the UTF-8 encoding of any string gives the string back |
| Base64.IndexOf | src/test/java/com/ofek/queue/MessageQueueTest.java:135 | a character found in the alphabet maps back to that character |
| Base64.IndexOfCharOf | src/test/java/com/ofek/queue/MessageQueueTest.java:135 | every alphabet position is found at that position |
| Base64.EncodeGroup | src/test/java/com/ofek/queue/MessageQueueTest.java:135 | one to three bytes encode to four alphabet characters or padding |
| Base64.Encode | src/test/java/com/ofek/queue/MessageQueueTest.java:135 | n bytes encode to 4 * ceil(n / 3) characters, each from the alphabet or `=` |
| Base64.DecodeGroup | src/test/java/com/ofek/queue/MessageQueueTest.java:135 | a decoded group holds one to three bytes, exactly three unless it is the last group, and every character of it is from the alphabet or `=` |
| Base64.Decode | src/test/java/com/ofek/queue/MessageQueueTest.java:135 | a decoded text is made of alphabet characters and `=` only, and is exactly as long as the encoding of the bytes it decodes to (4 * ceil(n / 3)) |
| Base64.DecodeEncodeGroup | src/test/java/com/ofek/queue/MessageQueueTest.java:135 | a group of one to three bytes decodes back from its four characters |
| Base64.DecodeEncode | src/test/java/com/ofek/queue/MessageQueueTest.java:135 | decoding the encoding of any byte sequence succeeds and gives it back |
| Base64.EncodeInjective | src/test/java/com/ofek/queue/MessageQueueTest.java:135 | different payloads have different records |
| LineText.WriteLines | src/main/java/com/ofek/queue/MessageQueue.java:115-118 | writing each line followed by a newline yields at least one character per line |
| LineText.LineEnd | src/main/java/com/ofek/queue/MessageQueue.java:132 | the first line ends at the first terminator, and no terminator comes before it |
| LineText.ReadLines | src/main/java/com/ofek/queue/MessageQueue.java:132 | no line read contains a terminator |
| LineText.LineEndOfSafe | src/main/java/com/ofek/queue/MessageQueue.java:132 | a line without terminators, followed by a newline, ends exactly at that newline |
| LineText.ReadWriteLines | src/main/java/com/ofek/queue/MessageQueue.java:115-132 | lines without terminators read back as written |
| LogStore.Record | src/main/java/com/ofek/queue/MessageQueue.java:117 | the line written for a message never contains a line terminator; `RecordRoundTrip` and `DecodeRecord` state that it reads back as the message |
| LogStore.RecordRoundTrip | src/main/java/com/ofek/queue/MessageQueue.java:117-137 | a message's record is one line, and decoding it gives the message back |
| LogStore.DecodeRecord | src/main/java/com/ofek/queue/MessageQueue.java:133-137 | the record of any message is read back as exactly that message (recovery never confuses one message's record with another's) |
| LogStore.Records | src/main/java/com/ofek/queue/MessageQueue.java:111-118 | one record per batch message |
| LogStore.RecordsLineSafe | src/main/java/com/ofek/queue/MessageQueue.java:117-118 | every record of a batch is a single line |
| LogStore.RecordsAppend | src/main/java/com/ofek/queue/MessageQueue.java:111-118 | the records of two batches in turn are the records of both together |
| LogStore.AppendRecordsTwice | src/main/java/com/ofek/queue/MessageQueue.java:111-118 | appending two batches' records to a log in turn equals appending the records of both |
| LogStore.Replay | src/main/java/com/ofek/queue/MessageQueue.java:130-140 | recovery yields at most one message per line |
| LogStore.ReplayAppend | src/main/java/com/ofek/queue/MessageQueue.java:130-140 | recovery of a log followed by more lines is the recovery of each part, one after the other |
| LogStore.ReplayRecords | src/main/java/com/ofek/queue/MessageQueue.java:130-140 | replaying the records of any messages gives back those messages in order |
| LogStore.WrittenLogReadsBack | src/main/java/com/ofek/queue/MessageQueue.java:115-140 | records written one per line and read back with `readLine` are the same records, and replaying them gives back the messages |
| LogStore.LogFile.Missing | src/main/java/com/ofek/queue/MessageQueue.java:125 | a missing file has no lines |
| LogStore.LogFile.Holding | src/main/java/com/ofek/queue/MessageQueue.java:125-132 | an existing file holds the given lines |
| LogStore.LogFile.Append | src/main/java/com/ofek/queue/MessageQueue.java:115-118 | opening with CREATE and APPEND makes the file exist and adds the lines after the old ones |
| MessageQueues.BatchCount | src/main/java/com/ofek/queue/MessageQueue.java:86-95 | a step takes nothing exactly when nothing is staged; otherwise between 1 and max(1, batchSize) messages and never more than are staged; with batchSize >= 1 it takes min(batchSize, staged) |
| MessageQueues.Persisted | src/main/java/com/ofek/queue/MessageQueue.java:86-99 | the worker passes of a flush, each taking the next BatchCount staged messages and losing them when its write fails, write no more messages than were staged |
| MessageQueues.PersistedAllWritten | src/main/java/com/ofek/queue/MessageQueue.java:97-99 | a flush writes every staged message if and only if none of its writes fails |
| MessageQueues.AllWrittenWhenWritesSucceed | src/main/java/com/ofek/queue/MessageQueue.java:97-99 | when every write succeeds, no batch of a flush is lost |
| MessageQueues.MessageQueue.constructor | src/main/java/com/ofek/queue/MessageQueue.java:28-31 | a new queue holds the recovered log (nothing when the file is missing), stages nothing, and keeps `batchSize` |
| MessageQueues.MessageQueue.Open | src/main/java/com/ofek/queue/MessageQueue.java:16-18 | the same with a batch size of 100 |
| MessageQueues.MessageQueue.LoadMessagesFromFile | src/main/java/com/ofek/queue/MessageQueue.java:124-145 | a missing file yields no messages; otherwise the message of every line that holds a record, in file order |
| MessageQueues.MessageQueue.Enqueue | src/main/java/com/ofek/queue/MessageQueue.java:33-37 | the message joins the tail of the ready queue and of the staging buffer; the class invariant holds |
| MessageQueues.MessageQueue.Dequeue | src/main/java/com/ofek/queue/MessageQueue.java:39-41 | an empty ready queue yields `None` (null) and stays empty; otherwise the head is returned and removed; nothing else changes |
| MessageQueues.MessageQueue.Size | src/main/java/com/ofek/queue/MessageQueue.java:43-50 | the number of ready messages, with no state change |
| MessageQueues.MessageQueue.SaveBatchToFile | src/main/java/com/ofek/queue/MessageQueue.java:111-122 | an empty batch leaves the file untouched; a successful write creates the file if need be and appends one record per message in order; a failed write leaves the lines unchanged |
| MessageQueues.MessageQueue.FillBatch | src/main/java/com/ofek/queue/MessageQueue.java:86-95 | the batch is the first BatchCount staged messages, and the staging buffer keeps the rest in order |
| MessageQueues.MessageQueue.WriteBatch | src/main/java/com/ofek/queue/MessageQueue.java:97-99 | the batch is written (or lost, when the write fails) and cleared; the log grows by its records on success; the class invariant holds |
| MessageQueues.MessageQueue.WorkerStep | src/main/java/com/ofek/queue/MessageQueue.java:83-107 | one pass removes the first k = BatchCount staged messages and appends their records in order on success; the ready queue is unchanged; with nothing staged nothing changes |
| MessageQueues.MessageQueue.Flush | src/main/java/com/ofek/queue/MessageQueue.java:56-68 | the staging buffer ends empty; the log gains, in order, the records of the batches whose write succeeded (`Persisted`), so with no failed write a flush of n messages adds exactly n lines whatever the batch size; the file exists afterwards exactly when it did or something was written; the queue stays intact exactly when no write failed |
| MessageQueues.MessageQueue.Shutdown | src/main/java/com/ofek/queue/MessageQueue.java:74-77 | as Flush; moreover, when no write of the queue's lifetime failed, the log is the initial log followed by the records of every message ever enqueued |
| PipeFormat.PipeRecord | src/main/java/com/ofek/queue/MessageQueue.java:117 | the `id\|payload` line parses back to the whole payload whenever the id has no `\|`, even when the payload has `\|` in it |
| PipeFormat.FirstPipe | src/main/java/com/ofek/queue/MessageQueue.java:133 | the position of the first `\|`, with none before it |
| PipeFormat.ParseLine | src/main/java/com/ofek/queue/MessageQueue.java:133-137 | a line yields nothing exactly when it has no `\|`; otherwise it yields the text after its first `\|`, and no `\|` comes before that one |
| PipeFormat.Replay | src/main/java/com/ofek/queue/MessageQueue.java:130-140 | pipe-format recovery yields at most one message per line |
| PipeFormat.NewlinePayloadIsSplit | src/main/java/com/ofek/queue/MessageQueue.java:117-137 | the payload "a\nb" written as one pipe record reads back as two lines, and recovery yields the different message "a" |
| Sessions.Perform | src/test/java/com/ofek/queue/ConsumerTest.java:69-90 | one enqueue, dequeue or worker pass keeps what was received followed by what is ready equal to the old ready queue plus the produced message; only a failed write of a non-empty batch loses messages from the log |
| Sessions.PerformAll | src/test/java/com/ofek/queue/MessageQueueTest.java:52-83 | after any sequence of actions, the messages consumed followed by the ready queue are the old ready queue followed by every produced message: FIFO order, nothing lost or duplicated; with no failed write nothing is lost from the log either |
| Sessions.RunSession | src/test/java/com/ofek/queue/IntegrationTest.java:50-70 | consumers receive a prefix of the recovered messages followed by the produced ones; the log only grows; when no write fails, after shutdown it holds one record for every produced message, consumed or not |
| Sessions.RestartRecoversAll | src/test/java/com/ofek/queue/IntegrationTest.java:174-201 | a queue opened after shutdown recovers at least what the log held before; when no write failed, exactly that followed by every message the run produced, in order, including consumed ones |
| Sessions.StartStopCycles | src/test/java/com/ofek/queue/IntegrationTest.java:295-316 | over repeated start/stop cycles the log only grows; when no write fails it accumulates every cycle's records, and recovery yields all of them in order |

## Left out

- Threads and the executor are left out. This covers `persistenceExecutor`, the blocking `take()`, interrupts, the read lock in `size()`, the `synchronized` block and `Thread.sleep` polling in `flush`. The worker is an explicit step, and interleavings are not modelled.
- MessageQueues.MessageQueue.Flush: runs worker passes until everything staged is taken and written or lost. The source's `flush` only waits for the staging queue to empty, so it can return while the worker still holds a batch not yet written. That race needs the thread model, which is left out.
- File I/O is left out: paths, `BufferedWriter`/`BufferedReader`, and open options other than their effect on the lines. Each write either succeeds whole or fails and leaves the file as it was (`writeOk`, or `outcome(n)` for the n-th write of a flush), so partial writes are not modelled. Recovery is modelled only when the file reads without error.
- LineText.WriteLines: ends every line with "\n". `newLine()` writes the platform's separator, which is "\r\n" on Windows; `readLine` accepts both, but only the "\n" form is proved to read back.
- Console and error logging, and the `enableConsoleLogging` flag, are left out. They only print.
- Message ids are left out. `Message` has no id field; the `id|payload` text appears only in the as-written format of `PipeFormat`.
- Utf8.DecodeFirst: replaces each malformed byte with one U+FFFD. Java's decoder replaces each maximal ill-formed subpart. The two agree on well-formed input, which covers every payload made from a string.
- Unpaired UTF-16 surrogates in a Java `String` are not modelled: Dafny's `char` is a Unicode scalar value.
- Base64.Decode: accepts only padded input of a length that is a multiple of four, and ignores the unused low bits of the last group. Java's basic decoder also accepts unpadded input. This model's records are always padded.
- `Producer.java` and `Consumer.java` are left out. They are one-line delegations to `enqueue` and `dequeue`, covered by `Sessions.Perform`.
- `App.java` (a demo driver) and the performance test (timing and throughput) are left out.

## Findings

| source | as written | input that shows it | evidently intended | confidence | as-written member | corrected member |
|---|---|---|---|---|---|---|
| src/main/java/com/ofek/queue/MessageQueue.java:117-133 | each message is written as `id + "\|" + payload` followed by a newline, and read back line by line, splitting at the first `\|` | a message whose payload is `a\nb` (the tests use payloads with `\n` and `\r\n`) | one log line per message that reads back as the same message, as the tests' Base64 decoding of each line expects | not executed | PipeFormat.NewlinePayloadIsSplit | LogStore.WrittenLogReadsBack |
