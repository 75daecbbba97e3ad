/**
 * The append-only log: one Base64 record per message, one record per line,
 * and the replay that turns the lines back into messages.
 */
module LogStore {
  import opened Wrappers
  import opened Messages
  import opened LineText
  import Base64

  /** The line written for a message: its payload in Base64, which never ends a line. */
  function Record(m: Message): (line: string)
    ensures LineSafe(line)
  {
    var line := Base64.Encode(m.payload);
    assert forall i :: 0 <= i < |line| ==> Base64.IsEncodingChar(line[i]);
    line
  }

  /** A record is one line, and it decodes to the message it was written for. */
  lemma RecordRoundTrip(m: Message)
    ensures LineSafe(Record(m))
    ensures DecodeRecord(Record(m)) == Some(m)
  {
    Base64.DecodeEncode(m.payload);
    var line := Record(m);
    assert forall i :: 0 <= i < |line| ==> Base64.IsEncodingChar(line[i]);
  }

  /**
   * The message a line holds; `None` for a line that is no Base64 encoding.
   * Whatever the record of a message is, it is read as that message.
   */
  function DecodeRecord(line: string): (r: Option<Message>)
    ensures forall m :: line == Record(m) ==> r == Some(m)
  {
    assert forall m :: line == Record(m) ==> Base64.Decode(line) == Some(m.payload) by {
      forall m | line == Record(m) {
        Base64.DecodeEncode(m.payload);
      }
    }
    match Base64.Decode(line)
    case None => None
    case Some(b) => Some(Message(b))
  }

  /** The lines written for a batch, one per message, in batch order. */
  function Records(ms: seq<Message>): (lines: seq<string>)
    ensures |lines| == |ms|
  {
    seq(|ms|, i requires 0 <= i < |ms| => Record(ms[i]))
  }

  /** Every record is a single line. */
  lemma RecordsLineSafe(ms: seq<Message>)
    ensures forall i :: 0 <= i < |ms| ==> LineSafe(Records(ms)[i])
  {
    forall i | 0 <= i < |ms|
      ensures LineSafe(Records(ms)[i])
    {
      RecordRoundTrip(ms[i]);
    }
  }

  /** Records of a batch are the records of its two halves, one after the other. */
  lemma RecordsAppend(a: seq<Message>, b: seq<Message>)
    ensures Records(a + b) == Records(a) + Records(b)
  {
    assert forall i :: 0 <= i < |a| + |b| ==> Records(a + b)[i] == (Records(a) + Records(b))[i];
  }

  /** Appending the records of two batches in turn appends the records of both. */
  lemma AppendRecordsTwice(log: seq<string>, first: seq<Message>, second: seq<Message>)
    ensures (log + Records(first)) + Records(second) == log + Records(first + second)
  {
    RecordsAppend(first, second);
  }

  /**
   * Recovery: the messages of the lines in file order. A line that is not a
   * record is skipped, as the source skips a line it cannot split.
   */
  function Replay(lines: seq<string>): (ms: seq<Message>)
    ensures |ms| <= |lines|
  {
    if lines == [] then []
    else
      match DecodeRecord(lines[0])
      case None => Replay(lines[1..])
      case Some(m) => [m] + Replay(lines[1..])
  }

  /** Replaying two stretches of a log is replaying each and concatenating. */
  lemma {:induction false} ReplayAppend(a: seq<string>, b: seq<string>)
    ensures Replay(a + b) == Replay(a) + Replay(b)
  {
    if a != [] {
      assert (a + b)[1..] == a[1..] + b;
      ReplayAppend(a[1..], b);
    } else {
      assert a + b == b;
    }
  }

  /** Replaying the records of a batch gives the batch back, in order. */
  lemma {:induction false} ReplayRecords(ms: seq<Message>)
    ensures Replay(Records(ms)) == ms
  {
    if ms != [] {
      RecordRoundTrip(ms[0]);
      assert Records(ms)[1..] == Records(ms[1..]);
      ReplayRecords(ms[1..]);
    }
  }

  /**
   * The records survive the round trip through file text: written with a
   * newline after each, read back with `readLine`, and replayed.
   */
  lemma WrittenLogReadsBack(ms: seq<Message>)
    ensures ReadLines(WriteLines(Records(ms))) == Records(ms)
    ensures Replay(ReadLines(WriteLines(Records(ms)))) == ms
  {
    RecordsLineSafe(ms);
    ReadWriteLines(Records(ms));
    ReplayRecords(ms);
  }

  /**
   * The log file at a fixed path: whether it exists, and its lines. A file
   * that does not exist has no lines.
   */
  class LogFile {
    var present: bool
    var lines: seq<string>

    ghost predicate Valid()
      reads this
    {
      !present ==> lines == []
    }

    /** No file at the path yet (a first run). */
    constructor Missing()
      ensures Valid() && !present && lines == []
    {
      present, lines := false, [];
    }

    /** A file already at the path, with the given lines. */
    constructor Holding(lines: seq<string>)
      ensures Valid() && present && this.lines == lines
    {
      present, this.lines := true, lines;
    }

    /** Opening with CREATE and APPEND and writing `batch` line by line. */
    method Append(batch: seq<string>)
      modifies this
      ensures Valid() && present
      ensures lines == old(lines) + batch
    {
      present := true;
      lines := lines + batch;
    }
  }
}
