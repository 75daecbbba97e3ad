/**
 * The `id|payload` line format that MessageQueue.java writes in
 * `saveBatchToFile` and parses in `loadMessagesFromFile`. It is kept here as
 * written, to show that it does not survive payloads with line breaks; the
 * queue itself uses the records of module LogStore.
 */
module PipeFormat {
  import opened Wrappers
  import opened Messages
  import opened LineText

  /** The line written for a message with identifier `id` and payload text `payload`. */
  function PipeRecord(id: string, payload: string): (line: string)
    ensures '|' !in id ==> ParseLine(line) == Some(payload)
  {
    var line := id + "|" + payload;
    assert line[..|id|] == id;
    assert line[|id|] == '|';
    assert '|' !in id ==> FirstPipe(line) == |id|;
    line
  }

  /** The position of the first `|`, or the length of the line. */
  function FirstPipe(line: string): (i: nat)
    ensures i <= |line|
    ensures '|' !in line[..i]
    ensures i < |line| ==> line[i] == '|'
  {
    if line == [] || line[0] == '|' then 0
    else
      var i := 1 + FirstPipe(line[1..]);
      assert line[..i] == [line[0]] + line[1..][..i - 1];
      i
  }

  /**
   * `line.split("\\|", 2)`: the text after the first `|` when the split gives
   * two parts, and `None` when the line has no `|` at all.
   */
  function ParseLine(line: string): (r: Option<string>)
    ensures r.None? <==> '|' !in line
    ensures r.Some? ==>
      var i := |line| - |r.value| - 1;
      0 <= i && '|' !in line[..i] && line == line[..i] + "|" + r.value
  {
    var i := FirstPipe(line);
    if i == |line| then
      assert line[..i] == line;
      None
    else
      assert line == line[..i] + "|" + line[i + 1..];
      Some(line[i + 1..])
  }

  /** Recovery as written: one message per line that has a `|`, in file order. */
  function Replay(lines: seq<string>): (ms: seq<Message>)
    ensures |ms| <= |lines|
  {
    if lines == [] then []
    else
      match ParseLine(lines[0])
      case None => Replay(lines[1..])
      case Some(p) => [FromString(p)] + Replay(lines[1..])
  }

  lemma SplitText()
    ensures WriteLines([PipeRecord("id", "a\nb")]) == WriteLines(["id|a", "b"])
  {
    assert WriteLines([PipeRecord("id", "a\nb")]) == "id|a\nb\n";
    assert WriteLines(["b"]) == "b\n";
    assert WriteLines(["id|a", "b"]) == "id|a" + "\n" + WriteLines(["b"]);
  }

  lemma SplitRead()
    ensures ReadLines(WriteLines(["id|a", "b"])) == ["id|a", "b"]
  {
    var lines := ["id|a", "b"];
    assert LineSafe(lines[0]) && LineSafe(lines[1]);
    ReadWriteLines(lines);
  }

  lemma SplitReplay()
    ensures Replay(["id|a", "b"]) == [FromString("a")]
  {
    assert '|' !in "b";
    assert "id|a" == PipeRecord("id", "a");
  }

  lemma SplitDiffers()
    ensures FromString("a") != FromString("a\nb")
  {
    assert AsString(FromString("a")) != AsString(FromString("a\nb"));
  }

  /**
   * The payload "a\nb" is written as one record but read back as two lines,
   * and recovery yields the message "a" in its place.
   */
  lemma NewlinePayloadIsSplit()
    ensures ReadLines(WriteLines([PipeRecord("id", "a\nb")])) == ["id|a", "b"]
    ensures Replay(ReadLines(WriteLines([PipeRecord("id", "a\nb")]))) == [FromString("a")]
    ensures FromString("a") != FromString("a\nb")
  {
    SplitText();
    SplitRead();
    SplitReplay();
    SplitDiffers();
  }
}
