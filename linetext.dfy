/**
 * How the log's lines become file text and back. `BufferedWriter.newLine()`
 * writes the platform's line separator; the model fixes it as "\n" ("\r\n"
 * on Windows would read back the same, since `BufferedReader.readLine()`
 * ends a line at "\n", at "\r" or at "\r\n"), and a last unterminated line
 * is returned too.
 */
module LineText {
  predicate IsTerminator(c: char) {
    c == '\n' || c == '\r'
  }

  /** A line that can be written and read back as one line. */
  predicate LineSafe(line: string) {
    forall i :: 0 <= i < |line| ==> !IsTerminator(line[i])
  }

  /** The text a sequence of `write(line); newLine()` calls produces. */
  function WriteLines(lines: seq<string>): (text: string)
    ensures |text| >= |lines|
  {
    if lines == [] then "" else lines[0] + "\n" + WriteLines(lines[1..])
  }

  /** The position of the first line terminator, or the length of the text. */
  function LineEnd(text: string): (n: nat)
    ensures n <= |text|
    ensures n < |text| ==> IsTerminator(text[n])
    ensures LineSafe(text[..n])
  {
    if text == [] || IsTerminator(text[0]) then 0
    else
      var n := 1 + LineEnd(text[1..]);
      assert text[..n] == [text[0]] + text[1..][..n - 1];
      n
  }

  /** The lines successive `readLine()` calls return until they return null. */
  function ReadLines(text: string): (lines: seq<string>)
    ensures forall i :: 0 <= i < |lines| ==> LineSafe(lines[i])
    decreases |text|
  {
    if text == [] then []
    else
      var n := LineEnd(text);
      var next :=
        if n == |text| then n
        else if text[n] == '\r' && n + 1 < |text| && text[n + 1] == '\n' then n + 2
        else n + 1;
      [text[..n]] + ReadLines(text[next..])
  }

  lemma {:induction false} LineEndOfSafe(line: string, rest: string)
    requires LineSafe(line)
    ensures LineEnd(line + "\n" + rest) == |line|
  {
    if line != [] {
      assert (line + "\n" + rest)[1..] == line[1..] + "\n" + rest;
      LineEndOfSafe(line[1..], rest);
    }
  }

  /** Lines without terminators are read back exactly as they were written. */
  lemma {:induction false} ReadWriteLines(lines: seq<string>)
    requires forall i :: 0 <= i < |lines| ==> LineSafe(lines[i])
    ensures ReadLines(WriteLines(lines)) == lines
  {
    if lines != [] {
      var rest := WriteLines(lines[1..]);
      var text := lines[0] + "\n" + rest;
      LineEndOfSafe(lines[0], rest);
      assert text[..|lines[0]|] == lines[0];
      assert text[|lines[0]| + 1..] == rest;
      ReadWriteLines(lines[1..]);
    }
  }
}
