/**
 * The line-safe record codec of the log: standard Base64 with padding, as in
 * section 4 of RFC 4648 (Java's `Base64.getEncoder()`).
 */
module Base64 {
  import opened Wrappers
  import opened Bytes

  type Sextet = i: int | 0 <= i < 64

  /** The 64-character alphabet of RFC 4648, table 1. */
  function CharOf(i: Sextet): (c: char)
  {
    if i < 26 then (65 + i) as char
    else if i < 52 then (97 + i - 26) as char
    else if i < 62 then (48 + i - 52) as char
    else if i == 62 then '+'
    else '/'
  }

  /** The value of an alphabet character; `None` for any other character. */
  function IndexOf(c: char): (r: Option<Sextet>)
    ensures r.Some? ==> CharOf(r.value) == c
  {
    if 'A' <= c <= 'Z' then Some(c as int - 65)
    else if 'a' <= c <= 'z' then Some(c as int - 97 + 26)
    else if '0' <= c <= '9' then Some(c as int - 48 + 52)
    else if c == '+' then Some(62)
    else if c == '/' then Some(63)
    else None
  }

  lemma IndexOfCharOf(i: Sextet)
    ensures IndexOf(CharOf(i)) == Some(i)
  {
  }

  /** The characters an encoding may contain: the alphabet and the pad `=`. */
  predicate IsEncodingChar(c: char) {
    IndexOf(c).Some? || c == '='
  }

  /** Encodes three, two or one bytes as one group of four characters. */
  function EncodeGroup(b: seq<Byte>): (s: string)
    requires 1 <= |b| <= 3
    ensures |s| == 4
    ensures forall i :: 0 <= i < 4 ==> IsEncodingChar(s[i])
  {
    var c0 := CharOf(b[0] / 4);
    if |b| == 1 then
      IndexOfCharOf(b[0] / 4); IndexOfCharOf((b[0] % 4) * 16);
      [c0, CharOf((b[0] % 4) * 16), '=', '=']
    else if |b| == 2 then
      IndexOfCharOf(b[0] / 4); IndexOfCharOf((b[0] % 4) * 16 + b[1] / 16); IndexOfCharOf((b[1] % 16) * 4);
      [c0, CharOf((b[0] % 4) * 16 + b[1] / 16), CharOf((b[1] % 16) * 4), '=']
    else
      IndexOfCharOf(b[0] / 4); IndexOfCharOf((b[0] % 4) * 16 + b[1] / 16);
      IndexOfCharOf((b[1] % 16) * 4 + b[2] / 64); IndexOfCharOf(b[2] % 64);
      [c0, CharOf((b[0] % 4) * 16 + b[1] / 16), CharOf((b[1] % 16) * 4 + b[2] / 64), CharOf(b[2] % 64)]
  }

  /** `Base64.getEncoder().encodeToString(bytes)`. */
  function Encode(b: seq<Byte>): (s: string)
    ensures |s| == 4 * ((|b| + 2) / 3)
    ensures forall i :: 0 <= i < |s| ==> IsEncodingChar(s[i])
  {
    if |b| <= 3 then
      if b == [] then "" else EncodeGroup(b)
    else
      var g, rest := EncodeGroup(b[..3]), Encode(b[3..]);
      assert (|b| + 2) / 3 == (|b| - 3 + 2) / 3 + 1;
      assert forall i :: 4 <= i < 4 + |rest| ==> (g + rest)[i] == rest[i - 4];
      g + rest
  }

  /**
   * Decodes one group of four characters; `last` says whether padding may
   * appear (only in the final group).
   */
  function DecodeGroup(s: string, last: bool): (r: Option<seq<Byte>>)
    requires |s| == 4
    ensures r.Some? ==> 1 <= |r.value| <= 3
    ensures r.Some? && !last ==> |r.value| == 3
    ensures r.Some? ==> forall i :: 0 <= i < 4 ==> IsEncodingChar(s[i])
  {
    var i0, i1, i2, i3 := IndexOf(s[0]), IndexOf(s[1]), IndexOf(s[2]), IndexOf(s[3]);
    if i0.None? || i1.None? then None
    else
      var a, b := i0.value, i1.value;
      if i2.Some? && i3.Some? then
        Some([a * 4 + b / 16, (b % 16) * 16 + i2.value / 4, (i2.value % 4) * 64 + i3.value])
      else if last && i2.Some? && s[3] == '=' then
        Some([a * 4 + b / 16, (b % 16) * 16 + i2.value / 4])
      else if last && s[2] == '=' && s[3] == '=' then
        Some([a * 4 + b / 16])
      else None
  }

  /** Decodes a padded encoding; `None` for anything that is not one. */
  function Decode(s: string): (r: Option<seq<Byte>>)
    ensures r.Some? ==> |s| == 4 * ((|r.value| + 2) / 3)
    ensures r.Some? ==> forall i :: 0 <= i < |s| ==> IsEncodingChar(s[i])
    decreases |s|
  {
    if s == [] then Some([])
    else if |s| < 4 then None
    else
      match DecodeGroup(s[..4], |s| == 4)
      case None => None
      case Some(g) =>
        if |s| == 4 then Some(g)
        else
          match Decode(s[4..])
          case None => None
          case Some(rest) => Some(g + rest)
  }

  lemma DecodeEncodeOne(b: seq<Byte>)
    requires |b| == 1
    ensures DecodeGroup(EncodeGroup(b), true) == Some(b)
  {
    var x0, x1 := b[0] / 4, (b[0] % 4) * 16;
    IndexOfCharOf(x0);
    IndexOfCharOf(x1);
    assert x0 * 4 + x1 / 16 == b[0];
    assert IndexOf('=') == None;
    assert EncodeGroup(b) == [CharOf(x0), CharOf(x1), '=', '='];
    assert b == [b[0]];
  }

  lemma DecodeEncodeTwo(b: seq<Byte>)
    requires |b| == 2
    ensures DecodeGroup(EncodeGroup(b), true) == Some(b)
  {
    var x0, x1, x2 := b[0] / 4, (b[0] % 4) * 16 + b[1] / 16, (b[1] % 16) * 4;
    IndexOfCharOf(x0);
    IndexOfCharOf(x1);
    IndexOfCharOf(x2);
    assert x0 * 4 + x1 / 16 == b[0];
    assert (x1 % 16) * 16 + x2 / 4 == b[1];
    assert IndexOf('=') == None;
    assert EncodeGroup(b) == [CharOf(x0), CharOf(x1), CharOf(x2), '='];
    assert b == [b[0], b[1]];
  }

  lemma DecodeEncodeThree(b: seq<Byte>, last: bool)
    requires |b| == 3
    ensures DecodeGroup(EncodeGroup(b), last) == Some(b)
  {
    var x0, x1 := b[0] / 4, (b[0] % 4) * 16 + b[1] / 16;
    var x2, x3 := (b[1] % 16) * 4 + b[2] / 64, b[2] % 64;
    IndexOfCharOf(x0);
    IndexOfCharOf(x1);
    IndexOfCharOf(x2);
    IndexOfCharOf(x3);
    assert x0 * 4 + x1 / 16 == b[0];
    assert (x1 % 16) * 16 + x2 / 4 == b[1];
    assert (x2 % 4) * 64 + x3 == b[2];
    assert EncodeGroup(b) == [CharOf(x0), CharOf(x1), CharOf(x2), CharOf(x3)];
    assert b == [b[0], b[1], b[2]];
  }

  /** Every group decodes to the bytes it encodes. */
  lemma DecodeEncodeGroup(b: seq<Byte>, last: bool)
    requires 1 <= |b| <= 3
    requires |b| < 3 ==> last
    ensures DecodeGroup(EncodeGroup(b), last) == Some(b)
  {
    if |b| == 1 {
      DecodeEncodeOne(b);
    } else if |b| == 2 {
      DecodeEncodeTwo(b);
    } else {
      DecodeEncodeThree(b, last);
    }
  }

  /** Decoding an encoding gives the bytes back, for every byte sequence. */
  lemma {:induction false} DecodeEncode(b: seq<Byte>)
    ensures Decode(Encode(b)) == Some(b)
    decreases |b|
  {
    if b == [] {
    } else if |b| <= 3 {
      DecodeEncodeGroup(b, true);
      assert EncodeGroup(b)[..4] == EncodeGroup(b);
    } else {
      var s := Encode(b);
      var g := EncodeGroup(b[..3]);
      assert s[..4] == g;
      assert s[4..] == Encode(b[3..]);
      DecodeEncodeGroup(b[..3], |s| == 4);
      DecodeEncode(b[3..]);
      assert b[..3] + b[3..] == b;
    }
  }

  /** Encoding is one-to-one: distinct payloads never share a record. */
  lemma EncodeInjective(a: seq<Byte>, b: seq<Byte>)
    requires Encode(a) == Encode(b)
    ensures a == b
  {
    DecodeEncode(a);
    DecodeEncode(b);
  }
}
