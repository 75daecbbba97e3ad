/**
 * Message (src/main/java/com/ofek/queue/Message.java): an immutable byte
 * payload. A Dafny datatype value cannot be aliased or mutated, which is
 * what the Java class gets from its `final` field and its copies on the way
 * in and on the way out.
 */
module Messages {
  import opened Bytes
  import Utf8

  datatype Message = Message(payload: seq<Byte>)

  /** `new Message(String)`: the payload is the UTF-8 bytes of `s`. */
  function FromString(s: string): (m: Message)
    ensures AsString(m) == s
    ensures |m.payload| == 0 <==> s == []
  {
    Utf8.DecodeEncode(s);
    Message(Utf8.Encode(s))
  }

  /** `getPayloadAsString()`: the payload decoded as UTF-8. */
  function AsString(m: Message): (s: string)
    ensures |s| <= |m.payload|
  {
    Utf8.Decode(m.payload)
  }

  /** `new Message(byte[])`: the message keeps a copy of the array's contents. */
  method FromBytes(a: array<Byte>) returns (m: Message)
    ensures m.payload == a[..]
  {
    m := Message(a[..]);
  }

  /** `getPayload()`: a freshly allocated array holding the payload. */
  method GetPayload(m: Message) returns (a: array<Byte>)
    ensures fresh(a)
    ensures a[..] == m.payload
  {
    a := new Byte[|m.payload|](i requires 0 <= i < |m.payload| => m.payload[i]);
  }

  /**
   * Writing into the caller's array after construction, or into the array
   * `getPayload()` handed out, leaves the message as it was.
   */
  method CopiesDoNotAlias(a: array<Byte>, x: Byte) returns (m: Message)
    requires a.Length > 0
    modifies a
    ensures m.payload == old(a[..])
  {
    m := FromBytes(a);
    a[0] := x;
    var out := GetPayload(m);
    out[0] := x;
  }

  const Prefix: string := "Message{, payload='"

  /** `toString()`: `Message{, payload='<payload as string>'}`. */
  function ToString(m: Message): (r: string)
    ensures |r| == |Prefix| + |AsString(m)| + 2
    ensures r[..8] == "Message{"
    ensures r[|Prefix|..|Prefix| + |AsString(m)|] == AsString(m)
  {
    Prefix + AsString(m) + "'}"
  }

}
