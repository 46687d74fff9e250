/**
 ReadMessage and WriteMessage (9passthrough/protocol.go:83-134): length-prefixed messages on a byte stream.
 */
module Framing {
  import opened Bytes

  datatype Message = Message(msgType: byte, data: seq<byte>)

  const MAX_LENGTH: nat := 16 * 1024 * 1024

  datatype ReadResult = Read(message: Message, rest: seq<byte>) | TooLarge | UnexpectedEnd

  /** What WriteMessage appends; the length is truncated to 32 bits. */
  function Frame(m: Message): seq<byte> {
    LE((1 + |m.data|) % U32, 4) + [m.msgType] + m.data
  }

  /** How many data bytes a length announces: length - 1 in 32 bits, so a length of 0 announces 2^32 - 1. */
  function DataLength(length: nat): nat {
    if length == 0 then U32 - 1 else length - 1
  }

  function ReadFrame(s: seq<byte>): ReadResult {
    if |s| < 4 then UnexpectedEnd
    else
      var length := FromLE(s[..4]);
      if length > MAX_LENGTH then TooLarge
      else if |s| < 5 || |s| - 5 < DataLength(length) then UnexpectedEnd
      else
        var end := 5 + DataLength(length);
        Read(Message(s[4], s[5..end]), s[end..])
  }

  class Stream {
    var bytes: seq<byte>

    constructor ()
      ensures bytes == []
    {
      bytes := [];
    }

    method Write(p: seq<byte>)
      modifies this
      ensures bytes == old(bytes) + p
    {
      bytes := bytes + p;
    }

    /** io.ReadFull: consumes what there is when the stream ends early. */
    method ReadFull(n: nat) returns (p: seq<byte>, ok: bool)
      modifies this
      ensures ok <==> n <= |old(bytes)|
      ensures ok ==> p == old(bytes)[..n] && bytes == old(bytes)[n..]
      ensures !ok ==> bytes == []
    {
      ok := n <= |bytes|;
      if ok {
        p, bytes := bytes[..n], bytes[n..];
      } else {
        p, bytes := bytes, [];
      }
    }

    method WriteMessage(m: Message)
      modifies this
      ensures bytes == old(bytes) + Frame(m)
    {
      var length := (1 + |m.data|) % U32;
      Write(LE(length, 4));
      Write([m.msgType]);
      Write(m.data);
    }

    method ReadMessage() returns (r: ReadResult)
      modifies this
      ensures r == ReadFrame(old(bytes))
      ensures bytes == match r case Read(_, rest) => rest case TooLarge => old(bytes)[4..] case UnexpectedEnd => []
    {
      var header, ok := ReadFull(4);
      if !ok {
        return UnexpectedEnd;
      }
      var length := FromLE(header);
      if length > MAX_LENGTH {
        return TooLarge;
      }
      var msgType;
      msgType, ok := ReadFull(1);
      if !ok {
        return UnexpectedEnd;
      }
      var data;
      data, ok := ReadFull(if length == 0 then U32 - 1 else length - 1);
      if !ok {
        return UnexpectedEnd;
      }
      ghost var s := old(bytes);
      ghost var end := 5 + DataLength(length);
      assert s[4..][1..] == s[5..];
      assert s[5..][..DataLength(length)] == s[5..end] && s[5..][DataLength(length)..] == s[end..];
      r := Read(Message(msgType[0], data), bytes);
    }

    /** Sends all messages, then reads that many back. */
    method Exchange(messages: seq<Message>) returns (received: seq<Message>)
      requires bytes == [] && forall i :: 0 <= i < |messages| ==> Sendable(messages[i])
      modifies this
      ensures received == messages && bytes == []
    {
      for i := 0 to |messages|
        invariant bytes == Frames(messages[..i])
      {
        WriteMessage(messages[i]);
        FramesAppend(messages, i);
      }
      assert messages[..|messages|] == messages;
      received := [];
      for i := 0 to |messages|
        invariant bytes == Frames(messages[i..]) && received == messages[..i]
      {
        assert messages[i..][1..] == messages[i + 1..];
        RoundTrip(messages[i], Frames(messages[i + 1..]));
        var r := ReadMessage();
        received := received + [r.message];
      }
    }
  }

  /** The sizes that survive: up to 16 MiB with the type byte, and, by wrap-around, exactly 2^32. */
  predicate Sendable(m: Message) {
    1 + |m.data| <= MAX_LENGTH || 1 + |m.data| == U32
  }

  function Frames(messages: seq<Message>): seq<byte> {
    if messages == [] then [] else Frame(messages[0]) + Frames(messages[1..])
  }

  lemma {:induction false} FramesConcat(a: seq<Message>, b: seq<Message>)
    ensures Frames(a + b) == Frames(a) + Frames(b)
    decreases |a|
  {
    if a == [] {
      assert a + b == b;
    } else {
      assert (a + b)[1..] == a[1..] + b;
      FramesConcat(a[1..], b);
    }
  }

  lemma FramesAppend(messages: seq<Message>, i: nat)
    requires i < |messages|
    ensures Frames(messages[..i + 1]) == Frames(messages[..i]) + Frame(messages[i])
  {
    assert messages[..i + 1] == messages[..i] + [messages[i]];
    FramesConcat(messages[..i], [messages[i]]);
    assert Frames([messages[i]]) == Frame(messages[i]);
  }

  /** A frame byte by byte: the length of the rest, least significant byte first, the type, the data. */
  lemma FrameLayout(m: Message)
    ensures var n := (1 + |m.data|) % 0x1_0000_0000;
            Frame(m) ==
              [n % 0x100, n / 0x100 % 0x100, n / 0x1_0000 % 0x100, n / 0x100_0000 % 0x100] + [m.msgType] + m.data
  {
    LowBytes((1 + |m.data|) % 0x1_0000_0000);
  }

  /**
   What is read off any bytes, in plain terms: more than 16 MiB are refused on the four length bytes alone;
   else the message is read if its type byte and all its data are there.
   */
  lemma {:induction false} ReadFrameMeans(a: byte, b: byte, c: byte, d: byte, s: seq<byte>)
    ensures var n := a + 0x100 * b + 0x1_0000 * c + 0x100_0000 * d;
            var size := if n == 0 then 0xFFFF_FFFF else n - 1;
            ReadFrame([a, b, c, d] + s) ==
              if n > 16777216 then TooLarge
              else if |s| < 1 + size then UnexpectedEnd
              else Read(Message(s[0], s[1..1 + size]), s[1 + size..])
  {
    var t := [a, b, c, d] + s;
    FourBytes(a, b, c, d);
    assert t[..4] == [a, b, c, d];
    var size := DataLength(FromLE(t[..4]));
    if |s| >= 1 + size {
      assert t[4] == s[0] && t[5..5 + size] == s[1..1 + size] && t[5 + size..] == s[1 + size..];
    }
  }

  /** Fewer than four bytes are no length. */
  lemma ShortOfLength(s: seq<byte>)
    ensures |s| < 4 ==> ReadFrame(s) == UnexpectedEnd
    ensures |s| >= 4 ==> s == [s[0], s[1], s[2], s[3]] + s[4..]
  {
  }

  /** A frame followed by anything reads back as its message and that rest just when it is sendable. */
  lemma {:induction false} RoundTrip(m: Message, rest: seq<byte>)
    ensures ReadFrame(Frame(m) + rest) == Read(m, rest) <==> Sendable(m)
    ensures Sendable(m) <==> 1 + |m.data| <= 16777216 || 1 + |m.data| == 0x1_0000_0000
  {
    var s := Frame(m) + rest;
    var length := (1 + |m.data|) % U32;
    FixedWidth(length, 4, []);
    FrameParts(m, rest);
    if length <= MAX_LENGTH && DataLength(length) == |m.data| {
      assert s[5..5 + |m.data|] == m.data && s[5 + |m.data|..] == rest;
    }
    if Sendable(m) {
      assert DataLength(length) == |m.data|;
    }
  }

  lemma FrameParts(m: Message, rest: seq<byte>)
    ensures var s := Frame(m) + rest;
      s[..4] == LE((1 + |m.data|) % U32, 4) && s[4] == m.msgType && s[5..] == m.data + rest
  {
  }

  /** Whatever is read was framed just so, even with a length field of 0. */
  lemma {:induction false} ReadFrameExact(s: seq<byte>)
    requires ReadFrame(s).Read?
    ensures s == Frame(ReadFrame(s).message) + ReadFrame(s).rest
  {
    FixedWidth(0, 4, s[..4]);
    var end := 5 + DataLength(FromLE(s[..4]));
    Pieces(s, end);
    assert (1 + |s[5..end]|) % U32 == FromLE(s[..4]);
  }

  lemma Pieces(s: seq<byte>, end: nat)
    requires 5 <= end <= |s|
    ensures s == s[..4] + [s[4]] + s[5..end] + s[end..]
  {
  }

  /**
   A length field of 0, which no message of a size below 2^32 - 1 produces, makes the reader take the next
   2^32 - 1 bytes for data, other frames included, or wait for them.
   */
  lemma {:induction false} ZeroLength(t: byte, rest: seq<byte>)
    ensures ReadFrame([0, 0, 0, 0] + [t] + rest) ==
            if |rest| < U32 - 1 then UnexpectedEnd else Read(Message(t, rest[..U32 - 1]), rest[U32 - 1..])
  {
    var s := [0, 0, 0, 0] + [t] + rest;
    assert s[..4] == [0, 0, 0, 0] && s[4] == t && s[5..] == rest;
    ZeroBytes();
    if |rest| >= U32 - 1 {
      assert s[5..5 + (U32 - 1)] == rest[..U32 - 1] && s[5 + (U32 - 1)..] == rest[U32 - 1..];
    }
  }

  lemma ZeroBytes()
    ensures FromLE([0, 0, 0, 0]) == 0
  {
    assert FromLE([0]) == 0 && FromLE([0, 0]) == 0 && FromLE([0, 0, 0]) == 0;
  }
}
