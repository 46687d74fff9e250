/**
 The records of the mmap protocol (9passthrough/protocol.go:136-348). Decoders add lengths in 32 bits,
 and a slice expression or a fixed-width read past its bounds is a run-time panic.
 */
module Records {
  import opened Bytes

  datatype Decoded<T> = Ok(value: T) | TooShort | Panics

  datatype RegisterRequest = RegisterRequest(filePath: seq<byte>, length: nat, flags: nat)
  datatype WriteRequest = WriteRequest(mmapId: nat, offset: nat, data: seq<byte>)
  datatype ErrorResponse = ErrorResponse(code: nat, message: seq<byte>)
  datatype Range = Range(mmapId: nat, offset: nat, length: nat)

  /** data[lo:hi] with cap(data) == len(data) */
  predicate SliceOk(data: seq<byte>, lo: nat, hi: nat) {
    lo <= hi <= |data|
  }

  // ---------------------------------------------------------------- register request

  ghost predicate RegisterFits(r: RegisterRequest) {
    4 + |r.filePath| + 12 < U32 && r.length < U64 && r.flags < U32
  }

  function EncodeRegister(r: RegisterRequest): seq<byte> {
    LE(|r.filePath|, 4) + r.filePath + LE(r.length, 8) + LE(r.flags, 4)
  }

  function DecodeRegister(data: seq<byte>): Decoded<RegisterRequest> {
    if |data| < 4 then TooShort
    else
      var pathLen := FromLE(data[..4]);
      if |data| < (4 + pathLen + 8 + 4) % U32 then TooShort
      else
        var pathEnd, lengthEnd := (4 + pathLen) % U32, (4 + pathLen + 8) % U32;
        if !SliceOk(data, 4, pathEnd) || !SliceOk(data, pathEnd, lengthEnd) || |data| < lengthEnd + 4 then Panics
        else
          Ok(RegisterRequest(data[4..pathEnd], FromLE(data[pathEnd..lengthEnd]),
                             FromLE(data[lengthEnd..lengthEnd + 4])))
  }

  /** The fields of five adjoining pieces. */
  lemma Pieces(a: seq<byte>, b: seq<byte>, c: seq<byte>, d: seq<byte>, e: seq<byte>)
    ensures var s := a + b + c + d + e;
            && s[..|a|] == a && s[|a|..|a + b|] == b
            && s[|a + b|..|a + b + c|] == c && s[|a + b + c|..|a + b + c + d|] == d
  {
  }

  lemma Adjoin(data: seq<byte>, a: nat, b: nat, c: nat, d: nat)
    requires a <= b <= c <= d <= |data|
    ensures data[..d] == data[..a] + data[a..b] + data[b..c] + data[c..d]
  {
  }

  /** Path length, path, length, flags. */
  lemma RegisterLayout(r: RegisterRequest)
    ensures var s, n := EncodeRegister(r), |r.filePath|;
            && |s| == 16 + n && s[..4] == LE(n, 4) && s[4..4 + n] == r.filePath
            && s[4 + n..12 + n] == LE(r.length, 8) && s[12 + n..] == LE(r.flags, 4)
  {
  }

  lemma {:induction false} RegisterRoundTrip(r: RegisterRequest, trailing: seq<byte>)
    requires RegisterFits(r)
    ensures DecodeRegister(EncodeRegister(r) + trailing) == Ok(r)
  {
    FixedWidth(|r.filePath|, 4, []);
    FixedWidth(r.length, 8, []);
    FixedWidth(r.flags, 4, []);
    Pieces(LE(|r.filePath|, 4), r.filePath, LE(r.length, 8), LE(r.flags, 4), trailing);
    RegisterValue(EncodeRegister(r) + trailing, |r.filePath|);
  }

  /** The record that data with n path bytes holds. */
  function RegisterAt(data: seq<byte>, n: nat): RegisterRequest
    requires 16 + n <= |data|
  {
    RegisterRequest(data[4..4 + n], FromLE(data[4 + n..12 + n]), FromLE(data[12 + n..16 + n]))
  }

  /** The decoder on data with n path bytes that is long enough. */
  lemma RegisterValue(data: seq<byte>, n: nat)
    requires 16 + n <= |data| && n < U32 - 12 && FromLE(data[..4]) == n
    ensures DecodeRegister(data) == Ok(RegisterAt(data, n))
  {
  }

  /**
   Exactly when the decoder returns a record, and then it has read the encoding of that record.
   The sum that is checked wraps from a path length of 2^32 - 16 on; the last slice end wraps from 2^32 - 12 on.
   */
  lemma {:induction false} RegisterDecodes(data: seq<byte>)
    requires |data| >= 4
    ensures var n := FromLE(data[..4]);
            && (DecodeRegister(data).Ok? <==> n < U32 - 12 && 16 + n <= |data|)
            && (DecodeRegister(data).Panics? <==>
                  n >= U32 - 16 && (16 + n) % U32 <= |data| && !(n < U32 - 12 && 16 + n <= |data|))
            && (DecodeRegister(data).Ok? ==> EncodeRegister(DecodeRegister(data).value) == data[..16 + n])
  {
    var n := FromLE(data[..4]);
    FixedWidth(0, 4, data[..4]);
    if n < U32 - 12 && 16 + n <= |data| {
      RegisterValue(data, n);
      RegisterReencodes(data, n);
    } else {
      RegisterRefuses(data, n);
    }
  }

  lemma RegisterRefuses(data: seq<byte>, n: nat)
    requires |data| >= 4 && FromLE(data[..4]) == n && n < U32 && !(n < U32 - 12 && 16 + n <= |data|)
    ensures !DecodeRegister(data).Ok?
    ensures DecodeRegister(data).Panics? <==> n >= U32 - 16 && (16 + n) % U32 <= |data|
  {
  }

  lemma RegisterReencodes(data: seq<byte>, n: nat)
    requires 16 + n <= |data| && n < U32 && FromLE(data[..4]) == n
    ensures EncodeRegister(RegisterAt(data, n)) == data[..16 + n]
  {
    FixedWidth(0, 4, data[..4]);
    FixedWidth(0, 8, data[4 + n..12 + n]);
    FixedWidth(0, 4, data[12 + n..16 + n]);
    Adjoin(data, 4, 4 + n, 12 + n, 16 + n);
  }

  // ---------------------------------------------------------------- payload at the end of a record

  /** Header fields, then a 32-bit length, then that many bytes. */
  function EncodeTail(header: seq<byte>, payload: seq<byte>): seq<byte> {
    header + LE(|payload|, 4) + payload
  }

  /** The payload of a record whose length field is at `at`. */
  function DecodeTail(data: seq<byte>, at: nat): Decoded<seq<byte>> {
    if |data| < at + 4 then TooShort
    else
      var n := FromLE(data[at..at + 4]);
      if |data| < (at + 4 + n) % U32 then TooShort
      else if !SliceOk(data, at + 4, (at + 4 + n) % U32) then Panics
      else Ok(data[at + 4..(at + 4 + n) % U32])
  }

  lemma {:induction false} TailRoundTrip(header: seq<byte>, payload: seq<byte>, trailing: seq<byte>)
    requires |header| + 4 + |payload| < U32
    ensures DecodeTail(EncodeTail(header, payload) + trailing, |header|) == Ok(payload)
  {
    var data, h, n := EncodeTail(header, payload) + trailing, |header|, |payload|;
    FixedWidth(n, 4, []);
    assert data[h..h + 4] == LE(n, 4);
    assert data[h + 4..h + 4 + n] == payload;
  }

  /** A payload is returned exactly when it is there and its end does not wrap; a wrapped end panics. */
  lemma {:induction false} TailDecodes(data: seq<byte>, at: nat)
    requires at + 4 <= |data| && at + 4 < U32
    ensures var n := FromLE(data[at..at + 4]);
            && (DecodeTail(data, at).Ok? <==> at + 4 + n < U32 && at + 4 + n <= |data|)
            && (DecodeTail(data, at).Panics? <==> at + 4 + n >= U32)
            && (DecodeTail(data, at).Ok? ==> EncodeTail(data[..at], DecodeTail(data, at).value) == data[..at + 4 + n])
  {
    var n := FromLE(data[at..at + 4]);
    FixedWidth(0, 4, data[at..at + 4]);
    TailValue(data, at, n);
    if DecodeTail(data, at).Ok? {
      TailReencodes(data, at, n);
    }
  }

  lemma TailValue(data: seq<byte>, at: nat, n: nat)
    requires at + 4 <= |data| && at + 4 < U32 && n < U32 && n == FromLE(data[at..at + 4])
    ensures DecodeTail(data, at).Ok? <==> at + 4 + n < U32 && at + 4 + n <= |data|
    ensures DecodeTail(data, at).Panics? <==> at + 4 + n >= U32
    ensures DecodeTail(data, at).Ok? ==> DecodeTail(data, at).value == data[at + 4..at + 4 + n]
  {
  }

  lemma TailReencodes(data: seq<byte>, at: nat, n: nat)
    requires at + 4 + n <= |data| && n == FromLE(data[at..at + 4])
    ensures EncodeTail(data[..at], data[at + 4..at + 4 + n]) == data[..at + 4 + n]
  {
    FixedWidth(0, 4, data[at..at + 4]);
    Adjoin(data, at, at + 4, at + 4 + n, at + 4 + n);
    assert data[at + 4 + n..at + 4 + n] == [];
  }

  // ---------------------------------------------------------------- the three records of that shape

  /** The bulk read response has no header. */
  function EncodeBulkReadResponse(payload: seq<byte>): seq<byte> {
    EncodeTail([], payload)
  }

  function DecodeBulkReadResponse(data: seq<byte>): Decoded<seq<byte>> {
    DecodeTail(data, 0)
  }

  lemma {:induction false} BulkReadRoundTrip(payload: seq<byte>, trailing: seq<byte>)
    requires 4 + |payload| < U32
    ensures DecodeBulkReadResponse(EncodeBulkReadResponse(payload) + trailing) == Ok(payload)
  {
    TailRoundTrip([], payload, trailing);
  }

  lemma {:induction false} BulkReadDecodes(data: seq<byte>)
    ensures DecodeBulkReadResponse(data).Ok? <==>
            |data| >= 4 && 4 + FromLE(data[..4]) < 0x1_0000_0000 && 4 + FromLE(data[..4]) <= |data|
    ensures DecodeBulkReadResponse(data).Panics? <==> |data| >= 4 && 4 + FromLE(data[..4]) >= 0x1_0000_0000
    ensures DecodeBulkReadResponse(data).Ok? ==>
            EncodeBulkReadResponse(DecodeBulkReadResponse(data).value) == data[..4 + FromLE(data[..4])]
  {
    if |data| >= 4 {
      TailDecodes(data, 0);
      assert data[..0] == [] && data[0..4] == data[..4];
    }
  }

  function EncodeWrite(r: WriteRequest): seq<byte> {
    EncodeTail(LE(r.mmapId, 8) + LE(r.offset, 8), r.data)
  }

  function DecodeWrite(data: seq<byte>): Decoded<WriteRequest> {
    match DecodeTail(data, 16)
    case TooShort => TooShort
    case Panics => Panics
    case Ok(payload) => Ok(WriteRequest(FromLE(data[0..8]), FromLE(data[8..16]), payload))
  }

  function EncodeError(r: ErrorResponse): seq<byte> {
    EncodeTail(LE(r.code, 4), r.message)
  }

  function DecodeError(data: seq<byte>): Decoded<ErrorResponse> {
    match DecodeTail(data, 4)
    case TooShort => TooShort
    case Panics => Panics
    case Ok(message) => Ok(ErrorResponse(FromLE(data[0..4]), message))
  }

  /** Mapping id, offset, payload length, payload. */
  lemma WriteLayout(r: WriteRequest)
    ensures var s := EncodeWrite(r);
            && |s| == 20 + |r.data| && s[..8] == LE(r.mmapId, 8) && s[8..16] == LE(r.offset, 8)
            && s[16..20] == LE(|r.data|, 4) && s[20..] == r.data
  {
  }

  /** Code, message length, message; and a bulk read response is the payload's length and the payload. */
  lemma ErrorLayout(r: ErrorResponse, payload: seq<byte>)
    ensures var s := EncodeError(r);
            && |s| == 8 + |r.message| && s[..4] == LE(r.code, 4)
            && s[4..8] == LE(|r.message|, 4) && s[8..] == r.message
    ensures var s := EncodeBulkReadResponse(payload);
            |s| == 4 + |payload| && s[..4] == LE(|payload|, 4) && s[4..] == payload
  {
  }

  lemma {:induction false} WriteRoundTrip(r: WriteRequest, trailing: seq<byte>)
    requires r.mmapId < U64 && r.offset < U64 && 20 + |r.data| < U32
    ensures DecodeWrite(EncodeWrite(r) + trailing) == Ok(r)
  {
    var data := EncodeWrite(r) + trailing;
    TailRoundTrip(LE(r.mmapId, 8) + LE(r.offset, 8), r.data, trailing);
    FixedWidth(r.mmapId, 8, []);
    FixedWidth(r.offset, 8, []);
    assert data[0..8] == LE(r.mmapId, 8) && data[8..16] == LE(r.offset, 8);
  }

  lemma {:induction false} WriteDecodes(data: seq<byte>)
    ensures DecodeWrite(data).Ok? <==>
            |data| >= 20 && 20 + FromLE(data[16..20]) < 0x1_0000_0000 && 20 + FromLE(data[16..20]) <= |data|
    ensures DecodeWrite(data).Panics? <==> |data| >= 20 && 20 + FromLE(data[16..20]) >= 0x1_0000_0000
    ensures DecodeWrite(data).Ok? ==> EncodeWrite(DecodeWrite(data).value) == data[..20 + FromLE(data[16..20])]
  {
    if |data| >= 20 {
      TailDecodes(data, 16);
      FixedWidth(0, 8, data[0..8]);
      FixedWidth(0, 8, data[8..16]);
      assert data[..16] == data[0..8] + data[8..16];
    }
  }

  lemma {:induction false} ErrorRoundTrip(r: ErrorResponse, trailing: seq<byte>)
    requires r.code < U32 && 8 + |r.message| < U32
    ensures DecodeError(EncodeError(r) + trailing) == Ok(r)
  {
    var data := EncodeError(r) + trailing;
    TailRoundTrip(LE(r.code, 4), r.message, trailing);
    FixedWidth(r.code, 4, []);
    assert data[0..4] == LE(r.code, 4);
  }

  lemma {:induction false} ErrorDecodes(data: seq<byte>)
    ensures DecodeError(data).Ok? <==>
            |data| >= 8 && 8 + FromLE(data[4..8]) < 0x1_0000_0000 && 8 + FromLE(data[4..8]) <= |data|
    ensures DecodeError(data).Panics? <==> |data| >= 8 && 8 + FromLE(data[4..8]) >= 0x1_0000_0000
    ensures DecodeError(data).Ok? ==> EncodeError(DecodeError(data).value) == data[..8 + FromLE(data[4..8])]
  {
    if |data| >= 8 {
      TailDecodes(data, 4);
      FixedWidth(0, 4, data[0..4]);
      assert data[..4] == data[0..4];
    }
  }

  // ---------------------------------------------------------------- the two records of three fixed fields

  /** The bulk read request and the notification. */
  function EncodeRange(r: Range): seq<byte> {
    LE(r.mmapId, 8) + LE(r.offset, 8) + LE(r.length, 8)
  }

  function DecodeRange(data: seq<byte>): Decoded<Range> {
    if |data| < 24 then TooShort
    else Ok(Range(FromLE(data[0..8]), FromLE(data[8..16]), FromLE(data[16..24])))
  }

  /** Mapping id, offset, length. */
  lemma RangeLayout(r: Range)
    ensures var s := EncodeRange(r);
            |s| == 24 && s[..8] == LE(r.mmapId, 8) && s[8..16] == LE(r.offset, 8) && s[16..] == LE(r.length, 8)
  {
  }

  lemma {:induction false} RangeRoundTrip(r: Range, trailing: seq<byte>)
    requires r.mmapId < U64 && r.offset < U64 && r.length < U64
    ensures DecodeRange(EncodeRange(r) + trailing) == Ok(r)
  {
    var data := EncodeRange(r) + trailing;
    FixedWidth(r.mmapId, 8, []);
    FixedWidth(r.offset, 8, []);
    FixedWidth(r.length, 8, []);
    assert data[0..8] == LE(r.mmapId, 8) && data[8..16] == LE(r.offset, 8) && data[16..24] == LE(r.length, 8);
  }

  /** Accepted exactly when there are 24 bytes; then those are its encoding. */
  lemma {:induction false} RangeDecodes(data: seq<byte>)
    ensures DecodeRange(data).Ok? <==> |data| >= 24
    ensures DecodeRange(data).Ok? ==> EncodeRange(DecodeRange(data).value) == data[..24]
  {
    if |data| >= 24 {
      RangeReencodes(data[0..8], data[8..16], data[16..24]);
      Adjoin(data, 8, 16, 24, 24);
      assert data[..8] == data[0..8] && data[24..24] == [];
    }
  }

  lemma RangeReencodes(a: seq<byte>, b: seq<byte>, c: seq<byte>)
    requires |a| == |b| == |c| == 8
    ensures EncodeRange(Range(FromLE(a), FromLE(b), FromLE(c))) == a + b + c
  {
    FixedWidth(0, 8, a);
    FixedWidth(0, 8, b);
    FixedWidth(0, 8, c);
  }

  // ---------------------------------------------------------------- two inputs on which a decoder panics

  lemma Ones(low: byte)
    ensures FromLE([low, 0xFF, 0xFF, 0xFF]) == low + 0xFFFF_FF00
  {
    assert FromLE([0xFF]) == 0xFF && FromLE([0xFF, 0xFF]) == 0xFFFF;
    assert FromLE([0xFF, 0xFF, 0xFF]) == 0xFF_FFFF;
    assert [low, 0xFF, 0xFF, 0xFF][1..] == [0xFF, 0xFF, 0xFF];
  }

  /** A path length of 2^32 - 16: the sum that is compared with the length is 0. */
  lemma RegisterSumWraps()
    ensures DecodeRegister([0xF0, 0xFF, 0xFF, 0xFF]).Panics?
  {
    var data := [0xF0, 0xFF, 0xFF, 0xFF];
    assert data[..4] == data;
    Ones(0xF0);
  }

  /** A payload length of 2^32 - 1: the payload seems to end before it begins. */
  lemma TailEndWraps()
    ensures DecodeTail([0xFF, 0xFF, 0xFF, 0xFF], 0).Panics?
  {
    var data := [0xFF, 0xFF, 0xFF, 0xFF];
    assert data[0..4] == data;
    Ones(0xFF);
  }

  // ---------------------------------------------------------------- filling buffers in place

  /** copy and binary.LittleEndian.PutUint: the bytes go to buf[at:]. */
  method Put(buf: array<byte>, at: nat, bytes: seq<byte>)
    requires at + |bytes| <= buf.Length
    modifies buf
    ensures buf[..at + |bytes|] == old(buf[..at]) + bytes
    ensures buf[at + |bytes|..] == old(buf[at + |bytes|..])
  {
    for i := 0 to |bytes|
      invariant buf[..at] == old(buf[..at])
      invariant buf[at..at + i] == bytes[..i]
      invariant buf[at + i..] == old(buf[at + i..])
    {
      buf[at + i] := bytes[i];
    }
    assert buf[..at + |bytes|] == buf[..at] + buf[at..at + |bytes|];
  }

  method EncodeMmapRegisterRequest(r: RegisterRequest) returns (buf: array<byte>)
    requires RegisterFits(r)
    ensures fresh(buf) && buf[..] == EncodeRegister(r)
  {
    var n := |r.filePath|;
    buf := new byte[16 + n](_ => 0);
    Put(buf, 0, LE(n, 4));
    Put(buf, 4, r.filePath);
    Put(buf, 4 + n, LE(r.length, 8));
    Put(buf, 12 + n, LE(r.flags, 4));
    assert buf[..] == buf[..16 + n];
  }

  method EncodeMmapWriteRequest(r: WriteRequest) returns (buf: array<byte>)
    requires 20 + |r.data| < U32
    ensures fresh(buf) && buf[..] == EncodeWrite(r)
  {
    buf := new byte[20 + |r.data|](_ => 0);
    Put(buf, 0, LE(r.mmapId, 8));
    Put(buf, 8, LE(r.offset, 8));
    Put(buf, 16, LE(|r.data|, 4));
    Put(buf, 20, r.data);
    assert buf[..] == buf[..20 + |r.data|];
  }

  /** The guest's encoder, which shifts the bytes out by hand (guest/9pfuse/mmap.go:196-209). */
  method GuestEncodeUnregister(mmapId: nat) returns (buf: array<byte>)
    requires mmapId < U64
    ensures fresh(buf) && buf.Length == 8 && FromLE(buf[..8]) == mmapId
  {
    buf := new byte[8](_ => 0);
    buf[0] := mmapId % 0x100;
    buf[1] := mmapId / 0x100 % 0x100;
    buf[2] := mmapId / 0x1_0000 % 0x100;
    buf[3] := mmapId / 0x100_0000 % 0x100;
    buf[4] := mmapId / 0x1_0000_0000 % 0x100;
    buf[5] := mmapId / 0x100_0000_0000 % 0x100;
    buf[6] := mmapId / 0x1_0000_0000_0000 % 0x100;
    buf[7] := mmapId / 0x100_0000_0000_0000 % 0x100;
    ShiftedBytes(mmapId);
    assert buf[..8] == LE(mmapId, 8);
    FixedWidth(mmapId, 8, []);
  }
}
