/** The wire frame of src/protocol.cpp: length, CRC-32C, then version, kind, request
    id and body. */
module Frames {
  import opened Bytes
  import opened Crc32c

  const PROTOCOL_VERSION: u32 := 1
  const MAX_PAYLOAD := 0x10_0000

  datatype Frame = Frame(kind: u32, requestId: u64, body: seq<Byte>)

  datatype DecodeResult = Rejected | Accepted(frame: Frame)

  function PayloadOf(f: Frame): seq<Byte>
  {
    PutU32(PROTOCOL_VERSION) + (PutU32(f.kind) + (PutU64(f.requestId) + f.body))
  }

  function Wrap(payload: seq<Byte>): seq<Byte>
  {
    PutU32(|payload|) + (Checksum(payload) + payload)
  }

  predicate Sendable(f: Frame)
  {
    16 + |f.body| <= MAX_PAYLOAD
  }

  /** `encode_frame`. */
  function FrameBytes(f: Frame): seq<Byte>
  {
    Wrap(PayloadOf(f))
  }

  function ReadPayload(s: seq<Byte>): (r: DecodeResult)
    ensures r.Accepted? ==> s == PayloadOf(r.frame)
  {
    hide ReadU32, ReadU64, PutU32, PutU64;
    var v := ReadU32(s);
    if v.Fail? || v.value != PROTOCOL_VERSION then Rejected else
      var k := ReadU32(v.rest);
      if k.Fail? then Rejected else
        var q := ReadU64(k.rest);
        if q.Fail? then Rejected else Accepted(Frame(k.value, q.value, q.rest))
  }

  /** `decode_frame`. */
  function DecodeFrame(s: seq<Byte>): DecodeResult
  {
    if |s| < 8 then Rejected else
      var len := GetLE(s[..4]);
      if len > MAX_PAYLOAD || len + 8 != |s| then Rejected
      else if Checksum(s[8..]) != s[4..8] then Rejected
      else ReadPayload(s[8..])
  }

  lemma PayloadLength(f: Frame)
    ensures |PayloadOf(f)| == 16 + |f.body|
  {
  }

  lemma WrapParts(payload: seq<Byte>)
    ensures var s := Wrap(payload);
            |s| == 8 + |payload| && s[..4] == PutU32(|payload|) && s[4..8] == Checksum(payload) && s[8..] == payload
  {
    hide Checksum;
  }

  /** A frame comes back as it was sent, whatever its kind, request id and body,
      exactly when it is within the payload limit. */
  lemma FrameRoundTrip(f: Frame)
    ensures DecodeFrame(FrameBytes(f)) == Accepted(f) <==> Sendable(f)
  {
    hide Checksum, Wrap, ReadU32, ReadU64, PutU32, PutU64, GetLE;
    if Sendable(f) {
      var payload := PayloadOf(f);
      PayloadLength(f);
      WrapParts(payload);
      GetPut(|payload|, 4);
      Widths();
      assert PutU32(|payload|) == PutLE(|payload|, 4) by { LengthField(|payload|); }
      ReadPutU32(PROTOCOL_VERSION, PutU32(f.kind) + (PutU64(f.requestId) + f.body));
      ReadPutU32(f.kind, PutU64(f.requestId) + f.body);
      ReadPutU64(f.requestId, f.body);
    } else if DecodeFrame(FrameBytes(f)) == Accepted(f) {
      AcceptedFrameIsCanonical(FrameBytes(f));
    }
  }

  lemma LengthField(n: nat)
    ensures PutU32(n) == PutLE(n, 4)
  {
  }

  /** Every accepted byte string is the canonical encoding of its result. */
  lemma AcceptedFrameIsCanonical(s: seq<Byte>)
    requires DecodeFrame(s).Accepted?
    ensures s == FrameBytes(DecodeFrame(s).frame) && Sendable(DecodeFrame(s).frame)
  {
    hide Checksum, ReadPayload, PayloadOf;
    var f := DecodeFrame(s).frame;
    PayloadLength(f);
    PutGet(s[..4]);
    LengthField(|s| - 8);
    assert s == s[..4] + (s[4..8] + s[8..]);
  }

  /** Changing any single byte of an encoded frame, length field included, gets it
      rejected. */
  lemma SingleByteCorruptionRejected(f: Frame, i: nat, b: Byte)
    requires Sendable(f) && i < |FrameBytes(f)| && b != FrameBytes(f)[i]
    ensures DecodeFrame(FrameBytes(f)[i := b]) == Rejected
  {
    hide Checksum, Wrap, PayloadOf, ReadPayload, GetLE;
    var payload := PayloadOf(f);
    PayloadLength(f);
    WrapParts(payload);
    var s := FrameBytes(f);
    var t := s[i := b];
    GetPut(|payload|, 4);
    Widths();
    LengthField(|payload|);
    if i < 4 {
      assert t[..4][i] == b && s[..4][i] == s[i];
      if GetLE(t[..4]) == GetLE(s[..4]) {
        GetInjective(t[..4], s[..4]);
        assert false;
      }
    } else if i < 8 {
      assert t[4..8][i - 4] == b && s[4..8][i - 4] == s[i] && t[8..] == payload;
    } else {
      assert t[8..] == payload[i - 8 := b] && t[4..8] == s[4..8] && payload[i - 8] == s[i];
      ChecksumSeparates(payload, i - 8, b);
    }
  }

  // ---------- the code ----------

  /** `encode_frame`: refuses oversized payloads, otherwise length, checksum, payload. */
  method EncodeFrame(crc: Engine, f: Frame) returns (ok: bool, out: seq<Byte>)
    requires crc.Valid()
    modifies crc`built, crc.table
    ensures crc.Valid()
    ensures ok == Sendable(f)
    ensures ok ==> out == FrameBytes(f)
  {
    hide Crc, WordBytes;
    out := [];
    var payload := PutU32(PROTOCOL_VERSION) + (PutU32(f.kind) + (PutU64(f.requestId) + f.body));
    PayloadLength(f);
    ok := |payload| <= MAX_PAYLOAD;
    if ok {
      var sum := crc.Compute(payload, Word(0));
      out := PutU32(|payload|) + (WordBytes(sum.bits) + payload);
    }
  }

  method DecodeFrameBytes(crc: Engine, s: seq<Byte>) returns (r: DecodeResult)
    requires crc.Valid()
    modifies crc`built, crc.table
    ensures crc.Valid()
    ensures r == DecodeFrame(s)
  {
    hide Crc, WordBytes;
    if |s| < 8 {
      return Rejected;
    }
    var len := GetLE(s[..4]);
    if len > MAX_PAYLOAD || len + 8 != |s| {
      return Rejected;
    }
    var payload := s[8..];
    var sum := crc.Compute(payload, Word(0));
    if WordBytes(sum.bits) != s[4..8] {
      return Rejected;
    }
    r := ReadPayload(payload);
  }
}
