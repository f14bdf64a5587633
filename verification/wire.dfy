/** Byte-level reading of telemetry datagrams.

    Every field the dashboards extract is read through one of the
    primitives here, each of which either yields the field or the fault the
    Python runtime would raise for that read: indexing `data[k]` past the end
    raises IndexError, and `struct.unpack` on a slice shorter than its format
    raises struct.error. Neither is caught by the ingestion loop. */
module Wire {

  /** One octet of a datagram. */
  type byte = x: int | 0 <= x < 256

  /** A fault raised by a read, with the offset that caused it. */
  datatype Fault =
    | IndexError(at: nat)
    | StructError(at: nat, width: nat)

  /** Either a decoded value or the fault that aborted the read. */
  datatype Result<T> = Ok(value: T) | Err(fault: Fault) {
    predicate IsFailure() { Err? }

    function PropagateFailure<U>(): Result<U>
      requires Err?
    {
      Err(fault)
    }

    function Extract(): T
      requires Ok?
    {
      value
    }
  }

  function Min(a: nat, b: nat): nat { if a <= b then a else b }

  /** `data[k]`: a single byte, or IndexError past the end. */
  function ByteAt(data: seq<byte>, k: nat): (r: Result<byte>)
    ensures r.Ok? <==> k < |data|
    ensures r.Ok? ==> r.value == data[k]
  {
    if k < |data| then Ok(data[k]) else Err(IndexError(k))
  }

  /** `data[lo:hi]` for 0 <= lo <= hi: never fails, clipped to the buffer.
      Whole when the buffer reaches `hi`, cut short when it ends inside the
      range, empty when it ends before `lo`. */
  function Clip(data: seq<byte>, lo: nat, hi: nat): (r: seq<byte>)
    requires lo <= hi
    ensures |r| <= hi - lo
    ensures hi <= |data| ==> r == data[lo..hi]
    ensures lo <= |data| <= hi ==> r == data[lo..]
    ensures |data| <= lo ==> r == []
  {
    data[Min(lo, |data|)..Min(hi, |data|)]
  }

  /** The `width` bytes that `struct.unpack` is handed at `off`; the unpack
      fails unless the slice has exactly that many bytes. */
  function Field(data: seq<byte>, off: nat, width: nat): (r: Result<seq<byte>>)
    ensures r.Ok? <==> off + width <= |data|
    ensures r.Ok? ==> r.value == data[off..off + width]
  {
    if off + width <= |data| then Ok(data[off..off + width]) else Err(StructError(off, width))
  }

  /** Value of two bytes read as `<H`. */
  function U16(b0: byte, b1: byte): nat
  {
    b0 + 256 * b1
  }

  /** Value of four bytes read as `<I`. */
  function U32(b0: byte, b1: byte, b2: byte, b3: byte): nat
  {
    b0 + 256 * b1 + 65536 * b2 + 16777216 * b3
  }

  /** `struct.unpack('<H', data[off:off+2])[0]`. */
  function ReadU16(data: seq<byte>, off: nat): (r: Result<nat>)
    ensures r.Ok? <==> off + 2 <= |data|
    ensures r.Ok? ==> r.value < 0x1_0000
    ensures r.Ok? ==> r.value % 256 == data[off] && r.value / 256 == data[off + 1]
  {
    var b :- Field(data, off, 2);
    Ok(U16(b[0], b[1]))
  }

  /** `struct.unpack('<I', data[off:off+4])[0]`. */
  function ReadU32(data: seq<byte>, off: nat): (r: Result<nat>)
    ensures r.Ok? <==> off + 4 <= |data|
    ensures r.Ok? ==> r.value < 0x1_0000_0000
    ensures r.Ok? ==> r.value % 256 == data[off] && r.value / 0x100_0000 == data[off + 3]
  {
    var b :- Field(data, off, 4);
    Ok(U32(b[0], b[1], b[2], b[3]))
  }

  /** Little-endian bytes of a 16-bit unsigned value, as `struct.pack('<H', v)`. */
  function EncodeU16(v: nat): (r: seq<byte>)
    requires v < 0x1_0000
    ensures |r| == 2
  {
    [v % 256, v / 256]
  }

  /** Little-endian bytes of a 32-bit unsigned value, as `struct.pack('<I', v)`. */
  function EncodeU32(v: nat): (r: seq<byte>)
    requires v < 0x1_0000_0000
    ensures |r| == 4
  {
    [v % 256, (v / 256) % 256, (v / 65536) % 256, v / 16777216]
  }

  /** Reading back what was packed, wherever it sits in a datagram. */
  lemma U16RoundTrip(pre: seq<byte>, v: nat, post: seq<byte>)
    requires v < 0x1_0000
    ensures ReadU16(pre + EncodeU16(v) + post, |pre|) == Ok(v)
  {
    var d := pre + EncodeU16(v) + post;
    assert d[|pre|..|pre| + 2] == EncodeU16(v);
  }

  /** Packing what was read gives back the same two bytes: with the round
      trip above, `<H` is a bijection between byte pairs and 0..65535. */
  lemma U16Bytes(data: seq<byte>, off: nat)
    requires off + 2 <= |data|
    ensures ReadU16(data, off).Ok?
    ensures EncodeU16(ReadU16(data, off).value) == data[off..off + 2]
  {
  }

  lemma U32RoundTrip(pre: seq<byte>, v: nat, post: seq<byte>)
    requires v < 0x1_0000_0000
    ensures ReadU32(pre + EncodeU32(v) + post, |pre|) == Ok(v)
  {
    var d := pre + EncodeU32(v) + post;
    assert d[|pre|..|pre| + 4] == EncodeU32(v);
    var b0, b1, b2, b3 := v % 256, (v / 256) % 256, (v / 65536) % 256, v / 16777216;
    assert v == b0 + 256 * (v / 256);
    assert v / 256 == b1 + 256 * (v / 65536);
    assert v / 65536 == b2 + 256 * b3;
  }

  lemma U32Bytes(data: seq<byte>, off: nat)
    requires off + 4 <= |data|
    ensures ReadU32(data, off).Ok?
    ensures EncodeU32(ReadU32(data, off).value) == data[off..off + 4]
  {
    var v := ReadU32(data, off).value;
    var b0: int, b1: int, b2: int, b3: int := data[off], data[off + 1], data[off + 2], data[off + 3];
    var q2 := b2 + 256 * b3;
    var q1 := b1 + 256 * q2;
    assert v == b0 + 256 * q1;
    DivMod256(v, b0, q1);
    DivMod256(q1, b1, q2);
    DivMod256(q2, b2, b3);
    assert v == (b0 + 256 * b1) + 65536 * q2;
  }

  /** Dividing by 256 recovers the high part and the low byte. */
  lemma DivMod256(v: int, lo: int, q: int)
    requires 0 <= lo < 256 && v == lo + 256 * q
    ensures v / 256 == q && v % 256 == lo
  {
  }

  /** How four little-endian bytes become a Python float (`<f`). The IEEE-754
      bit layout is not modelled: every handler takes the decoder as a
      parameter, so what is proved holds for any such decoding. */
  type F32Decoder = (byte, byte, byte, byte) -> real

  /** The float whose four bytes start at `off`. */
  function F32At(f32: F32Decoder, data: seq<byte>, off: nat): real
    requires off + 4 <= |data|
  {
    f32(data[off], data[off + 1], data[off + 2], data[off + 3])
  }
}

/** Fixed layout of the datagrams both dashboards consume: one byte selects
    the packet kind, and the per-car records sit at a fixed stride after the
    24-byte header. */
module Layout {
  /** Shorter datagrams are ignored. */
  const HeaderSize: nat := 24
  /** Offset of the packet-kind tag. */
  const KindOffset: nat := 5
  /** Offset, in a Motion packet, of the player's car index. */
  const PlayerOffset: nat := 20
  /** Number of car slots in Motion, Lap Data and Telemetry packets. */
  const CarCount: nat := 22

  const MotionKind := 0
  const LapKind := 2
  const ParticipantsKind := 4
  const TelemetryKind := 6

  const MotionStride: nat := 60
  const LapStride: nat := 43
  const ParticipantStride: nat := 56
  const TelemetryStride: nat := 60

  /** Offset, in a Participants packet, of the active-car count. */
  const ActiveCountOffset: nat := 24
  const ParticipantBase: nat := 25
  const TeamOffset: nat := 3
  const NameOffset: nat := 7
  const NameWidth: nat := 48

  function MotionSlot(i: nat): nat { HeaderSize + MotionStride * i }
  function LapSlot(i: nat): nat { HeaderSize + LapStride * i }
  function ParticipantSlot(i: nat): nat { ParticipantBase + ParticipantStride * i }
  function TelemetrySlot(i: nat): nat { HeaderSize + TelemetryStride * i }
}
