/** Decoding of the Motion packet, which both dashboards read the same way:
    the player's car index at byte 20, then for each of the 22 cars a
    60-byte record whose first twelve bytes are the little-endian floats
    x, y, z (y is not used). */
module Packets {
  import opened Wire
  import opened Layout

  /** A car's world position in the horizontal plane. */
  datatype Position = Position(x: real, z: real)

  datatype Motion = Motion(player: byte, positions: seq<Position>)

  /** Every slot of a Motion packet can be unpacked iff the last one can. */
  const MotionLength: nat := MotionSlot(CarCount - 1) + 12

  /** The position that the record of car `j` holds. */
  function SlotPosition(f32: F32Decoder, data: seq<byte>, j: nat): Position
    requires MotionSlot(j) + 12 <= |data|
  {
    Position(F32At(f32, data, MotionSlot(j)), F32At(f32, data, MotionSlot(j) + 8))
  }

  /** `struct.unpack('<fff', data[off:off+12])` for slots i .. 21, in order. */
  function MotionPositions(f32: F32Decoder, data: seq<byte>, i: nat): (r: Result<seq<Position>>)
    requires i <= CarCount
    ensures r.Ok? <==> i == CarCount || MotionLength <= |data|
    ensures r.Ok? ==> |r.value| == CarCount - i
    decreases CarCount - i
  {
    if i == CarCount then Ok([])
    else
      var b :- Field(data, MotionSlot(i), 12);
      var here := Position(f32(b[0], b[1], b[2], b[3]), f32(b[8], b[9], b[10], b[11]));
      var rest :- MotionPositions(f32, data, i + 1);
      Ok([here] + rest)
  }

  /** Each decoded position is the one its own slot holds. */
  lemma {:induction false} MotionPositionsAt(f32: F32Decoder, data: seq<byte>, i: nat)
    requires i <= CarCount
    ensures MotionPositions(f32, data, i).Ok? ==> forall j :: i <= j < CarCount ==>
      MotionSlot(j) + 12 <= |data| && MotionPositions(f32, data, i).value[j - i] == SlotPosition(f32, data, j)
    decreases CarCount - i
  {
    var r := MotionPositions(f32, data, i);
    if i < CarCount && r.Ok? {
      MotionPositionsAt(f32, data, i + 1);
      var rest := MotionPositions(f32, data, i + 1).value;
      SlotFits(i);
      assert r.value == [SlotPosition(f32, data, i)] + rest;
      forall j | i < j < CarCount
        ensures MotionSlot(j) + 12 <= |data| && r.value[j - i] == SlotPosition(f32, data, j)
      {
        assert r.value[j - i] == rest[j - (i + 1)];
      }
    }
  }

  /** A slot before the last lies inside a full Motion packet. */
  lemma SlotFits(i: nat)
    requires i < CarCount
    ensures MotionSlot(i) + 12 <= MotionLength
  {
  }

  /** The Motion packet: player index and the 22 positions, or the fault of
      the first slot that runs past the end of the datagram. */
  function DecodeMotion(f32: F32Decoder, data: seq<byte>): (r: Result<Motion>)
    requires |data| >= HeaderSize
    ensures r.Ok? <==> MotionLength <= |data|
    ensures r.Ok? ==> r.value.player == data[PlayerOffset] && |r.value.positions| == CarCount
    ensures r.Ok? ==> forall j :: 0 <= j < CarCount ==> r.value.positions[j] == SlotPosition(f32, data, j)
  {
    MotionPositionsAt(f32, data, 0);
    var ps :- MotionPositions(f32, data, 0);
    Ok(Motion(data[PlayerOffset], ps))
  }
}
