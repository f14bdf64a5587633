/** The ingestion side of the current dashboard (src/main.py): the shared
    state that the render loop reads, and the update one received datagram
    makes to it.

    A datagram shorter than the 24-byte header is ignored. Otherwise its
    arrival time is recorded under its packet kind (byte 5), and kinds 0
    (Motion), 2 (Lap Data), 4 (Participants) and 6 (Car Telemetry) update
    the state. A read past the end of the datagram raises an uncaught
    exception in the source, which ends the process; `Step` returns that
    fault instead of a state. */
module Dashboard {
  import opened Wire
  import opened Layout
  import opened Packets
  import Ordered
  import TrackMap
  import Names
  import Fleet

  /** A car record: `dist`, `team`, `name`, `x`, `z`. */
  datatype Car = Car(dist: real, team: int, name: string, x: real, z: real)

  /** The player's telemetry panel. Only `speed`, `lapTime` and `sector`
      are ever written by ingestion. */
  datatype Telemetry = Telemetry(speed: nat, gear: int, throttle: real, lapTime: nat, sector: int,
                                 trackId: int, gapAhead: real, gapBehind: real, pos: string)

  /** `SharedState` together with the track map the Motion handler feeds. */
  datatype State = State(active: bool, cars: Ordered.Table<Car>, playerIdx: byte,
                         telemetry: Telemetry, health: map<byte, real>, track: TrackMap.Track<int>)

  /** The packet kinds the health panel watches. */
  const Watched: set<byte> := {MotionKind, LapKind, ParticipantsKind, TelemetryKind}

  /** What ingestion maintains: an insertion-ordered table holding only
      car indices 0 .. 21, a well-formed track map, and a health time for
      every watched kind. */
  ghost predicate Valid(s: State)
  {
    && Ordered.Valid(s.cars)
    && (forall k :: k in s.cars.entries ==> k < CarCount)
    && TrackMap.Valid(s.track, TrackMap.SmartGap)
    && Watched <= s.health.Keys
  }

  /** `SharedState()` and a fresh `SmartTrackMap()`. */
  function Init(): (s: State)
    ensures Valid(s)
    ensures s.active && s.cars.entries == map[] && s.playerIdx == 0
    ensures s.track.points == [] && s.track.box == TrackMap.Seed
    ensures && s.telemetry.speed == 0 && s.telemetry.gear == 0 && s.telemetry.throttle == 0.0
            && s.telemetry.lapTime == 0 && s.telemetry.sector == 0 && s.telemetry.trackId == -1
            && s.telemetry.gapAhead == 0.0 && s.telemetry.gapBehind == 0.0 && s.telemetry.pos == "P--"
    ensures s.health.Keys == Watched && forall k :: k in s.health ==> s.health[k] == 0.0
  {
    TrackMap.EmptyValid<int>(TrackMap.SmartGap);
    State(true, Ordered.Empty(), 0,
          Telemetry(0, 0, 0.0, 0, 0, -1, 0.0, 0.0, "P--"),
          map[MotionKind := 0.0, LapKind := 0.0, ParticipantsKind := 0.0, TelemetryKind := 0.0],
          TrackMap.Empty())
  }

  // ---------------------------------------------------------------------
  // Motion
  // ---------------------------------------------------------------------

  /** The record a car gets when it is first seen: distance 0, team -1 and
      the name "CAR i"; its position is set right after. */
  function NewCar(i: nat): Car
  {
    Car(0.0, -1, Names.DefaultName(i), 0.0, 0.0)
  }

  function MoveCar(c: Car, p: Position): Car
  {
    c.(x := p.x, z := p.z)
  }

  /** The player's position, when the Motion packet shows the player with a
      non-zero x (only then is it added to the track map). */
  predicate TracksPlayer(m: Motion)
    requires |m.positions| == CarCount
  {
    m.player < CarCount && m.positions[m.player].x != 0.0
  }

  /** The Motion handler, given the decoded packet. */
  function ApplyMotion(s: State, m: Motion): (r: State)
    requires |m.positions| == CarCount
    ensures r.playerIdx == m.player
    ensures r.active == s.active && r.telemetry == s.telemetry && r.health == s.health
    ensures forall j :: 0 <= j < CarCount ==> Fleet.Placed(s.cars, r.cars, j, m.positions[j], NewCar, MoveCar)
    ensures forall k: nat :: k >= CarCount ==> Ordered.SameAt(s.cars, r.cars, k)
    ensures r.cars.order == s.cars.order + Fleet.Arrivals(s.cars, m.positions, 0)
    ensures s.cars.entries.Keys <= r.cars.entries.Keys
    ensures TracksPlayer(m) ==> r.track == TrackMap.AddPoint(s.track, TrackMap.SmartGap, m.positions[m.player].x, m.positions[m.player].z, s.telemetry.sector)
    ensures !TracksPlayer(m) ==> r.track == s.track
    ensures Valid(s) ==> Valid(r)
  {
    var cars := Fleet.Place(s.cars, m.positions, NewCar, MoveCar, 0);
    Fleet.PlaceKeepsCars(s.cars, m.positions, NewCar, MoveCar);
    Fleet.PlaceOrder(s.cars, m.positions, NewCar, MoveCar, 0);
    var track :=
      if TracksPlayer(m) then
        var p := m.positions[m.player];
        TrackMap.AddPointPreservesValid(s.track, TrackMap.SmartGap, p.x, p.z, s.telemetry.sector);
        TrackMap.AddPoint(s.track, TrackMap.SmartGap, p.x, p.z, s.telemetry.sector)
      else s.track;
    s.(playerIdx := m.player, cars := cars, track := track)
  }

  /** A Motion packet delivered twice leaves the state as one delivery
      does: no second car, no second track sample. */
  lemma RepeatedMotion(s: State, m: Motion)
    requires |m.positions| == CarCount
    ensures ApplyMotion(ApplyMotion(s, m), m) == ApplyMotion(s, m)
  {
    forall k | 0 <= k < |m.positions|
      ensures Fleet.Settles(s.cars, m.positions, NewCar, MoveCar, k)
    {
    }
    Fleet.PlaceTwice(s.cars, m.positions, NewCar, MoveCar);
    if TracksPlayer(m) {
      var p := m.positions[m.player];
      TrackMap.AddPointIdempotent(s.track, TrackMap.SmartGap, p.x, p.z, s.telemetry.sector);
    }
  }

  // ---------------------------------------------------------------------
  // Lap Data
  // ---------------------------------------------------------------------

  /** The Lap Data fields the dashboard uses: each car's lap distance and
      the player's sector and current lap time in milliseconds. */
  datatype Lap = Lap(distances: seq<real>, sector: byte, lapTime: nat)

  /** The distance float of the last slot ends here. */
  const LapLength: nat := LapSlot(CarCount - 1) + 20

  /** `struct.unpack('<f', data[off+16:off+20])` for slots i .. 21. */
  function LapDistances(f32: F32Decoder, data: seq<byte>, i: nat): (r: Result<seq<real>>)
    requires i <= CarCount
    ensures r.Ok? <==> i == CarCount || LapLength <= |data|
    ensures r.Ok? ==> |r.value| == CarCount - i
    decreases CarCount - i
  {
    if i == CarCount then Ok([])
    else
      var b :- Field(data, LapSlot(i) + 16, 4);
      var rest :- LapDistances(f32, data, i + 1);
      Ok([f32(b[0], b[1], b[2], b[3])] + rest)
  }

  /** Each decoded distance is the float at +16 of its own slot. */
  lemma {:induction false} LapDistancesAt(f32: F32Decoder, data: seq<byte>, i: nat)
    requires i <= CarCount
    ensures LapDistances(f32, data, i).Ok? ==> forall j :: i <= j < CarCount ==>
      LapSlot(j) + 20 <= |data| && LapDistances(f32, data, i).value[j - i] == F32At(f32, data, LapSlot(j) + 16)
    decreases CarCount - i
  {
    var r := LapDistances(f32, data, i);
    if i < CarCount && r.Ok? {
      LapDistancesAt(f32, data, i + 1);
      var rest := LapDistances(f32, data, i + 1).value;
      LapSlotFits(i);
      assert r.value == [F32At(f32, data, LapSlot(i) + 16)] + rest;
      forall j | i < j < CarCount
        ensures LapSlot(j) + 20 <= |data| && r.value[j - i] == F32At(f32, data, LapSlot(j) + 16)
      {
        assert r.value[j - i] == rest[j - (i + 1)];
      }
    }
  }

  /** A slot before the last lies inside a full Lap Data packet. */
  lemma LapSlotFits(i: nat)
    requires i < CarCount
    ensures LapSlot(i) + 20 <= LapLength
  {
  }

  /** The Lap Data packet as the handler reads it, the player's record
      located with the player index currently held. */
  function DecodeLap(f32: F32Decoder, data: seq<byte>, player: byte): (r: Result<Lap>)
    ensures r.Ok? <==> LapLength <= |data| && LapSlot(player) + 28 < |data|
    ensures r.Ok? ==> |r.value.distances| == CarCount
    ensures r.Ok? ==> forall j :: 0 <= j < CarCount ==> r.value.distances[j] == F32At(f32, data, LapSlot(j) + 16)
    ensures r.Ok? ==> r.value.sector == data[LapSlot(player) + 28]
    ensures r.Ok? ==> ReadU32(data, LapSlot(player) + 4) == Ok(r.value.lapTime) && r.value.lapTime < 0x1_0000_0000
  {
    LapDistancesAt(f32, data, 0);
    var ds :- LapDistances(f32, data, 0);
    var sector :- ByteAt(data, LapSlot(player) + 28);
    Ok(Lap(ds, sector, ReadU32(data, LapSlot(player) + 4).value))
  }

  function SetDist(c: Car, d: real): Car
  {
    c.(dist := d)
  }

  /** The Lap Data handler: distances of cars already in the table, and the
      player's sector and lap time. No car is created. */
  function ApplyLap(s: State, l: Lap): (r: State)
    ensures r.cars.order == s.cars.order && r.cars.entries.Keys == s.cars.entries.Keys
    ensures forall j :: j in s.cars.entries ==>
      var c, d := s.cars.entries[j], r.cars.entries[j];
      && d.dist == (if j < |l.distances| then l.distances[j] else c.dist)
      && d.team == c.team && d.name == c.name && d.x == c.x && d.z == c.z
    ensures r.telemetry == s.telemetry.(sector := l.sector as int, lapTime := l.lapTime)
    ensures r.active == s.active && r.playerIdx == s.playerIdx && r.health == s.health && r.track == s.track
    ensures Valid(s) ==> Valid(r)
  {
    var cars := Fleet.Revise(s.cars, l.distances, SetDist, 0);
    s.(cars := cars, telemetry := s.telemetry.(sector := l.sector as int, lapTime := l.lapTime))
  }

  // ---------------------------------------------------------------------
  // Participants
  // ---------------------------------------------------------------------

  /** One Participants record as the handler reads it: the team byte and
      the (clipped) 48-byte name field. */
  datatype Participant = Participant(team: byte, nameField: seq<byte>)

  /** Record `j`, once its team byte is known to be inside the datagram. */
  function RecordAt(data: seq<byte>, j: nat): Participant
    requires ParticipantSlot(j) + TeamOffset < |data|
  {
    var start := ParticipantSlot(j);
    Participant(data[start + TeamOffset], Clip(data, start + NameOffset, start + NameOffset + NameWidth))
  }

  /** Records i .. n-1. The team byte is indexed, so a record whose team
      byte lies past the end faults; the name slice is clipped and never
      does. */
  function Records(data: seq<byte>, i: nat, n: nat): (r: Result<seq<Participant>>)
    requires i <= n
    ensures r.Ok? <==> i == n || ParticipantSlot(n - 1) + TeamOffset < |data|
    ensures r.Ok? ==> |r.value| == n - i
    ensures r.Ok? ==> forall j :: i <= j < n ==> ParticipantSlot(j) + TeamOffset < |data| && r.value[j - i] == RecordAt(data, j)
    decreases n - i
  {
    if i == n then Ok([])
    else
      assert ParticipantSlot(i) <= ParticipantSlot(n - 1) by {
        assert ParticipantStride * i <= ParticipantStride * (n - 1);
      }
      var team :- ByteAt(data, ParticipantSlot(i) + TeamOffset);
      var rest :- Records(data, i + 1, n);
      Ok([RecordAt(data, i)] + rest)
  }

  /** The Participants packet: the active-car count at byte 24 (any value
      up to 255), then that many records. */
  function DecodeParticipants(data: seq<byte>): (r: Result<seq<Participant>>)
    ensures r.Ok? <==> ActiveCountOffset < |data| && (data[ActiveCountOffset] == 0 || ParticipantSlot(data[ActiveCountOffset] - 1) + TeamOffset < |data|)
    ensures r.Ok? ==> |r.value| == data[ActiveCountOffset]
    ensures r.Ok? ==> forall j :: 0 <= j < |r.value| ==> ParticipantSlot(j) + TeamOffset < |data| && r.value[j] == RecordAt(data, j)
  {
    var n :- ByteAt(data, ActiveCountOffset);
    Records(data, 0, n)
  }

  /** A known name replaces the stored one; `Unknown` never does. */
  function Rename(c: Car, p: Participant): (r: Car)
    ensures r.team == p.team
    ensures Names.DisplayName(p.nameField) != Names.Unknown ==> r.name == Names.DisplayName(p.nameField)
    ensures Names.DisplayName(p.nameField) == Names.Unknown ==> r.name == c.name
    ensures c.name != Names.Unknown ==> r.name != Names.Unknown
    ensures r == c.(team := r.team, name := r.name)
  {
    var name := Names.DisplayName(p.nameField);
    c.(team := p.team, name := if name != Names.Unknown then name else c.name)
  }

  /** The Participants handler: team and name of cars already in the table. */
  function ApplyParticipants(s: State, ps: seq<Participant>): (r: State)
    ensures r.cars.order == s.cars.order && r.cars.entries.Keys == s.cars.entries.Keys
    ensures forall j :: j in s.cars.entries && j < |ps| ==>
      var c, d := s.cars.entries[j], r.cars.entries[j];
      && d.team == ps[j].team
      && d.name == (if Names.DisplayName(ps[j].nameField) == Names.Unknown then c.name else Names.DisplayName(ps[j].nameField))
      && d.dist == c.dist && d.x == c.x && d.z == c.z
    ensures forall j :: j in s.cars.entries && j >= |ps| ==> r.cars.entries[j] == s.cars.entries[j]
    ensures r == s.(cars := r.cars)
    ensures Valid(s) ==> Valid(r)
  {
    s.(cars := Fleet.Revise(s.cars, ps, Rename, 0))
  }

  // ---------------------------------------------------------------------
  // Car Telemetry
  // ---------------------------------------------------------------------

  /** The player's speed in km/h: the first field of the player's record. */
  function DecodeSpeed(data: seq<byte>, player: byte): (r: Result<nat>)
    ensures r.Ok? <==> TelemetrySlot(player) + 2 <= |data|
    ensures r.Ok? ==> r.value < 0x1_0000 && EncodeU16(r.value) == data[TelemetrySlot(player)..TelemetrySlot(player) + 2]
  {
    var off := TelemetrySlot(player);
    if off + 2 <= |data| then U16Bytes(data, off); ReadU16(data, off) else ReadU16(data, off)
  }

  // ---------------------------------------------------------------------
  // One datagram
  // ---------------------------------------------------------------------

  /** Every read the handler for the datagram's kind makes lies inside the
      datagram. */
  predicate Fits(s: State, data: seq<byte>)
    requires |data| >= HeaderSize
  {
    var kind := data[KindOffset];
    if kind == MotionKind then MotionLength <= |data|
    else if kind == LapKind then LapLength <= |data| && LapSlot(s.playerIdx) + 28 < |data|
    else if kind == ParticipantsKind then
      ActiveCountOffset < |data| && (data[ActiveCountOffset] == 0 || ParticipantSlot(data[ActiveCountOffset] - 1) + TeamOffset < |data|)
    else if kind == TelemetryKind then TelemetrySlot(s.playerIdx) + 2 <= |data|
    else true
  }

  /** What every handler keeps: the on/off switch and the health times,
      every car already in the table and its place in the order, and the
      state's invariant. */
  ghost predicate Keeps(s: State, r: State)
  {
    && r.active == s.active && r.health == s.health
    && s.cars.order <= r.cars.order && s.cars.entries.Keys <= r.cars.entries.Keys
    && (Valid(s) ==> Valid(r))
  }

  function HandleMotion(s: State, data: seq<byte>, f32: F32Decoder): (r: Result<State>)
    requires |data| >= HeaderSize
    ensures r.Ok? <==> MotionLength <= |data|
    ensures r.Ok? ==> Keeps(s, r.value)
    ensures r.Ok? ==> r.value.playerIdx == data[PlayerOffset] && r.value.telemetry == s.telemetry
    ensures r.Ok? ==> forall j :: 0 <= j < CarCount ==> Fleet.Placed(s.cars, r.value.cars, j, SlotPosition(f32, data, j), NewCar, MoveCar)
    ensures r.Ok? ==> forall k: nat :: k >= CarCount ==> Ordered.SameAt(s.cars, r.value.cars, k)
    ensures r.Ok? ==> var p := data[PlayerOffset] as nat;
      if p < CarCount && SlotPosition(f32, data, p).x != 0.0
      then r.value.track == TrackMap.AddPoint(s.track, TrackMap.SmartGap, SlotPosition(f32, data, p).x, SlotPosition(f32, data, p).z, s.telemetry.sector)
      else r.value.track == s.track
  {
    var m :- DecodeMotion(f32, data);
    Ok(ApplyMotion(s, m))
  }

  function HandleLap(s: State, data: seq<byte>, f32: F32Decoder): (r: Result<State>)
    ensures r.Ok? <==> LapLength <= |data| && LapSlot(s.playerIdx) + 28 < |data|
    ensures r.Ok? ==> Keeps(s, r.value)
    ensures r.Ok? ==> r.value.telemetry.sector == data[LapSlot(s.playerIdx) + 28] && r.value.telemetry.lapTime < 0x1_0000_0000
    ensures r.Ok? ==> ReadU32(data, LapSlot(s.playerIdx) + 4) == Ok(r.value.telemetry.lapTime)
    ensures r.Ok? ==> r.value.cars.entries.Keys == s.cars.entries.Keys
    ensures r.Ok? ==> forall j :: j in s.cars.entries && j < CarCount ==> r.value.cars.entries[j].dist == F32At(f32, data, LapSlot(j) + 16)
  {
    var l :- DecodeLap(f32, data, s.playerIdx);
    Ok(ApplyLap(s, l))
  }

  function HandleParticipants(s: State, data: seq<byte>): (r: Result<State>)
    ensures r.Ok? <==> ActiveCountOffset < |data| && (data[ActiveCountOffset] == 0 || ParticipantSlot(data[ActiveCountOffset] - 1) + TeamOffset < |data|)
    ensures r.Ok? ==> Keeps(s, r.value)
    ensures r.Ok? ==> forall j :: j in s.cars.entries && j < data[ActiveCountOffset] ==> r.value.cars.entries[j].team == data[ParticipantSlot(j) + TeamOffset]
    ensures r.Ok? ==> forall j :: j in s.cars.entries && j < data[ActiveCountOffset] ==>
      var name := Names.DisplayName(RecordAt(data, j).nameField);
      r.value.cars.entries[j].name == if name == Names.Unknown then s.cars.entries[j].name else name
    ensures r.Ok? ==> forall j :: j in s.cars.entries && j >= data[ActiveCountOffset] ==> r.value.cars.entries[j] == s.cars.entries[j]
  {
    var ps :- DecodeParticipants(data);
    Ok(ApplyParticipants(s, ps))
  }

  function HandleTelemetry(s: State, data: seq<byte>): (r: Result<State>)
    ensures r.Ok? <==> TelemetrySlot(s.playerIdx) + 2 <= |data|
    ensures r.Ok? ==> Keeps(s, r.value)
    ensures r.Ok? ==> r.value.telemetry.speed < 0x1_0000 && ReadU16(data, TelemetrySlot(s.playerIdx)) == Ok(r.value.telemetry.speed)
    ensures r.Ok? ==> r.value == s.(telemetry := s.telemetry.(speed := r.value.telemetry.speed))
  {
    var speed :- DecodeSpeed(data, s.playerIdx);
    Ok(s.(telemetry := s.telemetry.(speed := speed)))
  }

  /** One pass of the ingestion loop for the datagram `data` received at
      time `now`. */
  function Step(s: State, data: seq<byte>, now: real, f32: F32Decoder): (r: Result<State>)
    ensures |data| < HeaderSize ==> r == Ok(s)
    ensures |data| >= HeaderSize ==> (r.Ok? <==> Fits(s, data))
    ensures |data| >= HeaderSize && data[KindOffset] !in Watched ==> r == Ok(s.(health := s.health[data[KindOffset] := now]))
    ensures |data| >= HeaderSize && r.Ok? ==> r.value.health == s.health[data[KindOffset] := now]
    ensures r.Ok? ==> r.value.active == s.active
    ensures r.Ok? ==> s.cars.order <= r.value.cars.order && s.cars.entries.Keys <= r.value.cars.entries.Keys
    ensures r.Ok? && Valid(s) ==> Valid(r.value)
  {
    if |data| < HeaderSize then Ok(s)
    else
      var kind := data[KindOffset];
      var seen := s.(health := s.health[kind := now]);
      assert Valid(s) ==> Valid(seen);
      Dispatch(seen, data, f32)
  }

  /** The handler for the datagram's kind; other kinds change nothing. */
  function Dispatch(s: State, data: seq<byte>, f32: F32Decoder): (r: Result<State>)
    requires |data| >= HeaderSize
    ensures r.Ok? <==> Fits(s, data)
    ensures r.Ok? ==> Keeps(s, r.value)
    ensures data[KindOffset] !in Watched ==> r == Ok(s)
  {
    var kind := data[KindOffset];
    if kind == MotionKind then HandleMotion(s, data, f32)
    else if kind == LapKind then HandleLap(s, data, f32)
    else if kind == ParticipantsKind then HandleParticipants(s, data)
    else if kind == TelemetryKind then HandleTelemetry(s, data)
    else Ok(s)
  }

  // ---------------------------------------------------------------------
  // A sequence of datagrams
  // ---------------------------------------------------------------------

  /** The ingestion loop over datagrams `ds`, the k-th received at
      `times[k]`; the first fault ends it. */
  function Run(s: State, ds: seq<seq<byte>>, times: seq<real>, f32: F32Decoder): (r: Result<State>)
    requires |ds| == |times|
    ensures r.Ok? ==> r.value.active == s.active
    ensures r.Ok? ==> s.cars.order <= r.value.cars.order
    ensures r.Ok? && Valid(s) ==> Valid(r.value)
    decreases |ds|
  {
    if |ds| == 0 then Ok(s)
    else
      var next :- Step(s, ds[0], times[0], f32);
      Run(next, ds[1..], times[1..], f32)
  }

  /** When a datagram of some kind was last received, if ever. */
  datatype Seen = Never | At(time: real)

  /** The arrival time of the last datagram in `ds` (of header length or
      more) whose kind byte is `k`. */
  function LastSeen(ds: seq<seq<byte>>, times: seq<real>, k: byte): Seen
    requires |ds| == |times|
  {
    if |ds| == 0 then Never
    else
      var later := LastSeen(ds[1..], times[1..], k);
      if later.At? then later
      else if |ds[0]| >= HeaderSize && ds[0][KindOffset] == k then At(times[0])
      else Never
  }

  /** `packet_health[k]` holds the arrival time of the most recent datagram
      of kind `k`; a kind that did not arrive keeps the time it had. */
  lemma {:induction false} RunHealth(s: State, ds: seq<seq<byte>>, times: seq<real>, f32: F32Decoder, k: byte)
    requires |ds| == |times| && Run(s, ds, times, f32).Ok?
    ensures var h := Run(s, ds, times, f32).value.health;
      match LastSeen(ds, times, k)
      case At(t) => k in h && h[k] == t
      case Never => (k in h <==> k in s.health) && (k in s.health ==> h[k] == s.health[k])
    decreases |ds|
  {
    if |ds| > 0 {
      var next := Step(s, ds[0], times[0], f32).value;
      RunHealth(next, ds[1..], times[1..], f32, k);
    }
  }
}
