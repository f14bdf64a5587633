/** The ingestion side of the legacy dashboard (legacy/dashboard_v1.py) and
    the live grid it draws from it.

    Every datagram of at least 24 bytes is counted under its kind byte.
    Kinds 0 (Motion), 2 (Lap Data) and 6 (Car Telemetry) update the state;
    every other kind, Participants included, is only counted. A read past
    the end of the datagram ends the process; `Step` returns that fault. */
module DashboardV1 {
  import opened Wire
  import opened Layout
  import opened Packets
  import Ordered
  import TrackMap
  import Fleet
  import Standings

  /** A car record: `dist`, `raw_pos`, `x`, `z`. */
  datatype Car = Car(dist: real, rawPos: byte, x: real, z: real)

  datatype State = State(cars: Ordered.Table<Car>, track: TrackMap.Track<()>, playerIdx: byte,
                         counts: map<byte, nat>, speed: nat, throttle: real)

  /** The packet-flow panel lists kinds 0 .. 11. */
  const PanelKinds: set<byte> := {0, 1, 2, 3, 4, 5, 6, 7, 8, 9, 10, 11}

  /** `packet_counts.get(k, 0)`. */
  function Count(counts: map<byte, nat>, k: byte): nat
  {
    if k in counts then counts[k] else 0
  }

  /** What ingestion maintains: an insertion-ordered table of car indices
      0 .. 21, a well-formed track map, and a count for every kind the
      panel lists. */
  ghost predicate Valid(s: State)
  {
    && Ordered.Valid(s.cars)
    && (forall k :: k in s.cars.entries ==> k < CarCount)
    && TrackMap.Valid(s.track, TrackMap.LegacyGap)
    && PanelKinds <= s.counts.Keys
  }

  /** The state `main` sets up before its loop. */
  function Init(): (s: State)
    ensures Valid(s)
    ensures s.cars.entries == map[] && s.playerIdx == 0 && s.speed == 0 && s.throttle == 0.0
    ensures s.track.points == [] && s.track.box == TrackMap.Seed
    ensures s.counts.Keys == PanelKinds && forall k :: k in s.counts ==> s.counts[k] == 0
  {
    TrackMap.EmptyValid<()>(TrackMap.LegacyGap);
    State(Ordered.Empty(), TrackMap.Empty(), 0, map k | k in PanelKinds :: 0, 0, 0.0)
  }

  // ---------------------------------------------------------------------
  // Motion
  // ---------------------------------------------------------------------

  /** `{'dist': 0, 'raw_pos': 0}`; the position is set right after. */
  function NewCar(i: nat): Car
  {
    Car(0.0, 0, 0.0, 0.0)
  }

  function MoveCar(c: Car, p: Position): Car
  {
    c.(x := p.x, z := p.z)
  }

  predicate TracksPlayer(m: Motion)
    requires |m.positions| == CarCount
  {
    m.player < CarCount && m.positions[m.player].x != 0.0
  }

  /** The Motion handler, given the decoded packet. */
  function ApplyMotion(s: State, m: Motion): (r: State)
    requires |m.positions| == CarCount
    ensures r.playerIdx == m.player
    ensures r.counts == s.counts && r.speed == s.speed && r.throttle == s.throttle
    ensures forall j :: 0 <= j < CarCount ==> Fleet.Placed(s.cars, r.cars, j, m.positions[j], NewCar, MoveCar)
    ensures forall k: nat :: k >= CarCount ==> Ordered.SameAt(s.cars, r.cars, k)
    ensures r.cars.order == s.cars.order + Fleet.Arrivals(s.cars, m.positions, 0)
    ensures s.cars.entries.Keys <= r.cars.entries.Keys
    ensures TracksPlayer(m) ==> r.track == TrackMap.AddPoint(s.track, TrackMap.LegacyGap, m.positions[m.player].x, m.positions[m.player].z, ())
    ensures !TracksPlayer(m) ==> r.track == s.track
    ensures Valid(s) ==> Valid(r)
  {
    var cars := Fleet.Place(s.cars, m.positions, NewCar, MoveCar, 0);
    Fleet.PlaceKeepsCars(s.cars, m.positions, NewCar, MoveCar);
    Fleet.PlaceOrder(s.cars, m.positions, NewCar, MoveCar, 0);
    var track :=
      if TracksPlayer(m) then
        var p := m.positions[m.player];
        TrackMap.AddPointPreservesValid(s.track, TrackMap.LegacyGap, p.x, p.z, ());
        TrackMap.AddPoint(s.track, TrackMap.LegacyGap, p.x, p.z, ())
      else s.track;
    s.(playerIdx := m.player, cars := cars, track := track)
  }

  /** A Motion packet delivered twice leaves the state as one delivery
      does: no second car, no second track sample. */
  lemma RepeatedMotion(s: State, m: Motion)
    requires |m.positions| == CarCount
    ensures ApplyMotion(ApplyMotion(s, m), m) == ApplyMotion(s, m)
  {
    forall k | 0 <= k < |m.positions|
      ensures Fleet.Settles(s.cars, m.positions, NewCar, MoveCar, k)
    {
    }
    Fleet.PlaceTwice(s.cars, m.positions, NewCar, MoveCar);
    if TracksPlayer(m) {
      var p := m.positions[m.player];
      TrackMap.AddPointIdempotent(s.track, TrackMap.LegacyGap, p.x, p.z, ());
    }
  }

  // ---------------------------------------------------------------------
  // Lap Data
  // ---------------------------------------------------------------------

  /** One car's lap record as the handler reads it: the lap distance and
      the race position byte. */
  datatype LapRecord = LapRecord(dist: real, rawPos: byte)

  /** The position byte of the last slot is the last byte read. */
  const LapLength: nat := LapSlot(CarCount - 1) + 34

  /** Slot `j`, once it is known to lie inside the datagram. */
  function RecordAt(f32: F32Decoder, data: seq<byte>, j: nat): LapRecord
    requires LapSlot(j) + 34 <= |data|
  {
    LapRecord(F32At(f32, data, LapSlot(j) + 16), data[LapSlot(j) + 33])
  }

  /** For each slot i .. 21: the distance float at +16, then the byte at
      +33, both read whether or not the car is in the table. */
  function LapRecords(f32: F32Decoder, data: seq<byte>, i: nat): (r: Result<seq<LapRecord>>)
    requires i <= CarCount
    ensures r.Ok? <==> i == CarCount || LapLength <= |data|
    ensures r.Ok? ==> |r.value| == CarCount - i
    decreases CarCount - i
  {
    if i == CarCount then Ok([])
    else
      var b :- Field(data, LapSlot(i) + 16, 4);
      var rawPos :- ByteAt(data, LapSlot(i) + 33);
      var rest :- LapRecords(f32, data, i + 1);
      Ok([LapRecord(f32(b[0], b[1], b[2], b[3]), rawPos)] + rest)
  }

  /** Each decoded record is the one its own slot holds. */
  lemma {:induction false} LapRecordsAt(f32: F32Decoder, data: seq<byte>, i: nat)
    requires i <= CarCount
    ensures LapRecords(f32, data, i).Ok? ==> forall j :: i <= j < CarCount ==>
      LapSlot(j) + 34 <= |data| && LapRecords(f32, data, i).value[j - i] == RecordAt(f32, data, j)
    decreases CarCount - i
  {
    var r := LapRecords(f32, data, i);
    if i < CarCount && r.Ok? {
      LapRecordsAt(f32, data, i + 1);
      var rest := LapRecords(f32, data, i + 1).value;
      LapSlotFits(i);
      assert r.value == [RecordAt(f32, data, i)] + rest;
      forall j | i < j < CarCount
        ensures LapSlot(j) + 34 <= |data| && r.value[j - i] == RecordAt(f32, data, j)
      {
        assert r.value[j - i] == rest[j - (i + 1)];
      }
    }
  }

  /** A slot before the last lies inside a full Lap Data packet. */
  lemma LapSlotFits(i: nat)
    requires i < CarCount
    ensures LapSlot(i) + 34 <= LapLength
  {
  }

  /** The Lap Data packet: the 22 records, or the fault of the first read
      that runs past the end of the datagram. */
  function DecodeLap(f32: F32Decoder, data: seq<byte>): (r: Result<seq<LapRecord>>)
    ensures r.Ok? <==> LapLength <= |data|
    ensures r.Ok? ==> |r.value| == CarCount
    ensures r.Ok? ==> forall j :: 0 <= j < CarCount ==> r.value[j] == RecordAt(f32, data, j)
  {
    LapRecordsAt(f32, data, 0);
    LapRecords(f32, data, 0)
  }

  function SetLap(c: Car, l: LapRecord): Car
  {
    c.(dist := l.dist, rawPos := l.rawPos)
  }

  /** The Lap Data handler: distance and position of cars already in the
      table. No car is created. */
  function ApplyLap(s: State, ls: seq<LapRecord>): (r: State)
    ensures r.cars.order == s.cars.order && r.cars.entries.Keys == s.cars.entries.Keys
    ensures forall j :: j in s.cars.entries && j < |ls| ==>
      var c, d := s.cars.entries[j], r.cars.entries[j];
      d.dist == ls[j].dist && d.rawPos == ls[j].rawPos && d.x == c.x && d.z == c.z
    ensures forall j :: j in s.cars.entries && j >= |ls| ==> r.cars.entries[j] == s.cars.entries[j]
    ensures r == s.(cars := r.cars)
    ensures Valid(s) ==> Valid(r)
  {
    s.(cars := Fleet.Revise(s.cars, ls, SetLap, 0))
  }

  // ---------------------------------------------------------------------
  // Car Telemetry
  // ---------------------------------------------------------------------

  /** The player's speed (u16 at the record start) and throttle (float
      right after it). */
  function DecodeTelemetry(f32: F32Decoder, data: seq<byte>, player: byte): (r: Result<(nat, real)>)
    ensures r.Ok? <==> TelemetrySlot(player) + 6 <= |data|
    ensures r.Ok? ==> ReadU16(data, TelemetrySlot(player)) == Ok(r.value.0)
    ensures r.Ok? ==> r.value.1 == F32At(f32, data, TelemetrySlot(player) + 2)
  {
    var off := TelemetrySlot(player);
    var speed :- ReadU16(data, off);
    var b :- Field(data, off + 2, 4);
    Ok((speed, f32(b[0], b[1], b[2], b[3])))
  }

  // ---------------------------------------------------------------------
  // One datagram
  // ---------------------------------------------------------------------

  /** Every read the handler for the datagram's kind makes lies inside it. */
  predicate Fits(s: State, data: seq<byte>)
    requires |data| >= HeaderSize
  {
    var kind := data[KindOffset];
    if kind == MotionKind then MotionLength <= |data|
    else if kind == LapKind then LapLength <= |data|
    else if kind == TelemetryKind then TelemetrySlot(s.playerIdx) + 6 <= |data|
    else true
  }

  /** What every handler keeps: the counts, the cars already in the table
      and their order, and the state's invariant. */
  ghost predicate Keeps(s: State, r: State)
  {
    && r.counts == s.counts
    && s.cars.order <= r.cars.order && s.cars.entries.Keys <= r.cars.entries.Keys
    && (Valid(s) ==> Valid(r))
  }

  function HandleMotion(s: State, data: seq<byte>, f32: F32Decoder): (r: Result<State>)
    requires |data| >= HeaderSize
    ensures r.Ok? <==> MotionLength <= |data|
    ensures r.Ok? ==> Keeps(s, r.value)
    ensures r.Ok? ==> r.value.playerIdx == data[PlayerOffset] && r.value.speed == s.speed && r.value.throttle == s.throttle
    ensures r.Ok? ==> forall j :: 0 <= j < CarCount ==> Fleet.Placed(s.cars, r.value.cars, j, SlotPosition(f32, data, j), NewCar, MoveCar)
    ensures r.Ok? ==> forall k: nat :: k >= CarCount ==> Ordered.SameAt(s.cars, r.value.cars, k)
    ensures r.Ok? ==> var p := data[PlayerOffset] as nat;
      if p < CarCount && SlotPosition(f32, data, p).x != 0.0
      then r.value.track == TrackMap.AddPoint(s.track, TrackMap.LegacyGap, SlotPosition(f32, data, p).x, SlotPosition(f32, data, p).z, ())
      else r.value.track == s.track
  {
    var m :- DecodeMotion(f32, data);
    Ok(ApplyMotion(s, m))
  }

  function HandleLap(s: State, data: seq<byte>, f32: F32Decoder): (r: Result<State>)
    ensures r.Ok? <==> LapLength <= |data|
    ensures r.Ok? ==> Keeps(s, r.value)
    ensures r.Ok? ==> r.value.cars.entries.Keys == s.cars.entries.Keys
    ensures r.Ok? ==> forall j :: j in s.cars.entries && j < CarCount ==>
      r.value.cars.entries[j] == SetLap(s.cars.entries[j], RecordAt(f32, data, j))
  {
    var ls :- DecodeLap(f32, data);
    Ok(ApplyLap(s, ls))
  }

  function HandleTelemetry(s: State, data: seq<byte>, f32: F32Decoder): (r: Result<State>)
    ensures r.Ok? <==> TelemetrySlot(s.playerIdx) + 6 <= |data|
    ensures r.Ok? ==> Keeps(s, r.value)
    ensures r.Ok? ==> ReadU16(data, TelemetrySlot(s.playerIdx)) == Ok(r.value.speed)
    ensures r.Ok? ==> r.value.speed < 0x1_0000 && r.value.throttle == F32At(f32, data, TelemetrySlot(s.playerIdx) + 2)
    ensures r.Ok? ==> r.value == s.(speed := r.value.speed, throttle := r.value.throttle)
  {
    var t :- DecodeTelemetry(f32, data, s.playerIdx);
    Ok(s.(speed := t.0, throttle := t.1))
  }

  /** One pass of the ingestion loop for the datagram `data`. */
  function Step(s: State, data: seq<byte>, f32: F32Decoder): (r: Result<State>)
    ensures |data| < HeaderSize ==> r == Ok(s)
    ensures |data| >= HeaderSize ==> (r.Ok? <==> Fits(s, data))
    ensures |data| >= HeaderSize && r.Ok? ==> r.value.counts == s.counts[data[KindOffset] := Count(s.counts, data[KindOffset]) + 1]
    ensures |data| >= HeaderSize && data[KindOffset] !in {MotionKind, LapKind, TelemetryKind} ==>
      r == Ok(s.(counts := s.counts[data[KindOffset] := Count(s.counts, data[KindOffset]) + 1]))
    ensures r.Ok? ==> s.cars.order <= r.value.cars.order && s.cars.entries.Keys <= r.value.cars.entries.Keys
    ensures r.Ok? && Valid(s) ==> Valid(r.value)
  {
    if |data| < HeaderSize then Ok(s)
    else
      var kind := data[KindOffset];
      var counted := s.(counts := s.counts[kind := Count(s.counts, kind) + 1]);
      assert Valid(s) ==> Valid(counted);
      Dispatch(counted, data, f32)
  }

  /** The handler for the datagram's kind; other kinds change nothing. */
  function Dispatch(s: State, data: seq<byte>, f32: F32Decoder): (r: Result<State>)
    requires |data| >= HeaderSize
    ensures r.Ok? <==> Fits(s, data)
    ensures r.Ok? ==> Keeps(s, r.value)
    ensures data[KindOffset] !in {MotionKind, LapKind, TelemetryKind} ==> r == Ok(s)
  {
    var kind := data[KindOffset];
    if kind == MotionKind then HandleMotion(s, data, f32)
    else if kind == LapKind then HandleLap(s, data, f32)
    else if kind == TelemetryKind then HandleTelemetry(s, data, f32)
    else Ok(s)
  }

  /** The ingestion loop over the datagrams `ds`; the first fault ends it. */
  function Run(s: State, ds: seq<seq<byte>>, f32: F32Decoder): (r: Result<State>)
    ensures r.Ok? ==> s.cars.order <= r.value.cars.order
    ensures r.Ok? && Valid(s) ==> Valid(r.value)
    decreases |ds|
  {
    if |ds| == 0 then Ok(s)
    else
      var next :- Step(s, ds[0], f32);
      Run(next, ds[1..], f32)
  }

  /** How many datagrams of `ds` have a header and kind byte `k`. */
  function Tally(ds: seq<seq<byte>>, k: byte): nat
  {
    if |ds| == 0 then 0
    else (if |ds[0]| >= HeaderSize && ds[0][KindOffset] == k then 1 else 0) + Tally(ds[1..], k)
  }

  /** The packet-flow panel counts exactly the datagrams received of each
      kind. */
  lemma {:induction false} RunCounts(s: State, ds: seq<seq<byte>>, f32: F32Decoder, k: byte)
    requires Run(s, ds, f32).Ok?
    ensures Count(Run(s, ds, f32).value.counts, k) == Count(s.counts, k) + Tally(ds, k)
    decreases |ds|
  {
    if |ds| > 0 {
      var next := Step(s, ds[0], f32).value;
      RunCounts(next, ds[1..], f32, k);
    }
  }

  // ---------------------------------------------------------------------
  // The live grid
  // ---------------------------------------------------------------------

  /** `cars.items()` as standings entries: index and distance, in table
      order. */
  function TableEntries(cars: Ordered.Table<Car>): (es: seq<Standings.Entry>)
    requires Ordered.Valid(cars)
    ensures |es| == |cars.order|
    ensures forall i :: 0 <= i < |es| ==> es[i] == Standings.Entry(cars.order[i], cars.entries[cars.order[i]].dist)
    ensures forall e: Standings.Entry :: e in es <==> e.car in cars.entries && e.dist == cars.entries[e.car].dist
  {
    var items := Ordered.Items(cars);
    var es := seq(|items|, i requires 0 <= i < |items| => Standings.Entry(items[i].0, items[i].1.dist));
    assert forall e: Standings.Entry :: e.car in cars.entries && e.dist == cars.entries[e.car].dist ==> e in es by {
      forall e: Standings.Entry | e.car in cars.entries && e.dist == cars.entries[e.car].dist
        ensures e in es
      {
        var i :| 0 <= i < |cars.order| && cars.order[i] == e.car;
        assert es[i] == e;
      }
    }
    es
  }

  /** A sequence of distinct indices below `n` has at most `n` elements. */
  lemma {:induction false} DistinctBelow(s: seq<nat>, n: nat)
    requires forall i, j :: 0 <= i < j < |s| ==> s[i] != s[j]
    requires forall i :: 0 <= i < |s| ==> s[i] < n
    ensures |s| <= n
    decreases n
  {
    if |s| > 0 {
      assert s[0] < n;
      var rest := RemoveValue(s, n - 1);
      assert forall i :: 0 <= i < |rest| ==> rest[i] in rest;
      DistinctBelow(rest, n - 1);
    }
  }

  /** `s` without the value `v`, which it holds at most once. */
  function RemoveValue(s: seq<nat>, v: nat): (r: seq<nat>)
    requires forall i, j :: 0 <= i < j < |s| ==> s[i] != s[j]
    ensures |r| >= |s| - 1
    ensures forall x :: x in r <==> x in s && x != v
    ensures forall i, j :: 0 <= i < j < |r| ==> r[i] != r[j]
  {
    if |s| == 0 then []
    else if s[0] == v then
      assert forall x :: x in s[1..] ==> x != v by {
        forall x | x in s[1..] ensures x != v {
          var k :| 0 <= k < |s[1..]| && s[1..][k] == x;
          assert s[k + 1] == x;
        }
      }
      s[1..]
    else
      var rest := RemoveValue(s[1..], v);
      assert s[0] !in rest;
      assert forall x :: x in s <==> x == s[0] || x in s[1..];
      [s[0]] + rest
  }

  /** The live grid: the cars that have covered more than 1 metre, furthest
      first, ties in table order, ranked 1, 2, 3, ... It never holds more
      than 22 rows, so the drawing loop's cut-off (`y > 700`, after 25 rows)
      never drops one. */
  function Grid(s: State): (rows: seq<Standings.Row>)
    requires Valid(s)
    ensures |rows| <= CarCount
    ensures forall k :: 0 <= k < |rows| ==> rows[k].rank == k + 1
    ensures Standings.Descending(Standings.Entries(rows))
    ensures multiset(Standings.Entries(rows)) == multiset(Standings.Active(TableEntries(s.cars)))
    ensures forall e: Standings.Entry :: e in Standings.Entries(rows) <==>
      e.car in s.cars.entries && e.dist == s.cars.entries[e.car].dist && e.dist > Standings.StartedBeyond
  {
    var es := TableEntries(s.cars);
    var rows := Standings.Classify(es);
    forall e: Standings.Entry | true
      ensures e in Standings.Entries(rows) <==> e in es && e.dist > Standings.StartedBeyond
    {
      Standings.ClassifyMembers(es, e);
    }
    DistinctBelow(s.cars.order, CarCount);
    assert |Standings.Active(es)| <= |es|;
    assert |rows| == |Standings.Active(es)| by {
      assert |multiset(Standings.Entries(rows))| == |multiset(Standings.Active(es))|;
    }
    rows
  }

  /** No car is listed twice. */
  lemma GridDistinct(s: State)
    requires Valid(s)
    ensures var rows := Grid(s);
      forall a, b :: 0 <= a < b < |rows| ==> rows[a].entry.car != rows[b].entry.car
  {
    var es := TableEntries(s.cars);
    var entries := Standings.Entries(Grid(s));
    assert forall i, j :: 0 <= i < j < |es| ==> es[i] != es[j] by {
      forall i, j | 0 <= i < j < |es|
        ensures es[i] != es[j]
      {
        assert es[i].car == s.cars.order[i] && es[j].car == s.cars.order[j];
      }
    }
    Standings.DistinctCounts(es);
    forall a, b | 0 <= a < b < |entries|
      ensures entries[a].car != entries[b].car
    {
      if entries[a].car == entries[b].car {
        assert entries[a] in entries && entries[b] in entries;
        assert entries[a] == entries[b];
        Standings.TwiceCounted(entries, a, b);
        Standings.ActiveCounts(es, entries[a]);
        assert false;
      }
    }
  }

  /** Cars level on distance are listed in the order they entered the
      table (Python's sort is stable), not by car index. */
  lemma GridTies(s: State, d: real)
    requires Valid(s)
    ensures Standings.AtDistance(Standings.Entries(Grid(s)), d) == Standings.AtDistance(Standings.Active(TableEntries(s.cars)), d)
  {
    Standings.ClassifyKeepsTableOrder(TableEntries(s.cars), d);
  }
}
