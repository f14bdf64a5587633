/** The two ways a packet changes the car table, common to both dashboards.

    A Motion packet places cars: each slot with a non-zero x either creates
    the car (if the table does not hold it yet) or moves it. Lap Data and
    Participants packets revise cars: each slot whose car the table already
    holds gets the slot's values; a slot with no car in the table is
    ignored. The record type `C` is the dashboard's own car record. */
module Fleet {
  import opened Ordered
  import opened Packets

  /** What slot `j` with position `p` leaves in the table: nothing changes
      when x is zero; otherwise the car, created by `create` if it was new,
      is moved to `p`. */
  ghost predicate Placed<C>(before: Table<C>, after: Table<C>, j: nat, p: Position,
                            create: nat -> C, moved: (C, Position) -> C)
  {
    if p.x == 0.0 then SameAt(before, after, j)
    else j in after.entries && after.entries[j] == moved(if j in before.entries then before.entries[j] else create(j), p)
  }

  /** The slots from `i` on that create a car: non-zero x and not yet in
      the table, in increasing index order. */
  function Arrivals<C>(cars: Table<C>, ps: seq<Position>, i: nat): seq<nat>
    requires i <= |ps|
    decreases |ps| - i
  {
    if i == |ps| then []
    else (if ps[i].x != 0.0 && i !in cars.entries then [i] else []) + Arrivals(cars, ps, i + 1)
  }

  /** The arrivals are exactly the slots from `i` on with a non-zero x whose
      car the table lacks, each once, in increasing order. */
  lemma ArrivalsExactly<C>(cars: Table<C>, ps: seq<Position>, i: nat)
    requires i <= |ps|
    ensures var r := Arrivals(cars, ps, i);
      && (forall k :: 0 <= k < |r| ==> i <= r[k] < |ps| && ps[r[k]].x != 0.0 && r[k] !in cars.entries)
      && (forall j :: i <= j < |ps| && ps[j].x != 0.0 && j !in cars.entries ==> j in r)
      && (forall a, b :: 0 <= a < b < |r| ==> r[a] < r[b])
  {
    ArrivalsQualify(cars, ps, i);
    ArrivalsComplete(cars, ps, i);
    ArrivalsIncreasing(cars, ps, i);
  }

  /** Slot `j` from `i` on creates a car. */
  predicate Qualifies<C>(cars: Table<C>, ps: seq<Position>, i: nat, j: nat)
  {
    i <= j < |ps| && ps[j].x != 0.0 && j !in cars.entries
  }

  lemma {:induction false} ArrivalsQualify<C>(cars: Table<C>, ps: seq<Position>, i: nat)
    requires i <= |ps|
    ensures forall k :: 0 <= k < |Arrivals(cars, ps, i)| ==> Qualifies(cars, ps, i, Arrivals(cars, ps, i)[k])
    decreases |ps| - i
  {
    if i < |ps| {
      ArrivalsQualify(cars, ps, i + 1);
      var rest := Arrivals(cars, ps, i + 1);
      var here: seq<nat> := if ps[i].x != 0.0 && i !in cars.entries then [i] else [];
      var r := here + rest;
      assert r == Arrivals(cars, ps, i);
      forall k | 0 <= k < |r|
        ensures Qualifies(cars, ps, i, r[k])
      {
        if k < |here| {
          assert here == [i] && r[k] == i;
        } else {
          var m := k - |here|;
          assert r[k] == rest[m];
          assert Qualifies(cars, ps, i + 1, rest[m]);
        }
      }
    }
  }

  lemma {:induction false} ArrivalsComplete<C>(cars: Table<C>, ps: seq<Position>, i: nat)
    requires i <= |ps|
    ensures forall j :: i <= j < |ps| && ps[j].x != 0.0 && j !in cars.entries ==> j in Arrivals(cars, ps, i)
    decreases |ps| - i
  {
    if i < |ps| {
      ArrivalsComplete(cars, ps, i + 1);
      var rest := Arrivals(cars, ps, i + 1);
      var here: seq<nat> := if ps[i].x != 0.0 && i !in cars.entries then [i] else [];
      assert here + rest == Arrivals(cars, ps, i);
      forall j | i <= j < |ps| && ps[j].x != 0.0 && j !in cars.entries
        ensures j in here + rest
      {
        if j > i {
          assert j in rest;
        } else {
          assert j in here;
        }
      }
    }
  }

  lemma {:induction false} ArrivalsIncreasing<C>(cars: Table<C>, ps: seq<Position>, i: nat)
    requires i <= |ps|
    ensures forall a, b :: 0 <= a < b < |Arrivals(cars, ps, i)| ==> Arrivals(cars, ps, i)[a] < Arrivals(cars, ps, i)[b]
    decreases |ps| - i
  {
    if i < |ps| {
      ArrivalsIncreasing(cars, ps, i + 1);
      ArrivalsQualify(cars, ps, i + 1);
      var rest := Arrivals(cars, ps, i + 1);
      var here: seq<nat> := if ps[i].x != 0.0 && i !in cars.entries then [i] else [];
      var r := here + rest;
      assert r == Arrivals(cars, ps, i);
      forall a, b | 0 <= a < b < |r|
        ensures r[a] < r[b]
      {
        var n := b - |here|;
        assert r[b] == rest[n];
        assert Qualifies(cars, ps, i + 1, rest[n]);
        if a >= |here| {
          assert r[a] == rest[a - |here|];
        } else {
          assert here == [i] && r[a] == i;
        }
      }
    }
  }

  /** Two tables that agree on which of the slots from `i` on are present
      have the same arrivals. */
  lemma {:induction false} ArrivalsAgree<C>(a: Table<C>, b: Table<C>, ps: seq<Position>, i: nat)
    requires i <= |ps|
    requires forall j :: i <= j < |ps| ==> (j in a.entries <==> j in b.entries)
    ensures Arrivals(a, ps, i) == Arrivals(b, ps, i)
    decreases |ps| - i
  {
    if i < |ps| {
      ArrivalsAgree(a, b, ps, i + 1);
    }
  }

  /** The Motion loop over slots `i ..`: slot `j` places car `j`. */
  function Place<C>(cars: Table<C>, ps: seq<Position>, create: nat -> C, moved: (C, Position) -> C, i: nat): (r: Table<C>)
    requires i <= |ps|
    ensures forall j :: i <= j < |ps| ==> Placed(cars, r, j, ps[j], create, moved)
    ensures forall k: nat :: !(i <= k < |ps|) ==> SameAt(cars, r, k)
    ensures Ordered.Valid(cars) ==> Ordered.Valid(r)
    decreases |ps| - i
  {
    if i == |ps| then cars
    else if ps[i].x == 0.0 then
      Place(cars, ps, create, moved, i + 1)
    else
      var next := Put(cars, i, moved(if i in cars.entries then cars.entries[i] else create(i), ps[i]));
      PutLeavesOthers(cars, next, i, ps);
      var r := Place(next, ps, create, moved, i + 1);
      PlacedCarried(cars, next, r, ps, create, moved, i);
      r
  }

  /** The cars a Motion packet creates join the iteration order at its end,
      in index order; the cars already there keep their places. */
  lemma {:induction false} PlaceOrder<C>(cars: Table<C>, ps: seq<Position>, create: nat -> C, moved: (C, Position) -> C, i: nat)
    requires i <= |ps|
    ensures Place(cars, ps, create, moved, i).order == cars.order + Arrivals(cars, ps, i)
    decreases |ps| - i
  {
    if i < |ps| {
      if ps[i].x == 0.0 {
        PlaceOrder(cars, ps, create, moved, i + 1);
      } else {
        var next := Put(cars, i, moved(if i in cars.entries then cars.entries[i] else create(i), ps[i]));
        PlaceOrder(next, ps, create, moved, i + 1);
        ArrivalsAfterPut(cars, ps, i, next.entries[i]);
      }
    }
  }

  /** Putting slot `i` moves it, if new, from the arrivals to the order. */
  lemma ArrivalsAfterPut<C>(cars: Table<C>, ps: seq<Position>, i: nat, v: C)
    requires i < |ps| && ps[i].x != 0.0
    ensures Put(cars, i, v).order + Arrivals(Put(cars, i, v), ps, i + 1) == cars.order + Arrivals(cars, ps, i)
  {
    var next := Put(cars, i, v);
    var here: seq<nat> := if i !in cars.entries then [i] else [];
    assert Arrivals(cars, ps, i) == here + Arrivals(cars, ps, i + 1);
    assert next.order == cars.order + here;
    PutKeysElsewhere(cars, next, i, ps);
    ArrivalsAgree(cars, next, ps, i + 1);
  }

  /** What the later slots did to `next` they did to `cars` too, since the
      two agree there; slot `i` itself keeps what `next` holds. */
  lemma PlacedCarried<C>(cars: Table<C>, next: Table<C>, r: Table<C>, ps: seq<Position>,
                         create: nat -> C, moved: (C, Position) -> C, i: nat)
    requires i < |ps| && ps[i].x != 0.0
    requires i in next.entries && next.entries[i] == moved(if i in cars.entries then cars.entries[i] else create(i), ps[i])
    requires forall j: nat :: j != i ==> SameAt(cars, next, j)
    requires forall j :: i < j < |ps| ==> Placed(next, r, j, ps[j], create, moved)
    requires forall k: nat :: !(i < k < |ps|) ==> SameAt(next, r, k)
    ensures forall j :: i <= j < |ps| ==> Placed(cars, r, j, ps[j], create, moved)
    ensures forall k: nat :: !(i <= k < |ps|) ==> SameAt(cars, r, k)
  {
    forall k: nat | !(i <= k < |ps|)
      ensures SameAt(cars, r, k)
    {
      assert SameAt(cars, next, k) && SameAt(next, r, k);
    }
    assert SameAt(next, r, i);
    assert Placed(cars, r, i, ps[i], create, moved);
    forall j | i < j < |ps|
      ensures Placed(cars, r, j, ps[j], create, moved)
    {
      assert SameAt(cars, next, j);
      assert Placed(next, r, j, ps[j], create, moved);
    }
  }

  /** Putting slot `i` neither changes the later slots nor their arrivals. */
  lemma PutLeavesOthers<C>(cars: Table<C>, next: Table<C>, i: nat, ps: seq<Position>)
    requires i < |ps| && next.entries.Keys == cars.entries.Keys + {i}
    requires forall k :: k != i && k in cars.entries ==> next.entries[k] == cars.entries[k]
    ensures forall j: nat :: j != i ==> SameAt(cars, next, j)
    ensures Arrivals(next, ps, i + 1) == Arrivals(cars, ps, i + 1)
  {
    PutSameElsewhere(cars, next, i);
    PutKeysElsewhere(cars, next, i, ps);
    ArrivalsAgree(cars, next, ps, i + 1);
  }

  lemma PutSameElsewhere<C>(cars: Table<C>, next: Table<C>, i: nat)
    requires next.entries.Keys == cars.entries.Keys + {i}
    requires forall k :: k != i && k in cars.entries ==> next.entries[k] == cars.entries[k]
    ensures forall j: nat :: j != i ==> SameAt(cars, next, j)
  {
    forall j: nat | j != i
      ensures SameAt(cars, next, j)
    {
      assert j in next.entries.Keys <==> j in cars.entries.Keys;
    }
  }

  lemma PutKeysElsewhere<C>(cars: Table<C>, next: Table<C>, i: nat, ps: seq<Position>)
    requires next.entries.Keys == cars.entries.Keys + {i}
    ensures forall j :: i + 1 <= j < |ps| ==> (j in cars.entries <==> j in next.entries)
  {
    forall j | i + 1 <= j < |ps|
      ensures j in cars.entries <==> j in next.entries
    {
      assert j in next.entries.Keys <==> j in cars.entries.Keys;
    }
  }

  /** A Motion packet never removes a car, and creates none outside its
      slots. */
  lemma PlaceKeepsCars<C>(cars: Table<C>, ps: seq<Position>, create: nat -> C, moved: (C, Position) -> C)
    ensures cars.entries.Keys <= Place(cars, ps, create, moved, 0).entries.Keys
    ensures forall k :: k in Place(cars, ps, create, moved, 0).entries ==> k in cars.entries || k < |ps|
  {
    var r := Place(cars, ps, create, moved, 0);
    forall k | k in cars.entries
      ensures k in r.entries
    {
      if k < |ps| {
        assert Placed(cars, r, k, ps[k], create, moved);
      } else {
        assert SameAt(cars, r, k);
      }
    }
    forall k | k in r.entries && k >= |ps|
      ensures k in cars.entries
    {
      assert SameAt(cars, r, k);
    }
  }

  /** Moving car `k` (as the first placement finds it) to its position a
      second time leaves it where the first move put it. */
  ghost predicate Settles<C>(cars: Table<C>, ps: seq<Position>, create: nat -> C, moved: (C, Position) -> C, k: nat)
    requires k < |ps|
  {
    var first := if k in cars.entries then cars.entries[k] else create(k);
    moved(moved(first, ps[k]), ps[k]) == moved(first, ps[k])
  }

  /** Placing the same positions a second time changes nothing, provided
      moving a car twice to one position is the same as moving it once. */
  lemma PlaceTwice<C>(cars: Table<C>, ps: seq<Position>, create: nat -> C, moved: (C, Position) -> C)
    requires forall k :: 0 <= k < |ps| ==> Settles(cars, ps, create, moved, k)
    ensures var once := Place(cars, ps, create, moved, 0);
      Place(once, ps, create, moved, 0) == once
  {
    var once := Place(cars, ps, create, moved, 0);
    var twice := Place(once, ps, create, moved, 0);
    NoSecondArrivals(cars, ps, create, moved);
    PlaceOrder(once, ps, create, moved, 0);
    assert twice.order == once.order;
    SameEntriesTwice(cars, ps, create, moved);
  }

  /** After a placement every slot with a non-zero x holds a car, so
      placing again creates none. */
  lemma NoSecondArrivals<C>(cars: Table<C>, ps: seq<Position>, create: nat -> C, moved: (C, Position) -> C)
    ensures Arrivals(Place(cars, ps, create, moved, 0), ps, 0) == []
  {
    var once := Place(cars, ps, create, moved, 0);
    forall j | 0 <= j < |ps| && ps[j].x != 0.0
      ensures j in once.entries
    {
      assert Placed(cars, once, j, ps[j], create, moved);
    }
    ArrivalsNone(once, ps, 0);
  }

  lemma {:induction false} ArrivalsNone<C>(cars: Table<C>, ps: seq<Position>, i: nat)
    requires i <= |ps|
    requires forall j :: i <= j < |ps| && ps[j].x != 0.0 ==> j in cars.entries
    ensures Arrivals(cars, ps, i) == []
    decreases |ps| - i
  {
    if i < |ps| {
      ArrivalsNone(cars, ps, i + 1);
    }
  }

  lemma SameEntriesTwice<C>(cars: Table<C>, ps: seq<Position>, create: nat -> C, moved: (C, Position) -> C)
    requires forall k :: 0 <= k < |ps| ==> Settles(cars, ps, create, moved, k)
    ensures var once := Place(cars, ps, create, moved, 0);
      Place(once, ps, create, moved, 0).entries == once.entries
  {
    var once := Place(cars, ps, create, moved, 0);
    var twice := Place(once, ps, create, moved, 0);
    forall k: nat
      ensures (k in twice.entries <==> k in once.entries) && (k in once.entries ==> twice.entries[k] == once.entries[k])
    {
      SameAtTwice(cars, ps, create, moved, k);
    }
  }

  lemma SameAtTwice<C>(cars: Table<C>, ps: seq<Position>, create: nat -> C, moved: (C, Position) -> C, k: nat)
    requires forall k :: 0 <= k < |ps| ==> Settles(cars, ps, create, moved, k)
    ensures var once := Place(cars, ps, create, moved, 0);
      SameAt(once, Place(once, ps, create, moved, 0), k)
  {
    var once := Place(cars, ps, create, moved, 0);
    var twice := Place(once, ps, create, moved, 0);
    if k < |ps| {
      assert Settles(cars, ps, create, moved, k);
      PlacedTwice(cars, once, twice, k, ps[k], create, moved);
    }
  }

  /** A slot placed twice with the same position ends where it was after
      the first time. */
  lemma PlacedTwice<C>(a: Table<C>, b: Table<C>, c: Table<C>, k: nat, p: Position, create: nat -> C, moved: (C, Position) -> C)
    requires var first := if k in a.entries then a.entries[k] else create(k); moved(moved(first, p), p) == moved(first, p)
    requires Placed(a, b, k, p, create, moved) && Placed(b, c, k, p, create, moved)
    ensures SameAt(b, c, k)
  {
    if p.x != 0.0 {
      var first := if k in a.entries then a.entries[k] else create(k);
      assert k in b.entries && b.entries[k] == moved(first, p);
      assert c.entries[k] == moved(b.entries[k], p);
    }
  }

  /** The Lap Data and Participants loops: the car in slot `j < |news|`, if
      the table holds it, becomes `revise(car, news[j])`. */
  function Revise<C, U>(cars: Table<C>, news: seq<U>, revise: (C, U) -> C, i: nat): (r: Table<C>)
    requires i <= |news|
    ensures r.order == cars.order
    ensures r.entries.Keys == cars.entries.Keys
    ensures Ordered.Valid(cars) ==> Ordered.Valid(r)
    ensures forall j :: j in cars.entries ==> r.entries[j] == if i <= j < |news| then revise(cars.entries[j], news[j]) else cars.entries[j]
    decreases |news| - i
  {
    if i == |news| then cars
    else
      var next := if i in cars.entries then Put(cars, i, revise(cars.entries[i], news[i])) else cars;
      Revise(next, news, revise, i + 1)
  }
}
