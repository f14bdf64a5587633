/** The live classification: which cars are ranked, in what order, and the
    time gap each one is shown behind the car ahead.

    The filter and the order are those of legacy/dashboard_v1.py: cars whose
    distance exceeds 1 metre, sorted by distance, largest first, with
    Python's stable `sorted(..., reverse=True)`, so cars at equal distance
    keep the order in which they entered the car table. The gap label is
    that of src/main.py: the leader reads "Leader", every other car the
    distance to the car ahead divided by a single reference speed. */
module Standings {

  /** One car of the table: its index and its distance along the lap. */
  datatype Entry = Entry(car: nat, dist: real)

  /** A car is classified once it has covered more than this many metres. */
  const StartedBeyond := 1.0

  /** The cars that have started, in table order (`dist > 1`). */
  function Active(es: seq<Entry>): (r: seq<Entry>)
    ensures |r| <= |es|
    ensures forall k :: 0 <= k < |r| ==> r[k].dist > StartedBeyond
  {
    if |es| == 0 then []
    else (if es[0].dist > StartedBeyond then [es[0]] else []) + Active(es[1..])
  }

  /** The filter keeps every started entry as often as it occurs, and no
      other. */
  lemma {:induction false} ActiveCounts(es: seq<Entry>, e: Entry)
    ensures multiset(Active(es))[e] == if e.dist > StartedBeyond then multiset(es)[e] else 0
  {
    if |es| > 0 {
      assert es == [es[0]] + es[1..];
      ActiveCounts(es[1..], e);
    }
  }

  /** Distances never increase along the sequence. */
  ghost predicate Descending(s: seq<Entry>)
  {
    forall i, j :: 0 <= i < j < |s| ==> s[i].dist >= s[j].dist
  }

  /** Places `e` before the first entry it is not behind, so that `e` comes
      ahead of every entry at the same distance. */
  function Insert(e: Entry, s: seq<Entry>): (r: seq<Entry>)
    requires Descending(s)
    ensures Descending(r)
    ensures |r| == |s| + 1 && (r[0] == e || (|s| > 0 && r[0] == s[0]))
  {
    if |s| == 0 then [e]
    else if e.dist >= s[0].dist then
      ConsDescending(e, s);
      [e] + s
    else
      assert s == [s[0]] + s[1..];
      DescendingTail(s);
      var rest := Insert(e, s[1..]);
      ConsDescending(s[0], rest);
      [s[0]] + rest
  }

  lemma DescendingTail(s: seq<Entry>)
    requires Descending(s) && |s| > 0
    ensures Descending(s[1..])
    ensures |s| > 1 ==> s[0].dist >= s[1].dist
  {
    forall i, j | 0 <= i < j < |s[1..]|
      ensures s[1..][i].dist >= s[1..][j].dist
    {
      assert s[1..][i] == s[i + 1] && s[1..][j] == s[j + 1];
    }
  }

  /** An entry at least as far as the head of a sorted list can go in
      front of it. */
  lemma ConsDescending(x: Entry, t: seq<Entry>)
    requires Descending(t)
    requires |t| > 0 ==> x.dist >= t[0].dist
    ensures Descending([x] + t)
  {
    var r := [x] + t;
    forall i, j | 0 <= i < j < |r|
      ensures r[i].dist >= r[j].dist
    {
      assert r[j] == t[j - 1];
      if i > 0 {
        assert r[i] == t[i - 1];
      } else {
        assert t[0].dist >= t[j - 1].dist;
      }
    }
  }

  /** Insertion adds exactly the one entry. */
  lemma {:induction false} InsertPermutes(e: Entry, s: seq<Entry>)
    requires Descending(s)
    ensures multiset(Insert(e, s)) == multiset(s) + multiset{e}
  {
    if |s| > 0 && e.dist < s[0].dist {
      assert s == [s[0]] + s[1..];
      DescendingTail(s);
      InsertPermutes(e, s[1..]);
    }
  }

  /** `sorted(es, key=dist, reverse=True)`: an insertion sort from the back,
      so an earlier entry lands ahead of a later one at the same distance. */
  function Sort(es: seq<Entry>): (r: seq<Entry>)
    ensures Descending(r)
    ensures |r| == |es|
  {
    if |es| == 0 then []
    else Insert(es[0], Sort(es[1..]))
  }

  /** The sort is a permutation of its input. */
  lemma {:induction false} SortPermutes(es: seq<Entry>)
    ensures multiset(Sort(es)) == multiset(es)
  {
    if |es| > 0 {
      assert es == [es[0]] + es[1..];
      SortPermutes(es[1..]);
      InsertPermutes(es[0], Sort(es[1..]));
    }
  }

  /** The entries at distance exactly `d`, in order. */
  function AtDistance(s: seq<Entry>, d: real): seq<Entry>
  {
    if |s| == 0 then [] else (if s[0].dist == d then [s[0]] else []) + AtDistance(s[1..], d)
  }

  lemma {:induction false} InsertAtDistance(e: Entry, s: seq<Entry>, d: real)
    requires Descending(s)
    ensures AtDistance(Insert(e, s), d) == if e.dist == d then [e] + AtDistance(s, d) else AtDistance(s, d)
  {
    if |s| == 0 {
    } else if e.dist >= s[0].dist {
      assert ([e] + s)[1..] == s;
    } else {
      var r := [s[0]] + Insert(e, s[1..]);
      assert r[1..] == Insert(e, s[1..]);
      InsertAtDistance(e, s[1..], d);
    }
  }

  /** The sort is stable: among entries at any one distance, the order is
      the input order. */
  lemma {:induction false} SortStable(es: seq<Entry>, d: real)
    ensures AtDistance(Sort(es), d) == AtDistance(es, d)
  {
    if |es| > 0 {
      SortStable(es[1..], d);
      InsertAtDistance(es[0], Sort(es[1..]), d);
    }
  }

  /** A classified car: its 1-based position and its entry. */
  datatype Row = Row(rank: nat, entry: Entry)

  function Entries(rows: seq<Row>): (r: seq<Entry>)
    ensures |r| == |rows| && forall k :: 0 <= k < |rows| ==> r[k] == rows[k].entry
  {
    seq(|rows|, k requires 0 <= k < |rows| => rows[k].entry)
  }

  /** The classification drawn by the legacy dashboard: started cars,
      furthest first, ranked 1, 2, 3, ... */
  function Classify(items: seq<Entry>): (rows: seq<Row>)
    ensures forall k :: 0 <= k < |rows| ==> rows[k].rank == k + 1
    ensures Descending(Entries(rows))
    ensures multiset(Entries(rows)) == multiset(Active(items))
  {
    var sorted := Sort(Active(items));
    SortPermutes(Active(items));
    EntriesOfRanked(sorted);
    Ranked(sorted)
  }

  /** Rows numbered 1, 2, 3, ... in the order given. */
  function Ranked(sorted: seq<Entry>): (rows: seq<Row>)
    ensures |rows| == |sorted|
    ensures forall k :: 0 <= k < |rows| ==> rows[k].rank == k + 1 && rows[k].entry == sorted[k]
  {
    seq(|sorted|, k requires 0 <= k < |sorted| => Row(k + 1, sorted[k]))
  }

  lemma EntriesOfRanked(sorted: seq<Entry>)
    ensures Entries(Ranked(sorted)) == sorted
  {
    var es := Entries(Ranked(sorted));
    assert |es| == |sorted|;
    forall k | 0 <= k < |es|
      ensures es[k] == sorted[k]
    {
    }
  }

  lemma ClassifyEntries(items: seq<Entry>)
    ensures Entries(Classify(items)) == Sort(Active(items))
  {
  }

  /** Exactly the started cars of the table are classified. */
  lemma ClassifyMembers(items: seq<Entry>, e: Entry)
    ensures e in Entries(Classify(items)) <==> e in items && e.dist > StartedBeyond
  {
    var r := Entries(Classify(items));
    ActiveCounts(items, e);
    assert e in r <==> multiset(r)[e] > 0;
    assert e in items <==> multiset(items)[e] > 0;
  }

  /** Ties are ranked in table order: for each distance, the classified
      cars at that distance are the started cars at that distance in the
      order the table lists them. */
  lemma ClassifyKeepsTableOrder(items: seq<Entry>, d: real)
    ensures AtDistance(Entries(Classify(items)), d) == AtDistance(Active(items), d)
  {
    ClassifyEntries(items);
    SortStable(Active(items), d);
  }

  /** When every car has started, none is filtered out. */
  lemma {:induction false} ActiveWhenAllStarted(es: seq<Entry>)
    requires forall i :: 0 <= i < |es| ==> es[i].dist > StartedBeyond
    ensures Active(es) == es
  {
    if |es| > 0 {
      ActiveWhenAllStarted(es[1..]);
      assert es == [es[0]] + es[1..];
    }
  }

  /** A table already in order is left as it is. */
  lemma {:induction false} SortOfDescending(es: seq<Entry>)
    requires Descending(es)
    ensures Sort(es) == es
  {
    if |es| > 0 {
      SortOfDescending(es[1..]);
      assert es == [es[0]] + es[1..];
    }
  }

  /** Two cars level on distance and a third behind them, all started,
      are classified in table order: A, B at 300 m and C at 150 m give
      A, B, C. */
  lemma TieExample(a: Entry, b: Entry, c: Entry)
    requires a.dist == b.dist > c.dist > StartedBeyond
    ensures Entries(Classify([a, b, c])) == [a, b, c]
  {
    ClassifyEntries([a, b, c]);
    AllStartedThree(a, b, c);
    SortedThree(a, b, c);
  }

  lemma AllStartedThree(a: Entry, b: Entry, c: Entry)
    requires a.dist > StartedBeyond && b.dist > StartedBeyond && c.dist > StartedBeyond
    ensures Active([a, b, c]) == [a, b, c]
  {
    ActiveWhenAllStarted([a, b, c]);
  }

  lemma SortedThree(a: Entry, b: Entry, c: Entry)
    requires a.dist >= b.dist >= c.dist
    ensures Sort([a, b, c]) == [a, b, c]
  {
    ConsDescending(c, []);
    ConsDescending(b, [c]);
    ConsDescending(a, [b, c]);
    assert [a] + [b, c] == [a, b, c] && [b] + [c] == [b, c] && [c] + [] == [c];
    SortOfDescending([a, b, c]);
  }

  /** A car at exactly 1 metre has not started and is left out. */
  lemma ThresholdExample(a: Entry, b: Entry, c: Entry)
    requires a.dist == b.dist > StartedBeyond && c.dist == StartedBeyond
    ensures Entries(Classify([a, b, c])) == [a, b]
  {
    ClassifyEntries([a, b, c]);
    LastNotStarted(a, b, c);
    SortedTwo(a, b);
  }

  lemma LastNotStarted(a: Entry, b: Entry, c: Entry)
    requires a.dist > StartedBeyond && b.dist > StartedBeyond && c.dist <= StartedBeyond
    ensures Active([a, b, c]) == [a, b]
  {
    assert Active([c]) == [] by {
      assert [c][1..] == [];
    }
    assert Active([b, c]) == [b] by {
      assert [b, c][1..] == [c];
    }
    assert [a, b, c][1..] == [b, c];
  }

  lemma SortedTwo(a: Entry, b: Entry)
    requires a.dist >= b.dist
    ensures Sort([a, b]) == [a, b]
  {
    SortOfDescending([a, b]);
  }

  // ---------------------------------------------------------------------
  // Gap labels (src/main.py)
  // ---------------------------------------------------------------------

  /** The gap text of one row: "Leader", or "+<seconds>s". */
  datatype Gap = Leader | Behind(seconds: real)

  /** The gap of every row of an already sorted classification, given the
      reference speed in metres per second: the leader is "Leader", every
      other row the distance to the row ahead over that speed. */
  function GapLabels(sorted: seq<Entry>, speedMs: real): (r: seq<Gap>)
    requires speedMs > 0.0
    ensures |r| == |sorted|
    ensures forall k :: 0 <= k < |r| ==> (r[k] == Leader <==> k == 0)
  {
    seq(|sorted|, k requires 0 <= k < |sorted| =>
      if k == 0 then Leader else Behind((sorted[k - 1].dist - sorted[k].dist) / speedMs))
  }

  /** On a classification sorted furthest first, no gap is negative. */
  lemma GapsNonNegative(sorted: seq<Entry>, speedMs: real)
    requires speedMs > 0.0 && Descending(sorted)
    ensures forall k :: 0 < k < |sorted| ==> GapLabels(sorted, speedMs)[k].seconds >= 0.0
  {
    forall k | 0 < k < |sorted|
      ensures GapLabels(sorted, speedMs)[k].seconds >= 0.0
    {
      GapAt(sorted, speedMs, k);
      assert sorted[k - 1].dist >= sorted[k].dist;
      NonNegativeOver(sorted[k - 1].dist - sorted[k].dist, speedMs);
    }
  }

  /** Row k > 0 shows the distance to the row ahead over the speed. */
  lemma GapAt(sorted: seq<Entry>, speedMs: real, k: nat)
    requires speedMs > 0.0 && 0 < k < |sorted|
    ensures GapLabels(sorted, speedMs)[k] == Behind((sorted[k - 1].dist - sorted[k].dist) / speedMs)
  {
  }

  lemma NonNegativeOver(x: real, v: real)
    requires x >= 0.0 && v > 0.0
    ensures x / v >= 0.0
  {
    assert (x / v) * v == x;
  }

  /** A value found at two positions is counted at least twice. */
  lemma TwiceCounted(s: seq<Entry>, a: nat, b: nat)
    requires a < b < |s| && s[a] == s[b]
    ensures multiset(s)[s[a]] >= 2
  {
    assert s == s[..b] + s[b..];
    assert s[a] == s[..b][a];
    assert s[b] == s[b..][0];
  }

  /** A sequence without repeats counts each value at most once. */
  lemma {:induction false} DistinctCounts(s: seq<Entry>)
    requires forall i, j :: 0 <= i < j < |s| ==> s[i] != s[j]
    ensures forall e :: multiset(s)[e] <= 1
  {
    if |s| > 0 {
      var t := s[1..];
      DistinctCounts(t);
      assert s == [s[0]] + t;
      assert s[0] !in t by {
        forall k | 0 <= k < |t|
          ensures t[k] != s[0]
        {
          assert t[k] == s[k + 1];
        }
      }
    }
  }

  /** Sum of the gaps shown for ranks 2 .. k+1. */
  function GapTotal(gaps: seq<Gap>, k: nat): real
    requires k < |gaps|
  {
    if k == 0 then 0.0
    else GapTotal(gaps, k - 1) + (match gaps[k] case Leader => 0.0 case Behind(s) => s)
  }

  /** The gaps add up: the gaps down to any row sum to that row's distance
      behind the leader over the reference speed. */
  lemma {:induction false} GapsAddUp(sorted: seq<Entry>, speedMs: real, k: nat)
    requires speedMs > 0.0 && k < |sorted|
    ensures GapTotal(GapLabels(sorted, speedMs), k) == (sorted[0].dist - sorted[k].dist) / speedMs
  {
    var g := GapLabels(sorted, speedMs);
    if k > 0 {
      GapsAddUp(sorted, speedMs, k - 1);
      var x, y, z := sorted[0].dist - sorted[k - 1].dist, sorted[k - 1].dist - sorted[k].dist, sorted[0].dist - sorted[k].dist;
      assert g[k] == Behind(y / speedMs);
      assert GapTotal(g, k) == x / speedMs + y / speedMs;
      DivideSum(x, y, z, speedMs);
    } else {
      ZeroOver(sorted[0].dist - sorted[k].dist, speedMs);
    }
  }

  lemma ZeroOver(x: real, v: real)
    requires x == 0.0 && v > 0.0
    ensures x / v == 0.0
  {
  }

  lemma DivideSum(x: real, y: real, z: real, v: real)
    requires v > 0.0 && z == x + y
    ensures x / v + y / v == z / v
  {
    var q := x / v;
    var r := y / v;
    assert q * v == x && r * v == y;
    assert (q + r) * v == z;
  }

  /** Every gap of the legacy classification, read with any positive
      reference speed, is non-negative. */
  lemma ClassifiedGapsNonNegative(items: seq<Entry>, speedMs: real)
    requires speedMs > 0.0
    ensures var sorted := Entries(Classify(items));
      forall k :: 0 < k < |sorted| ==> GapLabels(sorted, speedMs)[k].seconds >= 0.0
  {
    GapsNonNegative(Entries(Classify(items)), speedMs);
  }

  /** At 50 km/h (125/9 m/s), a car 50 metres behind the leader is shown
      3.6 seconds behind. */
  lemma GapExample()
    ensures GapLabels([Entry(0, 1000.0), Entry(1, 950.0)], 125.0 / 9.0)[1] == Behind(3.6)
  {
  }
}
