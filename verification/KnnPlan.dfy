/**
 The nearest-neighbour plan (engine/query/operators.py, planner.py): ordering by distance
 and cutting off a prefix gives the same rows whether the leaf of the plan scans the table
 or asks the spatial index first.
 */
module KnnPlan {
  import opened Common
  import opened Sequences
  import opened RTreeNodes
  import opened Knn
  import opened SpatialScan

  datatype Row = Row(location: Option<Point>, payload: int)

  /** A stored row: where it is and what it says. */
  datatype Tuple = Tuple(rid: RID, row: Row)

  function Map<T, U>(s: seq<T>, f: T -> U): seq<U> {
    if s == [] then [] else Map(s[..|s| - 1], f) + [f(s[|s| - 1])]
  }

  lemma MapAppend<T, U>(s: seq<T>, x: T, f: T -> U)
    ensures Map(s + [x], f) == Map(s, f) + [f(x)]
  {
    assert (s + [x])[..|s|] == s;
  }

  lemma {:induction false} MapAt<T, U>(s: seq<T>, f: T -> U)
    ensures |Map(s, f)| == |s| && forall i :: 0 <= i < |s| ==> Map(s, f)[i] == f(s[i])
  {
    if s != [] {
      MapAt(s[..|s| - 1], f);
    }
  }

  lemma {:induction false} MapWithout<T, U>(s: seq<T>, i: nat, f: T -> U)
    requires i < |s|
    ensures multiset(Map(s, f)) == multiset(Map(Without(s, i), f)) + multiset{f(s[i])}
  {
    hide Map;
    var front, last := s[..|s| - 1], s[|s| - 1];
    assert s == front + [last];
    MapAppend(front, last, f);
    if i == |s| - 1 {
      assert Without(s, i) == front;
    } else {
      MapWithout(front, i, f);
      assert Without(s, i) == Without(front, i) + [last];
      MapAppend(Without(front, i), last, f);
    }
  }

  lemma CancelOne<T>(a: multiset<T>, b: multiset<T>, x: T)
    requires a + multiset{x} == b + multiset{x}
    ensures a == b
  {
    assert (a + multiset{x}) - multiset{x} == a;
    assert (b + multiset{x}) - multiset{x} == b;
  }

  /** The image of a permutation is a permutation of the image. */
  lemma {:induction false} MapPermuted<T, U>(a: seq<T>, b: seq<T>, f: T -> U)
    requires multiset(a) == multiset(b)
    ensures multiset(Map(a, f)) == multiset(Map(b, f))
    decreases |a|
  {
    assert |multiset(a)| == |multiset(b)|;
    if a == [] {
      assert b == [];
    } else {
      hide Map, Without;
      assert a[0] in multiset(a);
      var i := PositionIn(b, a[0]);
      WithoutBag(a, 0);
      WithoutBag(b, i);
      CancelOne(multiset(Without(a, 0)), multiset(Without(b, i)), a[0]);
      MapPermuted(Without(a, 0), Without(b, i), f);
      MapWithout(a, 0, f);
      MapWithout(b, i, f);
    }
  }

  lemma PositionIn<T>(b: seq<T>, x: T) returns (i: nat)
    requires x in multiset(b)
    ensures i < |b| && b[i] == x
  {
    assert x in b;
    i :| 0 <= i < |b| && b[i] == x;
  }

  // ----- the operators above the leaf -----

  function DistanceOf(m: Metric, r: Row): real {
    if r.location.Some? then m.distance(r.location.value) else 0.0
  }

  /** The not-null filter: the comparison distance >= 0 is not true of an unknown distance. */
  predicate Known(m: Metric, r: Row) {
    r.location.Some? && DistanceOf(m, r) >= 0.0
  }

  function Kept(m: Metric, rows: seq<Row>): seq<Row> {
    if rows == [] then []
    else Kept(m, rows[..|rows| - 1]) + if Known(m, rows[|rows| - 1]) then [rows[|rows| - 1]] else []
  }

  function InsertRow(m: Metric, rows: seq<Row>, r: Row): seq<Row> {
    if rows == [] then [r]
    else if DistanceOf(m, r) < DistanceOf(m, rows[|rows| - 1]) then InsertRow(m, rows[..|rows| - 1], r) + [rows[|rows| - 1]]
    else rows + [r]
  }

  /** A stable sort by distance. */
  function SortRows(m: Metric, rows: seq<Row>): seq<Row> {
    if rows == [] then [] else InsertRow(m, SortRows(m, rows[..|rows| - 1]), rows[|rows| - 1])
  }

  predicate Ascending(m: Metric, rows: seq<Row>) {
    forall i, j :: 0 <= i < j < |rows| ==> DistanceOf(m, rows[i]) <= DistanceOf(m, rows[j])
  }

  lemma {:induction false} InsertRowAscends(m: Metric, rows: seq<Row>, r: Row)
    requires Ascending(m, rows)
    ensures Ascending(m, InsertRow(m, rows, r)) && multiset(InsertRow(m, rows, r)) == multiset(rows) + multiset{r}
  {
    if rows != [] && DistanceOf(m, r) < DistanceOf(m, rows[|rows| - 1]) {
      var front, last := rows[..|rows| - 1], rows[|rows| - 1];
      BagLast(rows);
      InsertRowAscends(m, front, r);
      var s := InsertRow(m, front, r);
      assert InsertRow(m, rows, r) == s + [last];
      assert forall i :: 0 <= i < |front| ==> DistanceOf(m, front[i]) <= DistanceOf(m, last);
      hide InsertRow, DistanceOf;
      forall i | 0 <= i < |s|
        ensures DistanceOf(m, s[i]) <= DistanceOf(m, last)
      {
        assert s[i] in multiset(front) + multiset{r};
      }
    }
  }

  lemma {:induction false} SortRowsSorts(m: Metric, rows: seq<Row>)
    ensures Ascending(m, SortRows(m, rows)) && multiset(SortRows(m, rows)) == multiset(rows)
  {
    if rows != [] {
      SortRowsSorts(m, rows[..|rows| - 1]);
      InsertRowAscends(m, SortRows(m, rows[..|rows| - 1]), rows[|rows| - 1]);
      BagLast(rows);
    }
  }

  /** The rows at one distance, in order. */
  function AtDistance(m: Metric, rows: seq<Row>, d: real): seq<Row> {
    if rows == [] then []
    else AtDistance(m, rows[..|rows| - 1], d) + if DistanceOf(m, rows[|rows| - 1]) == d then [rows[|rows| - 1]] else []
  }

  lemma {:induction false} InsertRowStable(m: Metric, rows: seq<Row>, r: Row, d: real)
    requires Ascending(m, rows)
    ensures AtDistance(m, InsertRow(m, rows, r), d) == AtDistance(m, rows, d) + if DistanceOf(m, r) == d then [r] else []
  {
    if rows != [] && DistanceOf(m, r) < DistanceOf(m, rows[|rows| - 1]) {
      var front, last := rows[..|rows| - 1], rows[|rows| - 1];
      InsertRowStable(m, front, r, d);
      assert (InsertRow(m, front, r) + [last])[..|InsertRow(m, front, r)|] == InsertRow(m, front, r);
      if DistanceOf(m, last) == d {
        assert DistanceOf(m, r) != d;
      }
    } else {
      assert (rows + [r])[..|rows|] == rows;
    }
  }

  /** Rows at the same distance stay in the order they came in. */
  lemma {:induction false} SortRowsStable(m: Metric, rows: seq<Row>, d: real)
    ensures AtDistance(m, SortRows(m, rows), d) == AtDistance(m, rows, d)
  {
    if rows != [] {
      SortRowsSorts(m, rows[..|rows| - 1]);
      SortRowsStable(m, rows[..|rows| - 1], d);
      InsertRowStable(m, SortRows(m, rows[..|rows| - 1]), rows[|rows| - 1], d);
    }
  }

  function Cut(rows: seq<Row>, offset: nat, limit: nat): seq<Row> {
    var from := if offset < |rows| then offset else |rows|;
    var to := if offset + limit < |rows| then offset + limit else |rows|;
    rows[from..to]
  }

  /** What the plan above the leaf makes of the rows of the leaf. */
  function Answer(m: Metric, rows: seq<Row>, limit: nat, offset: nat): seq<Row> {
    Cut(SortRows(m, Kept(m, rows)), offset, limit)
  }

  /**
   The places of the rows with a known distance, nearest first and at equal distance in the order
   of the input.
   */
  ghost predicate Ranked(rows: seq<Row>, m: Metric, from: seq<nat>) {
    && (forall i: nat :: i in from <==> i < |rows| && rows[i].location.Some? && m.distance(rows[i].location.value) >= 0.0)
    && (forall i, j :: 0 <= i < j < |from| ==> RankedBefore(rows, m, from[i], from[j]))
  }

  ghost predicate RankedBefore(rows: seq<Row>, m: Metric, a: nat, b: nat) {
    && a < |rows| && b < |rows| && rows[a].location.Some? && rows[b].location.Some?
    && (m.distance(rows[a].location.value) < m.distance(rows[b].location.value)
        || (m.distance(rows[a].location.value) == m.distance(rows[b].location.value) && a < b))
  }

  /** The page of a ranking: the rows from offset on, at most limit of them. */
  ghost predicate PageOf(rows: seq<Row>, from: seq<nat>, limit: nat, offset: nat, page: seq<Row>) {
    && |page| == (if |from| <= offset then 0 else if |from| - offset < limit then |from| - offset else limit)
    && forall i :: 0 <= i < |page| ==> from[offset + i] < |rows| && page[i] == rows[from[offset + i]]
  }

  /** Where a row goes: behind all that are not farther. */
  lemma {:induction false} InsertRowPlace(m: Metric, rows: seq<Row>, r: Row) returns (p: nat)
    requires Ascending(m, rows)
    ensures p <= |rows| && InsertRow(m, rows, r) == rows[..p] + [r] + rows[p..]
    ensures forall i :: 0 <= i < |rows| ==> (DistanceOf(m, rows[i]) <= DistanceOf(m, r) <==> i < p)
  {
    if rows == [] {
      p := 0;
    } else if DistanceOf(m, r) < DistanceOf(m, rows[|rows| - 1]) {
      var front, last := rows[..|rows| - 1], rows[|rows| - 1];
      p := InsertRowPlace(m, front, r);
      hide DistanceOf, InsertRow;
      assert rows[p..] == front[p..] + [last] && rows[..p] == front[..p];
      assert InsertRow(m, front, r) + [last] == rows[..p] + [r] + rows[p..];
    } else {
      p := |rows|;
      assert rows[..p] + [r] + rows[p..] == rows + [r];
    }
  }

  /** The rows at these places, in this order. */
  ghost predicate Follows(sorted: seq<Row>, rows: seq<Row>, from: seq<nat>) {
    |sorted| == |from| && forall i :: 0 <= i < |from| ==> from[i] < |rows| && sorted[i] == rows[from[i]]
  }

  function InsertPlace(from: seq<nat>, p: nat, n: nat): seq<nat>
    requires p <= |from|
  {
    from[..p] + [n] + from[p..]
  }

  lemma InsertPlaceIs(from: seq<nat>, p: nat, n: nat)
    requires p <= |from|
    ensures |InsertPlace(from, p, n)| == |from| + 1
    ensures forall i :: 0 <= i <= |from| ==> InsertPlace(from, p, n)[i] == if i < p then from[i] else if i == p then n else from[i - 1]
    ensures forall x :: x in InsertPlace(from, p, n) <==> x in from || x == n
  {
    assert from == from[..p] + from[p..];
  }

  /** Inserting the next row keeps a ranking. */
  lemma RankedOneMore(rows: seq<Row>, m: Metric, from: seq<nat>, r: Row, p: nat)
    requires Ranked(rows, m, from) && Known(m, r) && p <= |from|
    requires forall i :: 0 <= i < |from| ==>
               from[i] < |rows| && (DistanceOf(m, rows[from[i]]) <= DistanceOf(m, r) <==> i < p)
    ensures Ranked(rows + [r], m, InsertPlace(from, p, |rows|))
  {
    var more, n := rows + [r], |rows|;
    var all := InsertPlace(from, p, n);
    InsertPlaceIs(from, p, n);
    assert forall i :: 0 <= i < n ==> more[i] == rows[i];
    hide InsertPlace;
    forall i, j | 0 <= i < j < |all|
      ensures RankedBefore(more, m, all[i], all[j])
    {
      if i != p && j != p {
        assert RankedBefore(rows, m, from[if i < p then i else i - 1], from[if j < p then j else j - 1]);
      } else {
        var x := if j == p then from[i] else from[j - 1];
        assert x in from;
      }
    }
  }

  lemma FollowsOneMore(sorted: seq<Row>, rows: seq<Row>, from: seq<nat>, r: Row, p: nat)
    requires Follows(sorted, rows, from) && p <= |from|
    ensures Follows(sorted[..p] + [r] + sorted[p..], rows + [r], InsertPlace(from, p, |rows|))
  {
    InsertPlaceIs(from, p, |rows|);
  }

  lemma RankedSkip(rows: seq<Row>, m: Metric, from: seq<nat>, r: Row)
    requires Ranked(rows, m, from) && !Known(m, r)
    ensures Ranked(rows + [r], m, from)
  {
    forall i, j | 0 <= i < j < |from|
      ensures RankedBefore(rows + [r], m, from[i], from[j])
    {
      assert RankedBefore(rows, m, from[i], from[j]);
    }
  }

  lemma FollowsSkip(sorted: seq<Row>, rows: seq<Row>, from: seq<nat>, r: Row)
    requires Follows(sorted, rows, from)
    ensures Follows(sorted, rows + [r], from)
  {
  }

  lemma SortOneMore(m: Metric, kept: seq<Row>, r: Row)
    ensures SortRows(m, kept + [r]) == InsertRow(m, SortRows(m, kept), r)
  {
    assert (kept + [r])[..|kept|] == kept;
  }

  lemma FollowsPlaces(m: Metric, sorted: seq<Row>, rows: seq<Row>, from: seq<nat>, d: real, p: nat)
    requires Follows(sorted, rows, from)
    requires forall i :: 0 <= i < |sorted| ==> (DistanceOf(m, sorted[i]) <= d <==> i < p)
    ensures forall i :: 0 <= i < |from| ==> from[i] < |rows| && (DistanceOf(m, rows[from[i]]) <= d <==> i < p)
  {
  }

  lemma NothingRanked(m: Metric)
    ensures Ranked([], m, []) && Follows(SortRows(m, Kept(m, [])), [], [])
  {
  }

  /** The sorted known rows are those of a ranking. */
  lemma {:induction false} SortRanks(m: Metric, rows: seq<Row>) returns (from: seq<nat>)
    ensures Ranked(rows, m, from) && Follows(SortRows(m, Kept(m, rows)), rows, from)
  {
    hide *;
    if rows == [] {
      from := [];
      NothingRanked(m);
    } else {
      var front, r := rows[..|rows| - 1], rows[|rows| - 1];
      from := SortRanks(m, front);
      assert rows == front + [r];
      from := RankNext(m, front, r, from);
    }
  }

  lemma RankNext(m: Metric, front: seq<Row>, r: Row, from: seq<nat>) returns (all: seq<nat>)
    requires Ranked(front, m, from) && Follows(SortRows(m, Kept(m, front)), front, from)
    ensures Ranked(front + [r], m, all) && Follows(SortRows(m, Kept(m, front + [r])), front + [r], all)
  {
    hide *;
    var kept := Kept(m, front);
    var sorted := SortRows(m, kept);
    KeptAppend(m, front, r);
    if Known(m, r) {
      SortRowsSorts(m, kept);
      SortOneMore(m, kept, r);
      var p := InsertRowPlace(m, sorted, r);
      FollowsPlaces(m, sorted, front, from, DistanceOf(m, r), p);
      FollowsLength(sorted, front, from);
      RankedOneMore(front, m, from, r, p);
      FollowsOneMore(sorted, front, from, r, p);
      all := InsertPlace(from, p, |front|);
    } else {
      assert kept + [] == kept;
      RankedSkip(front, m, from, r);
      FollowsSkip(sorted, front, from, r);
      all := from;
    }
  }

  lemma FollowsLength(sorted: seq<Row>, rows: seq<Row>, from: seq<nat>)
    requires Follows(sorted, rows, from)
    ensures |sorted| == |from|
  {
  }

  lemma AnswerIsPage(m: Metric, rows: seq<Row>, limit: nat, offset: nat)
    ensures exists from: seq<nat> :: Ranked(rows, m, from) && PageOf(rows, from, limit, offset, Answer(m, rows, limit, offset))
  {
    var from := SortRanks(m, rows);
    hide Ranked, SortRows, Kept;
    assert PageOf(rows, from, limit, offset, Answer(m, rows, limit, offset));
  }

  // ----- the table and its index -----

  function AllRows(t: seq<Tuple>): (rows: seq<Row>)
    ensures |rows| == |t| && forall i :: 0 <= i < |t| ==> rows[i] == t[i].row
  {
    if t == [] then [] else AllRows(t[..|t| - 1]) + [t[|t| - 1].row]
  }

  /** What the index should hold: the located rows. */
  function Located(t: seq<Tuple>): seq<Item> {
    if t == [] then []
    else
      var last := t[|t| - 1];
      Located(t[..|t| - 1]) + if last.row.location.Some? then [Item(last.row.location.value, last.rid)] else []
  }

  predicate DistinctRids(t: seq<Tuple>) {
    forall i, j :: 0 <= i < j < |t| ==> t[i].rid != t[j].rid
  }

  function Fetch(t: seq<Tuple>, rid: RID): Option<Row> {
    if t == [] then None
    else if t[|t| - 1].rid == rid then Some(t[|t| - 1].row)
    else Fetch(t[..|t| - 1], rid)
  }

  lemma {:induction false} FetchFinds(t: seq<Tuple>, i: nat)
    requires DistinctRids(t) && i < |t|
    ensures Fetch(t, t[i].rid) == Some(t[i].row)
  {
    if i < |t| - 1 {
      FetchFinds(t[..|t| - 1], i);
    }
  }

  function FetchItem(t: seq<Tuple>): Item -> Option<Row> {
    (it: Item) => Fetch(t, it.rid)
  }

  function ValueOf(): Option<Row> -> Row {
    (o: Option<Row>) => if o.Some? then o.value else Row(None, 0)
  }

  function SomeOf(): Row -> Option<Row> {
    (r: Row) => Some(r)
  }

  function RowDistance(m: Metric): Row -> real {
    (r: Row) => DistanceOf(m, r)
  }

  function ItemDistance(m: Metric): Item -> real {
    (it: Item) => m.distance(it.point)
  }

  /** The rows at distance at most d, in order. */
  function Near(m: Metric, rows: seq<Row>, d: real): seq<Row> {
    if rows == [] then []
    else if DistanceOf(m, rows[|rows| - 1]) <= d then Near(m, rows[..|rows| - 1], d) + [rows[|rows| - 1]]
    else Near(m, rows[..|rows| - 1], d)
  }

  /** The candidates of the index, or nothing when the index cannot settle the answer. */
  function IndexedRows(t: seq<Tuple>, items: seq<Item>, m: Metric, k: nat): Option<seq<Row>>
    requires k > 0
  {
    var hits := Nearest(m, items, k);
    if |hits| < k then None
    else
      var candidates := Wanted(items, Within(m, hits[k - 1].distance));
      if |candidates| != k then None
      else if |set h | h in hits :: h.distance| != k then None
      else
        var rows := Map(candidates, FetchItem(t));
        if None in rows then None else Some(Map(rows, ValueOf()))
  }

  // ----- both leaves give the same answer -----

  /** Distances that differ pairwise, as a property of the bag of distances. */
  ghost predicate AllDifferent(ds: seq<real>) {
    forall d :: multiset(ds)[d] <= 1
  }

  lemma {:induction false} KeptAllKnown(m: Metric, rows: seq<Row>)
    requires forall i :: 0 <= i < |rows| ==> Known(m, rows[i])
    ensures Kept(m, rows) == rows
  {
    if rows != [] {
      KeptAllKnown(m, rows[..|rows| - 1]);
    }
  }

  lemma {:induction false} NearCount(m: Metric, rows: seq<Row>, d: real, r: Row)
    ensures multiset(Near(m, rows, d))[r] == if DistanceOf(m, r) <= d then multiset(rows)[r] else 0
  {
    if rows != [] {
      NearCount(m, rows[..|rows| - 1], d, r);
      assert rows == rows[..|rows| - 1] + [rows[|rows| - 1]];
    }
  }

  /** In ascending order the near rows come first. */
  lemma {:induction false} NearIsPrefix(m: Metric, rows: seq<Row>, d: real)
    requires Ascending(m, rows)
    ensures |Near(m, rows, d)| <= |rows| && forall i :: 0 <= i < |Near(m, rows, d)| ==> Near(m, rows, d)[i] == rows[i]
    ensures |rows| > 0 && DistanceOf(m, rows[|rows| - 1]) <= d ==> |Near(m, rows, d)| == |rows|
  {
    if rows != [] {
      NearIsPrefix(m, rows[..|rows| - 1], d);
      assert |rows| > 1 ==> DistanceOf(m, rows[|rows| - 2]) <= DistanceOf(m, rows[|rows| - 1]);
    }
  }

  /** Pairwise different distances leave one ascending order only. */
  lemma {:induction false} AscendingUnique(m: Metric, a: seq<Row>, b: seq<Row>)
    requires Ascending(m, a) && Ascending(m, b) && multiset(a) == multiset(b)
    requires AllDifferent(Map(a, RowDistance(m)))
    ensures a == b
    decreases |a|
  {
    assert |multiset(a)| == |multiset(b)|;
    if a != [] {
      hide DistanceOf, Map, RowDistance, AllDifferent;
      var x, y := a[|a| - 1], b[|b| - 1];
      assert y in multiset(a) && x in multiset(b);
      LastIsFarthest(m, a, b);
      LastIsFarthest(m, b, a);
      assert DistanceOf(m, x) == DistanceOf(m, y);
      if x != y {
        TwoAtOneDistance(m, a, x, y);
      }
      SameFrontRows(a, b);
      FrontDifferent(m, a);
      AscendingUnique(m, a[..|a| - 1], b[..|b| - 1]);
      SameLast(a, b);
    }
  }

  lemma SameFrontRows(a: seq<Row>, b: seq<Row>)
    requires a != [] && b != [] && a[|a| - 1] == b[|b| - 1] && multiset(a) == multiset(b)
    ensures multiset(a[..|a| - 1]) == multiset(b[..|b| - 1])
  {
    var x := a[|a| - 1];
    assert a == a[..|a| - 1] + [x] && b == b[..|b| - 1] + [x];
    CancelOne(multiset(a[..|a| - 1]), multiset(b[..|b| - 1]), x);
  }

  lemma SameLast(a: seq<Row>, b: seq<Row>)
    requires a != [] && b != [] && a[|a| - 1] == b[|b| - 1] && a[..|a| - 1] == b[..|b| - 1]
    ensures a == b
  {
    assert a == a[..|a| - 1] + [a[|a| - 1]] && b == b[..|b| - 1] + [b[|b| - 1]];
  }

  lemma LastIsFarthest(m: Metric, a: seq<Row>, b: seq<Row>)
    requires Ascending(m, a) && multiset(a) == multiset(b) && b != [] && a != []
    ensures DistanceOf(m, b[|b| - 1]) <= DistanceOf(m, a[|a| - 1])
  {
    assert b[|b| - 1] in multiset(a);
    assert b[|b| - 1] in a;
    var i :| 0 <= i < |a| && a[i] == b[|b| - 1];
  }

  lemma TwoAtOneDistance(m: Metric, a: seq<Row>, x: Row, y: Row)
    requires a != [] && x == a[|a| - 1] && y in multiset(a) && x != y && DistanceOf(m, x) == DistanceOf(m, y)
    ensures !AllDifferent(Map(a, RowDistance(m)))
  {
    assert y in a;
    var i :| 0 <= i < |a| && a[i] == y;
    MapAt(a, RowDistance(m));
    TwiceThere(Map(a, RowDistance(m)), i, |a| - 1);
  }

  lemma TwiceThere(ds: seq<real>, i: nat, j: nat)
    requires i < j < |ds| && ds[i] == ds[j]
    ensures multiset(ds)[ds[i]] >= 2
  {
    assert ds == ds[..i] + [ds[i]] + ds[i + 1..j] + [ds[j]] + ds[j + 1..];
  }

  lemma FrontDifferent(m: Metric, a: seq<Row>)
    requires a != [] && AllDifferent(Map(a, RowDistance(m)))
    ensures AllDifferent(Map(a[..|a| - 1], RowDistance(m)))
  {
    var front := Map(a[..|a| - 1], RowDistance(m));
    assert Map(a, RowDistance(m)) == front + [RowDistance(m)(a[|a| - 1])];
    forall d
      ensures multiset(front)[d] <= 1
    {
      assert multiset(front)[d] <= multiset(Map(a, RowDistance(m)))[d];
    }
  }

  /** For a prefix u of the table: the near located rows, fetched through their RIDs, are those rows. */
  lemma {:induction false} NearFetched(t: seq<Tuple>, n: nat, m: Metric, d: real)
    requires DistinctRids(t) && n <= |t| && forall p :: m.distance(p) >= 0.0
    ensures Map(Wanted(Located(t[..n]), Within(m, d)), FetchItem(t)) == Map(Near(m, Kept(m, AllRows(t[..n])), d), SomeOf())
    ensures Map(Wanted(Located(t[..n]), Within(m, d)), ItemDistance(m)) == Map(Near(m, Kept(m, AllRows(t[..n])), d), RowDistance(m))
    decreases n
  {
    if n == 0 {
      assert t[..n] == [];
    } else {
      NearFetched(t, n - 1, m, d);
      FetchFinds(t, n - 1);
      NearFetchedStep(t, n, m, d);
    }
  }

  lemma NearFetchedStep(t: seq<Tuple>, n: nat, m: Metric, d: real)
    requires 0 < n <= |t| && forall p :: m.distance(p) >= 0.0
    requires Fetch(t, t[n - 1].rid) == Some(t[n - 1].row)
    requires Map(Wanted(Located(t[..n - 1]), Within(m, d)), FetchItem(t)) == Map(Near(m, Kept(m, AllRows(t[..n - 1])), d), SomeOf())
    requires Map(Wanted(Located(t[..n - 1]), Within(m, d)), ItemDistance(m)) == Map(Near(m, Kept(m, AllRows(t[..n - 1])), d), RowDistance(m))
    ensures Map(Wanted(Located(t[..n]), Within(m, d)), FetchItem(t)) == Map(Near(m, Kept(m, AllRows(t[..n])), d), SomeOf())
    ensures Map(Wanted(Located(t[..n]), Within(m, d)), ItemDistance(m)) == Map(Near(m, Kept(m, AllRows(t[..n])), d), RowDistance(m))
  {
    hide Map, Near, Kept, AllRows, Located, Wanted;
    var u, x := t[..n - 1], t[n - 1];
    assert t[..n] == u + [x];
    var located, rows := Located(u), Kept(m, AllRows(u));
    AppendTuple(u, x);
    KeptAppend(m, AllRows(u), x.row);
    if x.row.location.Some? {
      var it := Item(x.row.location.value, x.rid);
      WantedAppend(located, it, Within(m, d));
      NearAppend(m, rows, x.row, d);
      if m.distance(it.point) <= d {
        MapAppend(Wanted(located, Within(m, d)), it, FetchItem(t));
        MapAppend(Wanted(located, Within(m, d)), it, ItemDistance(m));
        MapAppend(Near(m, rows, d), x.row, SomeOf());
        MapAppend(Near(m, rows, d), x.row, RowDistance(m));
      } else {
        AddNothing(Wanted(located, Within(m, d)));
      }
    } else {
      AddNothing(rows);
      AddNothing(located);
    }
  }

  lemma AddNothing<T>(s: seq<T>)
    ensures s + [] == s
  {
  }

  lemma AppendTuple(u: seq<Tuple>, x: Tuple)
    ensures AllRows(u + [x]) == AllRows(u) + [x.row]
    ensures Located(u + [x]) == Located(u) + if x.row.location.Some? then [Item(x.row.location.value, x.rid)] else []
  {
    assert (u + [x])[..|u|] == u;
  }

  lemma KeptAppend(m: Metric, rows: seq<Row>, r: Row)
    ensures Kept(m, rows + [r]) == Kept(m, rows) + if Known(m, r) then [r] else []
  {
    assert (rows + [r])[..|rows|] == rows;
  }

  lemma NearAppend(m: Metric, rows: seq<Row>, r: Row, d: real)
    ensures Near(m, rows + [r], d) == if DistanceOf(m, r) <= d then Near(m, rows, d) + [r] else Near(m, rows, d)
  {
    assert (rows + [r])[..|rows|] == rows;
  }

  // ----- the k hits are the candidates -----

  function HitDistance(): Hit -> real {
    (h: Hit) => h.distance
  }

  lemma {:induction false} WantedHits(m: Metric, items: seq<Item>, d: real, x: Hit)
    ensures multiset(HitsOf(m, Wanted(items, Within(m, d))))[x] ==
            if x.distance <= d then multiset(HitsOf(m, items))[x] else 0
  {
    if items != [] {
      var front, last := items[..|items| - 1], items[|items| - 1];
      assert items == front + [last];
      WantedHits(m, front, d, x);
      WantedAppend(front, last, Within(m, d));
      HitsOfAppend(m, Wanted(front, Within(m, d)), last);
      HitsOfAppend(m, front, last);
      hide HitsOf, Wanted;
      assert Wanted(front, Within(m, d)) + [] == Wanted(front, Within(m, d));
    }
  }

  lemma {:induction false} HitDistances(m: Metric, items: seq<Item>)
    ensures Map(HitsOf(m, items), HitDistance()) == Map(items, ItemDistance(m))
  {
    if items != [] {
      HitDistances(m, items[..|items| - 1]);
      MapAppend(HitsOf(m, items[..|items| - 1]), HitOf(m, items[|items| - 1]), HitDistance());
    }
  }

  lemma FullSub(a: multiset<Hit>, b: multiset<Hit>)
    requires (forall x :: a[x] <= b[x]) && |a| == |b|
    ensures a == b
  {
    assert b == a + (b - a);
    assert |b - a| == 0;
    assert b - a == multiset{};
  }

  lemma SplitBag(s: seq<Hit>, k: nat)
    requires k <= |s|
    ensures multiset(s) == multiset(s[..k]) + multiset(s[k..])
  {
    assert s == s[..k] + s[k..];
  }

  lemma HitsAreCandidates(m: Metric, items: seq<Item>, k: nat)
    requires k > 0 && |Nearest(m, items, k)| == k
    requires |Wanted(items, Within(m, Nearest(m, items, k)[k - 1].distance))| == k
    ensures multiset(Nearest(m, items, k)) ==
            multiset(HitsOf(m, Wanted(items, Within(m, Nearest(m, items, k)[k - 1].distance))))
  {
    var hits := Nearest(m, items, k);
    var d := hits[k - 1].distance;
    var all := SortHits(HitsOf(m, items));
    SortSorts(HitsOf(m, items));
    SplitBag(all, k);
    var c := HitsOf(m, Wanted(items, Within(m, d)));
    hide Wanted, HitsOf, SortHits, Within;
    assert forall i :: 0 <= i < k - 1 ==> !Before(hits[k - 1], hits[i]);
    forall x: Hit
      ensures multiset(hits)[x] <= multiset(c)[x]
    {
      WantedHits(m, items, d, x);
      assert multiset(hits)[x] <= multiset(all)[x];
      if x in hits {
        var i :| 0 <= i < k && hits[i] == x;
      }
    }
    HitsOfMembers(m, Wanted(items, Within(m, d)), hits[0]);
    FullSub(multiset(hits), multiset(c));
  }

  lemma {:induction false} DistanceSet(hits: seq<Hit>)
    ensures |set h | h in hits :: h.distance| <= |hits|
    ensures |set h | h in hits :: h.distance| == |hits| ==> AllDifferent(Map(hits, HitDistance()))
  {
    if hits == [] {
      assert (set h | h in hits :: h.distance) == {};
    } else {
      var front, last := hits[..|hits| - 1], hits[|hits| - 1];
      DistanceSet(front);
      var s, s' := set h | h in front :: h.distance, set h | h in hits :: h.distance;
      assert hits == front + [last];
      assert s' == s + {last.distance};
      if |s'| == |hits| {
        assert last.distance !in s;
        NotAmong(front, last.distance);
      }
    }
  }

  lemma {:induction false} NotAmong(hits: seq<Hit>, d: real)
    requires forall h :: h in hits ==> h.distance != d
    ensures multiset(Map(hits, HitDistance()))[d] == 0
  {
    if hits != [] {
      NotAmong(hits[..|hits| - 1], d);
    }
  }

  // ----- the theorem -----

  ghost predicate Agrees(t: seq<Tuple>, items: seq<Item>) {
    DistinctRids(t) && multiset(items) == multiset(Located(t))
  }

  /** The near rows of the table, and those the index names, are the same ones. */
  lemma CandidateRows(t: seq<Tuple>, items: seq<Item>, m: Metric, d: real)
    requires Agrees(t, items) && forall p :: m.distance(p) >= 0.0
    ensures var c, near := Wanted(items, Within(m, d)), Near(m, Kept(m, AllRows(t)), d);
            && multiset(Map(c, FetchItem(t))) == multiset(Map(near, SomeOf()))
            && multiset(Map(c, ItemDistance(m))) == multiset(Map(near, RowDistance(m)))
  {
    hide Map, Near, Kept, AllRows, Located, Wanted, FetchItem, ItemDistance, SomeOf, RowDistance;
    var c, l := Wanted(items, Within(m, d)), Wanted(Located(t), Within(m, d));
    forall it: Item
      ensures multiset(c)[it] == multiset(l)[it]
    {
      WantedCount(items, Within(m, d), it);
      WantedCount(Located(t), Within(m, d), it);
    }
    assert multiset(c) == multiset(l);
    MapPermuted(c, l, FetchItem(t));
    MapPermuted(c, l, ItemDistance(m));
    assert t[..|t|] == t;
    NearFetched(t, |t|, m, d);
  }

  lemma {:induction false} Unwrapped(rows: seq<Row>)
    ensures Map(Map(rows, SomeOf()), ValueOf()) == rows
    ensures None !in Map(rows, SomeOf())
  {
    if rows != [] {
      Unwrapped(rows[..|rows| - 1]);
      MapAppend(Map(rows[..|rows| - 1], SomeOf()), Some(rows[|rows| - 1]), ValueOf());
    }
  }

  /** Every entry of an index that agrees with the table names a live row. */
  lemma CandidatesAreLive(t: seq<Tuple>, items: seq<Item>, m: Metric, d: real)
    requires Agrees(t, items) && forall p :: m.distance(p) >= 0.0
    ensures None !in Map(Wanted(items, Within(m, d)), FetchItem(t))
  {
    hide Map, Near, Kept, AllRows, Wanted, Agrees;
    CandidateRows(t, items, m, d);
    var near := Near(m, Kept(m, AllRows(t)), d);
    Unwrapped(near);
    assert None !in multiset(Map(near, SomeOf()));
  }

  lemma {:induction false} NearOfKept(m: Metric, rows: seq<Row>, d: real, r: Row)
    requires r in Kept(m, rows)
    ensures Known(m, r)
  {
    if r in Kept(m, rows[..|rows| - 1]) {
      NearOfKept(m, rows[..|rows| - 1], d, r);
    }
  }

  lemma IndexedAre(t: seq<Tuple>, items: seq<Item>, m: Metric, k: nat, rows: seq<Row>) returns (d: real)
    requires k > 0 && Agrees(t, items) && (forall p :: m.distance(p) >= 0.0)
    requires IndexedRows(t, items, m, k) == Some(rows)
    ensures multiset(rows) == multiset(Near(m, Kept(m, AllRows(t)), d)) && |rows| == k
    ensures AllDifferent(Map(Near(m, Kept(m, AllRows(t)), d), RowDistance(m)))
  {
    hide Near, Kept, AllRows, Located, Wanted, FetchItem, ItemDistance, SomeOf, RowDistance, ValueOf, Map, HitsOf, Agrees,
         AllDifferent, Nearest, Within, HitDistance;
    var hits := Nearest(m, items, k);
    NearestLength(m, items, k);
    d := hits[k - 1].distance;
    var c := Wanted(items, Within(m, d));
    var near := Near(m, Kept(m, AllRows(t)), d);
    CandidateRows(t, items, m, d);
    Unwrapped(near);
    MapPermuted(Map(c, FetchItem(t)), Map(near, SomeOf()), ValueOf());
    MapAt(c, FetchItem(t));
    MapAt(Map(c, FetchItem(t)), ValueOf());
    HitsAreCandidates(m, items, k);
    MapPermuted(hits, HitsOf(m, c), HitDistance());
    HitDistances(m, c);
    DistanceSet(hits);
    SameBagDifferent(Map(hits, HitDistance()), Map(near, RowDistance(m)));
  }

  lemma NearestLength(m: Metric, items: seq<Item>, k: nat)
    ensures |Nearest(m, items, k)| <= k
  {
  }

  lemma SameBagDifferent(a: seq<real>, b: seq<real>)
    requires AllDifferent(a) && multiset(a) == multiset(b)
    ensures AllDifferent(b)
  {
  }

  /** When the index settles the answer, sorting its rows gives the front of the sorted table. */
  lemma IndexedRowsAreFront(t: seq<Tuple>, items: seq<Item>, m: Metric, k: nat, rows: seq<Row>)
    requires k > 0 && Agrees(t, items) && (forall p :: m.distance(p) >= 0.0)
    requires IndexedRows(t, items, m, k) == Some(rows)
    ensures |SortRows(m, Kept(m, AllRows(t)))| >= k
    ensures SortRows(m, Kept(m, rows)) == SortRows(m, Kept(m, AllRows(t)))[..k]
  {
    hide IndexedRows, Near, Kept, SortRows, AllRows, Map, Agrees, AllDifferent;
    var d := IndexedAre(t, items, m, k, rows);
    var rest := Kept(m, AllRows(t));
    forall i | 0 <= i < |rows|
      ensures Known(m, rows[i])
    {
      assert rows[i] in multiset(rows);
      NearCount(m, rest, d, rows[i]);
      assert rows[i] in multiset(rest);
      NearOfKept(m, AllRows(t), d, rows[i]);
    }
    KeptAllKnown(m, rows);
    var s := SortRows(m, rest);
    SortRowsSorts(m, rest);
    SortRowsSorts(m, rows);
    NearIsPrefix(m, s, d);
    var front := Near(m, s, d);
    SameNear(m, rest, s, d);
    assert |multiset(front)| == |front| && |multiset(rows)| == |rows|;
    MapPermuted(front, Near(m, rest, d), RowDistance(m));
    SameBagDifferent(Map(Near(m, rest, d), RowDistance(m)), Map(front, RowDistance(m)));
    AscendingUnique(m, front, SortRows(m, rows));
  }

  lemma SameNear(m: Metric, a: seq<Row>, b: seq<Row>, d: real)
    requires multiset(a) == multiset(b)
    ensures multiset(Near(m, a, d)) == multiset(Near(m, b, d))
  {
    hide Near;
    forall r: Row
      ensures multiset(Near(m, a, d))[r] == multiset(Near(m, b, d))[r]
    {
      NearCount(m, a, d, r);
      NearCount(m, b, d, r);
    }
  }

  /** The rows the leaf of the nearest-neighbour plan delivers. */
  function KnnLeaf(t: seq<Tuple>, items: seq<Item>, m: Metric, k: nat): seq<Row>
    requires k > 0
  {
    var indexed := IndexedRows(t, items, m, k);
    if indexed.Some? then indexed.value else AllRows(t)
  }

  /** Same rows, same order as the plan over the full scan, for every limit and offset. */
  lemma KnnPlanEqualsScan(t: seq<Tuple>, items: seq<Item>, m: Metric, limit: nat, offset: nat)
    requires limit + offset > 0 && Agrees(t, items) && forall p :: m.distance(p) >= 0.0
    ensures Answer(m, KnnLeaf(t, items, m, limit + offset), limit, offset) == Answer(m, AllRows(t), limit, offset)
  {
    var k := limit + offset;
    var indexed := IndexedRows(t, items, m, k);
    hide IndexedRows;
    if indexed.Some? {
      IndexedRowsAreFront(t, items, m, k, indexed.value);
      hide SortRows, Kept, AllRows;
    }
  }
}
