/**
 The radius plan (engine/query/operators.py, planner.py): a window query on the spatial index
 around the circle, under the filter with the exact predicate, returns the rows of the filtered
 full scan.
 */
module RadiusPlan {
  import opened Common
  import opened Sequences
  import opened RTreeNodes
  import opened KnnPlan
  import opened SpatialScan
  import Knn

  /** The box `center ± radius` the index is asked for. */
  function Window(center: Point, radius: real): MBR {
    MBR(center.x - radius, center.y - radius, center.x + radius, center.y + radius)
  }

  function InBox(box: MBR): Point -> bool {
    (p: Point) => Contains(box, p)
  }

  /** The predicate `distance < radius` or, inclusive, `distance <= radius`. */
  function InRadius(m: Knn.Metric, radius: real, inclusive: bool): Point -> bool {
    (p: Point) => m.distance(p) < radius || (inclusive && m.distance(p) == radius)
  }

  /** A row without a location has no distance, so no comparison holds of it. */
  predicate Matches(r: Row, keep: Point -> bool) {
    r.location.Some? && keep(r.location.value)
  }

  function Selected(rows: seq<Row>, keep: Point -> bool): seq<Row> {
    if rows == [] then []
    else Selected(rows[..|rows| - 1], keep) + if Matches(rows[|rows| - 1], keep) then [rows[|rows| - 1]] else []
  }

  function FetchRid(t: seq<Tuple>): RID -> Option<Row> {
    (rid: RID) => Fetch(t, rid)
  }

  /** Fetched rows; a RID without a live row is passed over. */
  function Present(found: seq<Option<Row>>): seq<Row> {
    if found == [] then []
    else Present(found[..|found| - 1]) + if found[|found| - 1].Some? then [found[|found| - 1].value] else []
  }

  /** The rows the index leaf delivers. */
  function RadiusLeaf(t: seq<Tuple>, root: Option<Node>, box: MBR): seq<Row> {
    Present(Map(if root.Some? then Range(root.value, box) else [], FetchRid(t)))
  }

  // ----- the box contains the circle -----

  lemma SquareBound(d: real, radius: real)
    requires radius >= 0.0 && d * d <= radius * radius
    ensures -radius <= d <= radius
  {
    if d >= 0.0 {
      Knn.SquareOrder(d, radius);
    } else {
      assert (-d) * (-d) == d * d;
      Knn.SquareOrder(-d, radius);
    }
  }

  /** No point within the radius lies outside the box. */
  lemma WindowContainsCircle(center: Point, p: Point, distance: real, radius: real)
    requires Knn.IsHypot(distance, center.x - p.x, center.y - p.y) && distance <= radius
    ensures Contains(Window(center, radius), p)
  {
    var dx, dy := center.x - p.x, center.y - p.y;
    assert dx * dx >= 0.0 && dy * dy >= 0.0;
    assert distance * distance <= radius * radius by {
      assert distance * distance <= distance * radius <= radius * radius;
    }
    SquareBound(dx, radius);
    SquareBound(dy, radius);
  }

  // ----- the index names the rows of the box -----

  lemma {:induction false} SelectedCount(rows: seq<Row>, keep: Point -> bool, r: Row)
    ensures multiset(Selected(rows, keep))[r] == if Matches(r, keep) then multiset(rows)[r] else 0
  {
    if rows != [] {
      SelectedCount(rows[..|rows| - 1], keep, r);
      BagLast(rows);
    }
  }

  lemma {:induction false} PresentCount(found: seq<Option<Row>>, r: Row)
    ensures multiset(Present(found))[r] == multiset(found)[Some(r)]
  {
    if found != [] {
      PresentCount(found[..|found| - 1], r);
      BagLast(found);
    }
  }

  lemma {:induction false} FetchedRange(t: seq<Tuple>, items: seq<Item>, box: MBR)
    ensures Map(RidsIn(items, box), FetchRid(t)) == Map(Wanted(items, InBox(box)), FetchItem(t))
  {
    if items != [] {
      hide Map;
      var front, last := items[..|items| - 1], items[|items| - 1];
      FetchedRange(t, front, box);
      if Contains(box, last.point) {
        MapAppend(RidsIn(front, box), last.rid, FetchRid(t));
        MapAppend(Wanted(front, InBox(box)), last, FetchItem(t));
      } else {
        AddNothing(RidsIn(front, box));
        AddNothing(Wanted(front, InBox(box)));
      }
    } else {
      NoRids(box);
    }
  }

  /** For a prefix of the table: the located rows in the box, fetched through their RIDs. */
  lemma {:induction false} SelectedFetched(t: seq<Tuple>, n: nat, keep: Point -> bool)
    requires DistinctRids(t) && n <= |t|
    ensures Map(Wanted(Located(t[..n]), keep), FetchItem(t)) == Map(Selected(AllRows(t[..n]), keep), SomeOf())
    decreases n
  {
    if n == 0 {
      assert t[..n] == [];
    } else {
      SelectedFetched(t, n - 1, keep);
      FetchFinds(t, n - 1);
      SelectedFetchedStep(t, n, keep);
    }
  }

  lemma {:induction false} SelectedFetchedStep(t: seq<Tuple>, n: nat, keep: Point -> bool)
    requires 0 < n <= |t| && Fetch(t, t[n - 1].rid) == Some(t[n - 1].row)
    requires Map(Wanted(Located(t[..n - 1]), keep), FetchItem(t)) == Map(Selected(AllRows(t[..n - 1]), keep), SomeOf())
    ensures Map(Wanted(Located(t[..n]), keep), FetchItem(t)) == Map(Selected(AllRows(t[..n]), keep), SomeOf())
  {
    hide Map, Selected, AllRows, Located, Wanted;
    var u, x := t[..n - 1], t[n - 1];
    assert t[..n] == u + [x];
    AppendTuple(u, x);
    SelectedAppend(AllRows(u), x.row, keep);
    if x.row.location.Some? {
      var it := Item(x.row.location.value, x.rid);
      WantedAppend(Located(u), it, keep);
      MapAppend(Wanted(Located(u), keep), it, FetchItem(t));
      MapAppend(Selected(AllRows(u), keep), x.row, SomeOf());
      AddNothing(Wanted(Located(u), keep));
    } else {
      AddNothing(Located(u));
    }
    AddNothing(Selected(AllRows(u), keep));
  }

  lemma SelectedAppend(rows: seq<Row>, r: Row, keep: Point -> bool)
    ensures Selected(rows + [r], keep) == Selected(rows, keep) + if Matches(r, keep) then [r] else []
  {
    assert (rows + [r])[..|rows|] == rows;
  }

  /** The leaf delivers the rows located in the box, each as often as the table has it. */
  lemma LeafIsBox(t: seq<Tuple>, root: Option<Node>, order: nat, h: nat, box: MBR)
    requires root.Some? ==> Ok(root.value, order, h)
    requires Agrees(t, if root.Some? then Items(root.value) else [])
    ensures multiset(RadiusLeaf(t, root, box)) == multiset(Selected(AllRows(t), InBox(box)))
  {
    var items := if root.Some? then Items(root.value) else [];
    if root.Some? {
      RangeIsFilter(root.value, order, h, box);
    }
    hide Map, Range, RidsIn, Items, Ok, Wanted, Selected, AllRows, Present, Located;
    ItemsFetched(t, items, box);
    forall r: Row
      ensures multiset(RadiusLeaf(t, root, box))[r] == multiset(Selected(AllRows(t), InBox(box)))[r]
    {
      PresentCount(Map(RidsIn(items, box), FetchRid(t)), r);
      PresentCount(Map(Selected(AllRows(t), InBox(box)), SomeOf()), r);
      AllPresent(Selected(AllRows(t), InBox(box)));
      NoRids(box);
    }
  }

  lemma NoRids(box: MBR)
    ensures RidsIn([], box) == []
  {
  }

  lemma {:induction false} AllPresent(rows: seq<Row>)
    ensures Present(Map(rows, SomeOf())) == rows
  {
    if rows != [] {
      AllPresent(rows[..|rows| - 1]);
    }
  }

  lemma ItemsFetched(t: seq<Tuple>, items: seq<Item>, box: MBR)
    requires Agrees(t, items)
    ensures multiset(Map(RidsIn(items, box), FetchRid(t))) == multiset(Map(Selected(AllRows(t), InBox(box)), SomeOf()))
  {
    hide Map, RidsIn, Wanted, Selected, AllRows, Located, FetchItem, FetchRid, SomeOf, InBox;
    var c, l := Wanted(items, InBox(box)), Wanted(Located(t), InBox(box));
    FetchedRange(t, items, box);
    forall it: Item
      ensures multiset(c)[it] == multiset(l)[it]
    {
      WantedCount(items, InBox(box), it);
      WantedCount(Located(t), InBox(box), it);
    }
    assert multiset(c) == multiset(l);
    MapPermuted(c, l, FetchItem(t));
    assert t[..|t|] == t;
    SelectedFetched(t, |t|, InBox(box));
  }

  /** The radius plan returns the rows of the filtered full scan, in whatever order, each as often. */
  lemma RadiusPlanEqualsScan(t: seq<Tuple>, root: Option<Node>, order: nat, h: nat, m: Knn.Metric, center: Point, radius: real, inclusive: bool)
    requires root.Some? ==> Ok(root.value, order, h)
    requires Agrees(t, if root.Some? then Items(root.value) else [])
    requires forall p :: Knn.IsHypot(m.distance(p), center.x - p.x, center.y - p.y)
    ensures multiset(Selected(RadiusLeaf(t, root, Window(center, radius)), InRadius(m, radius, inclusive)))
         == multiset(Selected(AllRows(t), InRadius(m, radius, inclusive)))
    ensures forall r :: multiset(Selected(RadiusLeaf(t, root, Window(center, radius)), InRadius(m, radius, inclusive)))[r] ==
              if r.location.Some? && (if inclusive then m.distance(r.location.value) <= radius else m.distance(r.location.value) < radius)
              then multiset(AllRows(t))[r] else 0
  {
    hide RadiusLeaf, Selected, AllRows, Items, Ok, Window, Agrees, Knn.IsHypot, Contains;
    var box, keep := Window(center, radius), InRadius(m, radius, inclusive);
    LeafIsBox(t, root, order, h, box);
    forall r: Row
      ensures multiset(Selected(AllRows(t), keep))[r] ==
              if r.location.Some? && (if inclusive then m.distance(r.location.value) <= radius else m.distance(r.location.value) < radius)
              then multiset(AllRows(t))[r] else 0
      ensures multiset(Selected(RadiusLeaf(t, root, box), keep))[r] == multiset(Selected(AllRows(t), keep))[r]
    {
      SelectedCount(RadiusLeaf(t, root, box), keep, r);
      SelectedCount(AllRows(t), keep, r);
      SelectedCount(AllRows(t), InBox(box), r);
      if Matches(r, keep) {
        WindowContainsCircle(center, r.location.value, m.distance(r.location.value), radius);
      }
    }
  }
}
