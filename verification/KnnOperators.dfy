/**
 The operators of the nearest-neighbour plan with their cursors
 (engine/query/operators.py): Limit over Sort over the not-null Filter over a leaf.
 */
module KnnOperators {
  import opened Common
  import opened RTreeNodes
  import opened Knn
  import opened SpatialScan
  import opened KnnPlan

  /** The leaf: SpatialKnnScan, or with useIndex off the TableScan of the same table. */
  class Leaf {
    const table: seq<Tuple>
    const root: Option<Node>
    const metric: Metric
    const k: nat
    const useIndex: bool
    ghost const order: nat
    ghost const height: nat
    var buffer: seq<Row>
    var position: nat

    constructor (table: seq<Tuple>, root: Option<Node>, metric: Metric, k: nat, useIndex: bool, ghost order: nat, ghost height: nat)
      ensures this.table == table && this.root == root && this.metric == metric && this.k == k
      ensures this.useIndex == useIndex && this.order == order && this.height == height && buffer == [] && position == 0
    {
      this.table, this.root, this.metric, this.k, this.useIndex := table, root, metric, k, useIndex;
      this.order, this.height, buffer, position := order, height, [], 0;
    }

    ghost predicate Ready() {
      && k > 0 && Admissible(metric) && (root.Some? ==> Ok(root.value, order, height))
    }

    ghost function Pending(): seq<Row>
      reads this
    {
      if position <= |buffer| then buffer[position..] else []
    }

    ghost function Rows(): seq<Row>
      requires Ready()
    {
      if useIndex then KnnLeaf(table, AllItems(root), metric, k) else AllRows(table)
    }

    /** The rows named by the index, or nothing when their order would be ambiguous. */
    method IndexedRows() returns (rows: Option<seq<Row>>)
      requires Ready()
      ensures rows == KnnPlan.IndexedRows(table, AllItems(root), metric, k)
    {
      hide Nearest, Wanted, Items, Ok, Map;
      var found := KnnHits(root, order, height, k, metric);
      var hits := found.value;
      if |hits| < k {
        return None;
      }
      var radius := hits[|hits| - 1].distance;
      NearestLength(metric, AllItems(root), k);
      RadiusQuerySound(metric, radius);
      var candidates := StackScan(root, RadiusQuery(metric, radius), order, height);
      if |candidates| != k {
        return None;
      }
      var distances := set h | h in hits :: h.distance;
      if |distances| != k {
        return None;
      }
      var fetched := Map(candidates, FetchItem(table));
      if None in fetched {
        return None;
      }
      return Some(Map(fetched, ValueOf()));
    }

    method Open()
      requires Ready()
      modifies this
      ensures Pending() == Rows()
    {
      buffer, position := AllRows(table), 0;
      if useIndex {
        var rows := IndexedRows();
        if rows.Some? {
          buffer := rows.value;
        }
      }
    }

    method Next() returns (r: Option<Row>)
      modifies this
      ensures old(Pending()) == [] ==> r == None && Pending() == []
      ensures old(Pending()) != [] ==> r == Some(old(Pending())[0]) && Pending() == old(Pending())[1..]
    {
      if position < |buffer| {
        r := Some(buffer[position]);
        position := position + 1;
      } else {
        r := None;
      }
    }
  }

  lemma {:induction false} KeptFront(m: Metric, rows: seq<Row>)
    requires rows != []
    ensures Kept(m, rows) == (if Known(m, rows[0]) then [rows[0]] else []) + Kept(m, rows[1..])
  {
    if |rows| == 1 {
      assert rows[..0] == [] && rows[1..] == [];
    } else {
      KeptFront(m, rows[..|rows| - 1]);
      assert rows[..|rows| - 1][1..] == rows[1..][..|rows[1..]| - 1];
      assert rows[1..] == rows[1..][..|rows[1..]| - 1] + [rows[|rows| - 1]];
      KeptAppend(m, rows[1..][..|rows[1..]| - 1], rows[|rows| - 1]);
    }
  }

  class Filter {
    const child: Leaf

    constructor (child: Leaf)
      ensures this.child == child
    {
      this.child := child;
    }

    ghost function Pending(): seq<Row>
      reads child
    {
      Kept(child.metric, child.Pending())
    }

    method Open()
      requires child.Ready()
      modifies child
      ensures Pending() == Kept(child.metric, child.Rows())
    {
      child.Open();
    }

    /** Pull until a row satisfies the predicate. */
    method Next() returns (r: Option<Row>)
      modifies child
      ensures old(Pending()) == [] ==> r == None && Pending() == []
      ensures old(Pending()) != [] ==> r == Some(old(Pending())[0]) && Pending() == old(Pending())[1..]
    {
      hide Kept;
      while true
        invariant Pending() == old(Pending())
        decreases |child.Pending()|
      {
        ghost var rest := child.Pending();
        if rest != [] {
          KeptFront(child.metric, rest);
        } else {
          KeptNothing(child.metric);
        }
        r := child.Next();
        if r.None? {
          return;
        }
        if Known(child.metric, r.value) {
          return;
        }
      }
    }
  }

  lemma KeptNothing(m: Metric)
    ensures Kept(m, []) == []
  {
  }

  lemma MoveOne(read: seq<Row>, pending: seq<Row>, all: seq<Row>)
    requires read + pending == all && pending != []
    ensures (read + [pending[0]]) + pending[1..] == all
  {
    assert pending == [pending[0]] + pending[1..];
  }

  lemma MovedAll(read: seq<Row>, pending: seq<Row>, all: seq<Row>)
    requires read + pending == all && pending == []
    ensures read == all
  {
  }

  lemma MoveNone(pending: seq<Row>)
    ensures [] + pending == pending
  {
  }

  class Sort {
    const child: Filter
    var buffer: seq<Row>
    var position: nat

    constructor (child: Filter)
      ensures this.child == child && buffer == [] && position == 0
    {
      this.child, buffer, position := child, [], 0;
    }

    ghost function Pending(): seq<Row>
      reads this
    {
      if position <= |buffer| then buffer[position..] else []
    }

    /** Read everything, then sort it. */
    method Open()
      requires child.child.Ready()
      modifies this, child.child
      ensures Pending() == SortRows(child.child.metric, Kept(child.child.metric, child.child.Rows()))
    {
      hide Kept, SortRows;
      child.Open();
      ghost var all := child.Pending();
      var read: seq<Row> := [];
      MoveNone(all);
      while true
        invariant read + child.Pending() == all
        decreases |child.Pending()|
      {
        ghost var before := child.Pending();
        var r := child.Next();
        if r.None? {
          MovedAll(read, before, all);
          break;
        }
        MoveOne(read, before, all);
        read := read + [r.value];
      }
      buffer, position := SortRows(child.child.metric, read), 0;
    }

    method Next() returns (r: Option<Row>)
      modifies this
      ensures old(Pending()) == [] ==> r == None && Pending() == []
      ensures old(Pending()) != [] ==> r == Some(old(Pending())[0]) && Pending() == old(Pending())[1..]
    {
      if position < |buffer| {
        r := Some(buffer[position]);
        position := position + 1;
      } else {
        r := None;
      }
    }
  }

  /** What is left of the cut after one row was passed over, or emitted. */
  lemma CutSteps(rows: seq<Row>, offset: nat, limit: nat)
    ensures rows == [] || limit == 0 ==> Cut(rows, offset, limit) == []
    ensures rows != [] && offset > 0 ==> Cut(rows, offset, limit) == Cut(rows[1..], offset - 1, limit)
    ensures rows != [] && offset == 0 && limit > 0 ==>
              && Cut(rows, offset, limit) != [] && Cut(rows, offset, limit)[0] == rows[0]
              && Cut(rows, offset, limit)[1..] == Cut(rows[1..], 0, limit - 1)
  {
    hide Cut;
    CutIs(rows, offset, limit);
    if rows != [] && offset > 0 {
      CutSkip(rows, offset, limit);
    } else if rows != [] && limit > 0 {
      CutTake(rows, limit);
    }
  }

  lemma CutSkip(rows: seq<Row>, offset: nat, limit: nat)
    requires rows != [] && offset > 0
    ensures Cut(rows, offset, limit) == Cut(rows[1..], offset - 1, limit)
  {
    hide Cut;
    CutIs(rows, offset, limit);
    CutIs(rows[1..], offset - 1, limit);
  }

  lemma CutTake(rows: seq<Row>, limit: nat)
    requires rows != [] && limit > 0
    ensures Cut(rows, 0, limit) != [] && Cut(rows, 0, limit)[0] == rows[0]
    ensures Cut(rows, 0, limit)[1..] == Cut(rows[1..], 0, limit - 1)
  {
    hide Cut;
    CutIs(rows, 0, limit);
    CutIs(rows[1..], 0, limit - 1);
  }

  lemma CutIs(rows: seq<Row>, offset: nat, limit: nat)
    ensures |Cut(rows, offset, limit)| ==
            if offset >= |rows| then 0 else if offset + limit <= |rows| then limit else |rows| - offset
    ensures forall i :: 0 <= i < |Cut(rows, offset, limit)| ==> Cut(rows, offset, limit)[i] == rows[offset + i]
  {
  }

  class Limit {
    const child: Sort
    const limit: nat
    const offset: nat
    var emitted: nat
    var skipped: nat

    constructor (child: Sort, limit: nat, offset: nat)
      ensures this.child == child && this.limit == limit && this.offset == offset && emitted == 0 && skipped == 0
    {
      this.child, this.limit, this.offset, emitted, skipped := child, limit, offset, 0, 0;
    }

    ghost predicate Valid()
      reads this
    {
      emitted <= limit && skipped <= offset && (emitted > 0 ==> skipped == offset)
    }

    ghost function Pending(): seq<Row>
      requires Valid()
      reads this, child
    {
      Cut(child.Pending(), offset - skipped, limit - emitted)
    }

    method Open()
      requires child.child.child.Ready()
      modifies this, child, child.child.child
      ensures Valid() && Pending() == Answer(child.child.child.metric, child.child.child.Rows(), limit, offset)
      ensures exists from: seq<nat> ::
                Ranked(child.child.child.Rows(), child.child.child.metric, from) && PageOf(child.child.child.Rows(), from, limit, offset, Pending())
    {
      hide Cut, SortRows, Kept, Ranked, PageOf;
      AnswerIsPage(child.child.child.metric, child.child.child.Rows(), limit, offset);
      child.Open();
      emitted, skipped := 0, 0;
    }

    /** Skip what is still to be skipped, then emit while the quota lasts. */
    method Next() returns (r: Option<Row>)
      requires Valid()
      modifies this, child
      ensures Valid()
      ensures old(Pending()) == [] ==> r == None && Pending() == []
      ensures old(Pending()) != [] ==> r == Some(old(Pending())[0]) && Pending() == old(Pending())[1..]
    {
      hide Cut;
      while skipped < offset
        invariant Valid() && emitted == old(emitted)
        invariant Pending() == old(Pending())
      {
        CutSteps(child.Pending(), offset - skipped, limit - emitted);
        r := child.Next();
        if r.None? {
          return None;
        }
        skipped := skipped + 1;
      }
      CutSteps(child.Pending(), 0, limit - emitted);
      if emitted >= limit {
        return None;
      }
      r := child.Next();
      if r.None? {
        return None;
      }
      emitted := emitted + 1;
    }
  }

  /** What the caller of a plan does: pull rows until there are none. */
  method Drain(plan: Limit) returns (rows: seq<Row>)
    requires plan.Valid()
    modifies plan, plan.child
    ensures rows == old(plan.Pending())
  {
    hide Cut;
    rows := [];
    ghost var all := plan.Pending();
    MoveNone(all);
    while true
      invariant plan.Valid() && rows + plan.Pending() == all
      decreases |plan.Pending()|
    {
      ghost var before := plan.Pending();
      var r := plan.Next();
      if r.None? {
        MovedAll(rows, before, all);
        break;
      }
      MoveOne(rows, before, all);
      rows := rows + [r.value];
    }
  }

  /** Running the plan with the index gives exactly what the full scan gives, row by row. */
  method RunPlan(table: seq<Tuple>, root: Option<Node>, metric: Metric, limit: nat, offset: nat, useIndex: bool,
                 ghost order: nat, ghost height: nat)
    returns (rows: seq<Row>)
    requires limit + offset > 0 && Admissible(metric) && (forall p :: metric.distance(p) >= 0.0)
    requires root.Some? ==> Ok(root.value, order, height)
    requires Agrees(table, AllItems(root))
    ensures rows == Answer(metric, AllRows(table), limit, offset)
    ensures exists from: seq<nat> :: Ranked(AllRows(table), metric, from) && PageOf(AllRows(table), from, limit, offset, rows)
  {
    var leaf := new Leaf(table, root, metric, limit + offset, useIndex, order, height);
    var filter := new Filter(leaf);
    var sort := new Sort(filter);
    var plan := new Limit(sort, limit, offset);
    plan.Open();
    KnnPlanEqualsScan(table, AllItems(root), metric, limit, offset);
    ghost var all := plan.Pending();
    assert all == Answer(metric, AllRows(table), limit, offset);
    rows := Drain(plan);
    AnswerIsPage(metric, AllRows(table), limit, offset);
  }
}
