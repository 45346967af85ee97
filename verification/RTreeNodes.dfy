/**
 Points, bounding boxes and nodes of the R-tree (engine/indexes/rtree/mbr.py, node.py),
 what a well-formed tree is, and the two searches that prune by boxes.
 */
module RTreeNodes {
  import opened Common
  import opened Sequences

  datatype Point = Point(x: real, y: real)

  datatype Item = Item(point: Point, rid: RID)

  datatype MBR = MBR(minX: real, minY: real, maxX: real, maxY: real)

  function Min(a: real, b: real): real {
    if b < a then b else a
  }

  function Max(a: real, b: real): real {
    if b > a then b else a
  }

  function FromPoint(p: Point): MBR {
    MBR(p.x, p.y, p.x, p.y)
  }

  function Union(a: MBR, b: MBR): MBR {
    MBR(Min(a.minX, b.minX), Min(a.minY, b.minY), Max(a.maxX, b.maxX), Max(a.maxY, b.maxY))
  }

  function Area(m: MBR): real {
    Max(0.0, m.maxX - m.minX) * Max(0.0, m.maxY - m.minY)
  }

  function Enlargement(m: MBR, other: MBR): real {
    Area(Union(m, other)) - Area(m)
  }

  /** How far apart the ends of a side are; a side that is turned round has no length. */
  ghost function Length(lo: real, hi: real): real {
    if lo < hi then hi - lo else 0.0
  }

  /** What a box covers. */
  ghost function Covered(m: MBR): real {
    Length(m.minX, m.maxX) * Length(m.minY, m.maxY)
  }

  /** How much more a box covers when another one is taken in. */
  ghost function Growth(m: MBR, other: MBR): real {
    Covered(MBR(if m.minX <= other.minX then m.minX else other.minX, if m.minY <= other.minY then m.minY else other.minY,
                if m.maxX >= other.maxX then m.maxX else other.maxX, if m.maxY >= other.maxY then m.maxY else other.maxY))
    - Covered(m)
  }

  lemma GrowthIs(m: MBR, other: MBR)
    ensures Area(m) == Covered(m) && Enlargement(m, other) == Growth(m, other)
    ensures Area(Union(m, other)) == Covered(m) + Growth(m, other)
  {
    assert Max(0.0, m.maxX - m.minX) == Length(m.minX, m.maxX) && Max(0.0, m.maxY - m.minY) == Length(m.minY, m.maxY);
    var u := Union(m, other);
    assert Max(0.0, u.maxX - u.minX) == Length(u.minX, u.maxX) && Max(0.0, u.maxY - u.minY) == Length(u.minY, u.maxY);
  }

  predicate Contains(m: MBR, p: Point) {
    m.minX <= p.x <= m.maxX && m.minY <= p.y <= m.maxY
  }

  predicate Intersects(m: MBR, other: MBR) {
    !(other.maxX < m.minX || other.minX > m.maxX || other.maxY < m.minY || other.minY > m.maxY)
  }

  /** A node; its box is missing only while it has no entries. */
  datatype Node =
    | Leaf(entries: seq<Item>, mbr: Option<MBR>)
    | Internal(children: seq<Node>, mbr: Option<MBR>)

  function Size(n: Node): nat {
    if n.Leaf? then |n.entries| else |n.children|
  }

  function BoxOf(n: Node): MBR {
    if n.mbr.Some? then n.mbr.value else MBR(0.0, 0.0, 0.0, 0.0)
  }

  function PointBox(i: Item): MBR {
    FromPoint(i.point)
  }

  /** The union of the boxes of a non-empty list, from left to right. */
  function Cover<T>(es: seq<T>, box: T -> MBR): MBR
    requires |es| > 0
  {
    if |es| == 1 then box(es[0]) else Union(Cover(es[..|es| - 1], box), box(es[|es| - 1]))
  }

  function ComputeMbr<T>(es: seq<T>, box: T -> MBR): Option<MBR> {
    if es == [] then None else Some(Cover(es, box))
  }

  function NewLeaf(es: seq<Item>): Node {
    Leaf(es, ComputeMbr(es, PointBox))
  }

  function NewInternal(cs: seq<Node>): Node {
    Internal(cs, ComputeMbr(cs, BoxOf))
  }

  // ----- contents -----

  /** The stored entries from left to right. */
  function Items(n: Node): seq<Item>
    decreases n
  {
    match n
    case Leaf(es, _) => es
    case Internal(cs, _) => ItemsOf(cs)
  }

  function ItemsOf(cs: seq<Node>): seq<Item>
    decreases cs
  {
    if cs == [] then [] else ItemsOf(cs[..|cs| - 1]) + Items(cs[|cs| - 1])
  }

  lemma ItemsOfAppend(cs: seq<Node>, c: Node)
    ensures ItemsOf(cs + [c]) == ItemsOf(cs) + Items(c)
  {
    assert (cs + [c])[..|cs|] == cs;
  }

  lemma {:induction false} ItemsOfConcat(a: seq<Node>, b: seq<Node>)
    ensures ItemsOf(a + b) == ItemsOf(a) + ItemsOf(b)
  {
    if b == [] {
      assert a + b == a;
    } else {
      hide ItemsOf, Items;
      var front, last := b[..|b| - 1], b[|b| - 1];
      ItemsOfConcat(a, front);
      ItemsOfAppend(a + front, last);
      ItemsOfAppend(front, last);
      assert b == front + [last];
      assert a + b == (a + front) + [last];
    }
  }

  lemma ItemsOfSingle(c: Node)
    ensures ItemsOf([c]) == Items(c)
  {
    assert [c][..0] == [];
  }

  lemma ItemsOfAround(left: seq<Node>, c: Node, right: seq<Node>)
    ensures ItemsOf(left + [c] + right) == ItemsOf(left) + Items(c) + ItemsOf(right)
  {
    hide ItemsOf, Items;
    ItemsOfConcat(left + [c], right);
    ItemsOfAppend(left, c);
  }

  /** Replacing one child exchanges its items for those of the new one. */
  lemma ItemsOfUpdate(cs: seq<Node>, i: nat, c: Node)
    requires i < |cs|
    ensures multiset(ItemsOf(cs[i := c])) + multiset(Items(cs[i])) == multiset(ItemsOf(cs)) + multiset(Items(c))
  {
    hide ItemsOf, Items;
    assert cs == cs[..i] + [cs[i]] + cs[i + 1..];
    assert cs[i := c] == cs[..i] + [c] + cs[i + 1..];
    ItemsOfAround(cs[..i], cs[i], cs[i + 1..]);
    ItemsOfAround(cs[..i], c, cs[i + 1..]);
  }

  lemma ItemsOfRemove(cs: seq<Node>, i: nat)
    requires i < |cs|
    ensures multiset(ItemsOf(cs[..i] + cs[i + 1..])) + multiset(Items(cs[i])) == multiset(ItemsOf(cs))
  {
    hide ItemsOf, Items;
    assert cs == cs[..i] + [cs[i]] + cs[i + 1..];
    ItemsOfAround(cs[..i], cs[i], cs[i + 1..]);
    ItemsOfConcat(cs[..i], cs[i + 1..]);
  }

  /** The stored items depend only on which children there are, not on their order. */
  lemma {:induction false} ItemsOfPermuted(a: seq<Node>, b: seq<Node>)
    requires multiset(a) == multiset(b)
    ensures multiset(ItemsOf(a)) == multiset(ItemsOf(b))
    decreases |a|
  {
    if a == [] {
      assert |multiset(b)| == 0;
      assert b == [];
    } else {
      var front, last := a[..|a| - 1], a[|a| - 1];
      assert a == front + [last];
      assert last in multiset(b);
      var i :| 0 <= i < |b| && b[i] == last;
      assert b == b[..i] + ([b[i]] + b[i + 1..]);
      assert multiset(b[..i] + b[i + 1..]) == multiset(b) - multiset{last};
      ItemsOfPermuted(front, b[..i] + b[i + 1..]);
      ItemsOfRemove(b, i);
    }
  }

  // ----- well-formed trees -----

  ghost predicate HasX(items: seq<Item>, x: real) {
    exists it :: it in items && it.point.x == x
  }

  ghost predicate HasY(items: seq<Item>, y: real) {
    exists it :: it in items && it.point.y == y
  }

  lemma HasInConcat(xs: seq<Item>, ys: seq<Item>, v: real)
    ensures HasX(xs + ys, v) <==> HasX(xs, v) || HasX(ys, v)
    ensures HasY(xs + ys, v) <==> HasY(xs, v) || HasY(ys, v)
  {
    assert forall it :: it in xs + ys <==> it in xs || it in ys;
  }

  /** m is the least box around the items: it contains all of them and each side touches one. */
  ghost predicate Tight(m: MBR, items: seq<Item>) {
    && (forall it :: it in items ==> Contains(m, it.point))
    && HasX(items, m.minX) && HasY(items, m.minY) && HasX(items, m.maxX) && HasY(items, m.maxY)
  }

  lemma TightUnique(a: MBR, b: MBR, items: seq<Item>)
    requires Tight(a, items) && Tight(b, items)
    ensures a == b
  {
  }

  lemma TightUnion(a: MBR, xs: seq<Item>, b: MBR, ys: seq<Item>)
    requires Tight(a, xs) && Tight(b, ys)
    ensures Tight(Union(a, b), xs + ys)
  {
    var m := Union(a, b);
    HasInConcat(xs, ys, m.minX);
    HasInConcat(xs, ys, m.minY);
    HasInConcat(xs, ys, m.maxX);
    HasInConcat(xs, ys, m.maxY);
    hide HasX, HasY;
    forall it | it in xs + ys
      ensures Contains(m, it.point)
    {
      assert it in xs || it in ys;
    }
  }

  /**
   Height h everywhere, between one and `order` entries in each node, each box the least
   one around everything below.
   */
  ghost predicate Ok(n: Node, order: nat, h: nat)
    decreases n
  {
    && 1 <= Size(n) <= order && n.mbr.Some? && Tight(n.mbr.value, Items(n))
    && match n
       case Leaf(_, _) => h == 0
       case Internal(cs, _) => h > 0 && forall i :: 0 <= i < |cs| ==> Ok(cs[i], order, h - 1)
  }

  ghost predicate AllOk(cs: seq<Node>, order: nat, h: nat) {
    forall i :: 0 <= i < |cs| ==> Ok(cs[i], order, h)
  }

  lemma {:induction false} LeafCover(es: seq<Item>)
    requires |es| > 0
    ensures Tight(Cover(es, PointBox), es)
  {
    var front, last := es[..|es| - 1], es[|es| - 1];
    assert last in [last];
    assert Tight(PointBox(last), [last]);
    if |es| > 1 {
      LeafCover(front);
      TightUnion(Cover(front, PointBox), front, PointBox(last), [last]);
      assert es == front + [last];
    } else {
      assert es == [last];
    }
  }

  lemma {:induction false} InternalCover(cs: seq<Node>, order: nat, h: nat)
    requires |cs| > 0 && AllOk(cs, order, h)
    ensures Tight(Cover(cs, BoxOf), ItemsOf(cs))
  {
    hide Tight;
    var front, last := cs[..|cs| - 1], cs[|cs| - 1];
    assert Ok(last, order, h);
    if |cs| > 1 {
      InternalCover(front, order, h);
      TightUnion(Cover(front, BoxOf), ItemsOf(front), BoxOf(last), Items(last));
    } else {
      ItemsOfSingle(last);
      assert cs == [last];
    }
  }

  lemma NewLeafOk(es: seq<Item>, order: nat)
    requires 1 <= |es| <= order
    ensures Ok(NewLeaf(es), order, 0)
  {
    LeafCover(es);
  }

  lemma NewInternalOk(cs: seq<Node>, order: nat, h: nat)
    requires 1 <= |cs| <= order && AllOk(cs, order, h)
    ensures Ok(NewInternal(cs), order, h + 1)
  {
    hide Tight;
    InternalCover(cs, order, h);
  }

  // ----- searching -----

  function RidsAt(es: seq<Item>, p: Point): seq<RID> {
    if es == [] then []
    else RidsAt(es[..|es| - 1], p) + if es[|es| - 1].point == p then [es[|es| - 1].rid] else []
  }

  function RidsIn(es: seq<Item>, box: MBR): seq<RID> {
    if es == [] then []
    else RidsIn(es[..|es| - 1], box) + if Contains(box, es[|es| - 1].point) then [es[|es| - 1].rid] else []
  }

  lemma {:induction false} RidsAtConcat(a: seq<Item>, b: seq<Item>, p: Point)
    ensures RidsAt(a + b, p) == RidsAt(a, p) + RidsAt(b, p)
  {
    if b == [] {
      assert a + b == a;
    } else {
      RidsAtConcat(a, b[..|b| - 1], p);
      assert (a + b)[..|a + b| - 1] == a + b[..|b| - 1];
    }
  }

  lemma {:induction false} RidsInConcat(a: seq<Item>, b: seq<Item>, box: MBR)
    ensures RidsIn(a + b, box) == RidsIn(a, box) + RidsIn(b, box)
  {
    if b == [] {
      assert a + b == a;
    } else {
      RidsInConcat(a, b[..|b| - 1], box);
      assert (a + b)[..|a + b| - 1] == a + b[..|b| - 1];
    }
  }

  /** The RIDs of the items at these places, which are all those with point p, in order. */
  ghost predicate ReadsPoint(items: seq<Item>, at: seq<nat>, p: Point, r: seq<RID>) {
    && Places(at, |items|) && |r| == |at| && (forall j :: 0 <= j < |at| ==> r[j] == items[at[j]].rid)
    && (forall i {:trigger items[i]} :: 0 <= i < |items| ==> (i in at <==> items[i].point.x == p.x && items[i].point.y == p.y))
  }

  /** The same for the items in the box of two corners, given in any order. */
  ghost predicate ReadsBox(items: seq<Item>, at: seq<nat>, a: Point, b: Point, r: seq<RID>) {
    && Places(at, |items|) && |r| == |at| && (forall j :: 0 <= j < |at| ==> r[j] == items[at[j]].rid)
    && (forall i {:trigger items[i]} :: 0 <= i < |items| ==> (i in at <==> Between(a.x, items[i].point.x, b.x) && Between(a.y, items[i].point.y, b.y)))
  }

  predicate Between(a: real, x: real, b: real) {
    a <= x <= b || b <= x <= a
  }

  /** The linear filter reads each item at the point once, in order. */
  lemma {:induction false} RidsAtReads(items: seq<Item>, p: Point) returns (at: seq<nat>)
    ensures ReadsPoint(items, at, p, RidsAt(items, p))
  {
    if items == [] {
      at := [];
    } else {
      var n := |items| - 1;
      var front := RidsAtReads(items[..n], p);
      at := front + if items[n].point == p then [n] else [];
      OneMorePlace(front, n);
      hide Places;
      forall i: nat | i < |items|
        ensures i in at <==> items[i].point.x == p.x && items[i].point.y == p.y
      {
        assert i < n ==> items[..n][i] == items[i];
        assert items[i].point == p <==> items[i].point.x == p.x && items[i].point.y == p.y;
      }
    }
  }

  lemma {:induction false} RidsAtCount(items: seq<Item>, p: Point, r: RID)
    ensures multiset(RidsAt(items, p))[r] == multiset(items)[Item(p, r)]
  {
    if items != [] {
      RidsAtCount(items[..|items| - 1], p, r);
      BagLast(items);
      var last := items[|items| - 1];
      assert last == Item(p, r) <==> last.point == p && last.rid == r;
    }
  }

  lemma {:induction false} RidsInReads(items: seq<Item>, a: Point, b: Point) returns (at: seq<nat>)
    ensures ReadsBox(items, at, a, b, RidsIn(items, Union(FromPoint(a), FromPoint(b))))
  {
    if items == [] {
      at := [];
    } else {
      var n, box := |items| - 1, Union(FromPoint(a), FromPoint(b));
      var front := RidsInReads(items[..n], a, b);
      at := front + if Contains(box, items[n].point) then [n] else [];
      OneMorePlace(front, n);
      BoxIsBetween(a, b, items[n].point);
      hide Places, Contains, Between, Union, FromPoint;
      forall i: nat | i < |items|
        ensures i in at <==> Between(a.x, items[i].point.x, b.x) && Between(a.y, items[i].point.y, b.y)
      {
        assert i < n ==> items[..n][i] == items[i];
      }
    }
  }

  lemma BoxIsBetween(a: Point, b: Point, p: Point)
    ensures Contains(Union(FromPoint(a), FromPoint(b)), p) <==> Between(a.x, p.x, b.x) && Between(a.y, p.y, b.y)
  {
  }

  lemma PointReads(items: seq<Item>, p: Point)
    ensures exists at: seq<nat> :: ReadsPoint(items, at, p, RidsAt(items, p))
    ensures forall r :: multiset(RidsAt(items, p))[r] == multiset(items)[Item(p, r)]
  {
    var at := RidsAtReads(items, p);
    forall r: RID
      ensures multiset(RidsAt(items, p))[r] == multiset(items)[Item(p, r)]
    {
      RidsAtCount(items, p, r);
    }
  }

  lemma CornersRead(items: seq<Item>, a: Point, b: Point)
    ensures exists at: seq<nat> :: ReadsBox(items, at, a, b, RidsIn(items, Union(FromPoint(a), FromPoint(b))))
  {
    var at := RidsInReads(items, a, b);
  }

  lemma {:induction false} RidsAtNone(es: seq<Item>, p: Point)
    requires forall it :: it in es ==> it.point != p
    ensures RidsAt(es, p) == []
  {
    if es != [] {
      RidsAtNone(es[..|es| - 1], p);
    }
  }

  lemma {:induction false} RidsInNone(es: seq<Item>, box: MBR)
    requires forall it :: it in es ==> !Contains(box, it.point)
    ensures RidsIn(es, box) == []
  {
    if es != [] {
      RidsInNone(es[..|es| - 1], box);
    }
  }

  /** Point search: only children whose box contains the point are entered. */
  function Search(n: Node, p: Point): seq<RID>
    decreases n
  {
    match n
    case Leaf(es, _) => RidsAt(es, p)
    case Internal(cs, _) => SearchAll(cs, p)
  }

  function SearchAll(cs: seq<Node>, p: Point): seq<RID>
    decreases cs
  {
    if cs == [] then []
    else SearchAll(cs[..|cs| - 1], p) + if Contains(BoxOf(cs[|cs| - 1]), p) then Search(cs[|cs| - 1], p) else []
  }

  /** Window search: only children whose box meets the window are entered. */
  function Range(n: Node, box: MBR): seq<RID>
    decreases n
  {
    match n
    case Leaf(es, _) => RidsIn(es, box)
    case Internal(cs, _) => RangeAll(cs, box)
  }

  function RangeAll(cs: seq<Node>, box: MBR): seq<RID>
    decreases cs
  {
    if cs == [] then []
    else RangeAll(cs[..|cs| - 1], box) + if Intersects(BoxOf(cs[|cs| - 1]), box) then Range(cs[|cs| - 1], box) else []
  }

  /** Pruning loses nothing: the search is the linear filter, in order. */
  lemma {:induction false} SearchIsFilter(n: Node, order: nat, h: nat, p: Point)
    requires Ok(n, order, h)
    ensures Search(n, p) == RidsAt(Items(n), p)
    decreases n
  {
    if n.Internal? {
      SearchAllIsFilter(n.children, order, h - 1, p);
    }
  }

  lemma {:induction false} SearchAllIsFilter(cs: seq<Node>, order: nat, h: nat, p: Point)
    requires AllOk(cs, order, h)
    ensures SearchAll(cs, p) == RidsAt(ItemsOf(cs), p)
    decreases cs
  {
    if cs != [] {
      var front, last := cs[..|cs| - 1], cs[|cs| - 1];
      assert Ok(last, order, h);
      SearchAllIsFilter(front, order, h, p);
      SearchIsFilter(last, order, h, p);
      RidsAtConcat(ItemsOf(front), Items(last), p);
      if !Contains(BoxOf(last), p) {
        RidsAtNone(Items(last), p);
      }
    }
  }

  lemma {:induction false} RangeIsFilter(n: Node, order: nat, h: nat, box: MBR)
    requires Ok(n, order, h)
    ensures Range(n, box) == RidsIn(Items(n), box)
    decreases n
  {
    if n.Internal? {
      RangeAllIsFilter(n.children, order, h - 1, box);
    }
  }

  lemma {:induction false} RangeAllIsFilter(cs: seq<Node>, order: nat, h: nat, box: MBR)
    requires AllOk(cs, order, h)
    ensures RangeAll(cs, box) == RidsIn(ItemsOf(cs), box)
    decreases cs
  {
    if cs != [] {
      var front, last := cs[..|cs| - 1], cs[|cs| - 1];
      assert Ok(last, order, h);
      RangeAllIsFilter(front, order, h, box);
      RangeIsFilter(last, order, h, box);
      RidsInConcat(ItemsOf(front), Items(last), box);
      if !Intersects(BoxOf(last), box) {
        RidsInNone(Items(last), box);
      }
    }
  }
}
