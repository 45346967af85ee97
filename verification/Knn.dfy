/**
 Best-first nearest-neighbour search over the R-tree (engine/algorithms/spatial/knn.py)
 against its specification: sort every stored entry by rank and take the first k.
 */
module Knn {
  import opened Common
  import opened Sequences
  import opened RTreeNodes

  /** Distance to the query centre, and a bound on it for everything in a box. */
  datatype Metric = Metric(distance: Point -> real, lowerBound: MBR -> real)

  ghost predicate Admissible(m: Metric) {
    forall box, p {:trigger Contains(box, p)} :: Contains(box, p) ==> m.lowerBound(box) <= m.distance(p)
  }

  datatype Hit = Hit(point: Point, rid: RID, distance: real)

  /** Rank order: distance, x, y, page, slot. */
  predicate Before(a: Hit, b: Hit) {
    if a.distance != b.distance then a.distance < b.distance
    else if a.point.x != b.point.x then a.point.x < b.point.x
    else if a.point.y != b.point.y then a.point.y < b.point.y
    else if a.rid.pageId != b.rid.pageId then a.rid.pageId < b.rid.pageId
    else a.rid.slot < b.rid.slot
  }

  function HitOf(m: Metric, it: Item): Hit {
    Hit(it.point, it.rid, m.distance(it.point))
  }

  function HitsOf(m: Metric, items: seq<Item>): seq<Hit> {
    if items == [] then [] else HitsOf(m, items[..|items| - 1]) + [HitOf(m, items[|items| - 1])]
  }

  lemma HitsOfAppend(m: Metric, a: seq<Item>, it: Item)
    ensures HitsOf(m, a + [it]) == HitsOf(m, a) + [HitOf(m, it)]
  {
    assert (a + [it])[..|a|] == a;
  }

  lemma {:induction false} HitsOfConcat(m: Metric, a: seq<Item>, b: seq<Item>)
    ensures HitsOf(m, a + b) == HitsOf(m, a) + HitsOf(m, b)
  {
    if b == [] {
      assert a + b == a;
    } else {
      hide HitsOf, HitOf;
      var front, last := b[..|b| - 1], b[|b| - 1];
      HitsOfConcat(m, a, front);
      HitsOfAppend(m, a + front, last);
      HitsOfAppend(m, front, last);
      assert b == front + [last];
      assert a + b == (a + front) + [last];
    }
  }

  lemma {:induction false} HitsOfMembers(m: Metric, items: seq<Item>, x: Hit)
    ensures x in HitsOf(m, items) ==> exists it :: it in items && x == HitOf(m, it)
    ensures |HitsOf(m, items)| == |items|
  {
    if items != [] {
      HitsOfMembers(m, items[..|items| - 1], x);
    }
  }

  // ----- the specification: sort, then take -----

  predicate Sorted(hs: seq<Hit>) {
    forall i, j :: 0 <= i < j < |hs| ==> !Before(hs[j], hs[i])
  }

  function InsertHit(hs: seq<Hit>, x: Hit): seq<Hit> {
    if hs == [] then [x]
    else if Before(x, hs[|hs| - 1]) then InsertHit(hs[..|hs| - 1], x) + [hs[|hs| - 1]]
    else hs + [x]
  }

  function SortHits(hs: seq<Hit>): seq<Hit> {
    if hs == [] then [] else InsertHit(SortHits(hs[..|hs| - 1]), hs[|hs| - 1])
  }

  lemma {:induction false} InsertKeepsSorted(hs: seq<Hit>, x: Hit)
    requires Sorted(hs)
    ensures Sorted(InsertHit(hs, x)) && multiset(InsertHit(hs, x)) == multiset(hs) + multiset{x}
  {
    if hs != [] && Before(x, hs[|hs| - 1]) {
      var front, last := hs[..|hs| - 1], hs[|hs| - 1];
      assert hs == front + [last];
      InsertKeepsSorted(front, x);
      var r := InsertHit(front, x);
      assert InsertHit(hs, x) == r + [last];
      assert forall i :: 0 <= i < |front| ==> !Before(last, front[i]);
      BeforeAsymmetric(x, last);
      hide Before, InsertHit;
      forall i | 0 <= i < |r|
        ensures !Before(last, r[i])
      {
        assert r[i] in multiset(front) + multiset{x};
      }
    }
  }

  lemma BeforeAsymmetric(x: Hit, y: Hit)
    requires Before(x, y)
    ensures !Before(y, x)
  {
  }

  lemma {:induction false} SortSorts(hs: seq<Hit>)
    ensures Sorted(SortHits(hs)) && multiset(SortHits(hs)) == multiset(hs)
  {
    if hs != [] {
      SortSorts(hs[..|hs| - 1]);
      InsertKeepsSorted(SortHits(hs[..|hs| - 1]), hs[|hs| - 1]);
      assert hs == hs[..|hs| - 1] + [hs[|hs| - 1]];
    }
  }

  /** Ranks decide everything about a hit, so there is one sorted order. */
  lemma {:induction false} SortedUnique(a: seq<Hit>, b: seq<Hit>)
    requires Sorted(a) && Sorted(b) && multiset(a) == multiset(b)
    ensures a == b
    decreases |a|
  {
    assert |multiset(a)| == |multiset(b)|;
    if a != [] {
      hide Before;
      var x, y := a[|a| - 1], b[|b| - 1];
      assert x in multiset(a) && y in multiset(b);
      LastRanksLast(a, y);
      LastRanksLast(b, x);
      RankDecides(x, y);
      assert a == a[..|a| - 1] + [x] && b == b[..|b| - 1] + [x];
      SameFront(a[..|a| - 1], b[..|b| - 1], x);
      SortedUnique(a[..|a| - 1], b[..|b| - 1]);
    }
  }

  lemma SameFront(a: seq<Hit>, b: seq<Hit>, x: Hit)
    requires multiset(a + [x]) == multiset(b + [x])
    ensures multiset(a) == multiset(b)
  {
    assert multiset(a + [x]) - multiset{x} == multiset(a);
    assert multiset(b + [x]) - multiset{x} == multiset(b);
  }

  lemma LastRanksLast(a: seq<Hit>, y: Hit)
    requires Sorted(a) && y in multiset(a)
    ensures a != [] && !Before(a[|a| - 1], y)
  {
    assert y in a;
    var i :| 0 <= i < |a| && a[i] == y;
  }

  lemma RankDecides(x: Hit, y: Hit)
    requires !Before(x, y) && !Before(y, x)
    ensures x == y
  {
  }

  /** No element of hs ranks after d. */
  ghost predicate AfterAll(d: Hit, hs: seq<Hit>) {
    forall i :: 0 <= i < |hs| ==> !Before(d, hs[i])
  }

  /** If everything else ranks no earlier, best is the sorted front of the whole. */
  lemma FrontOfSorted(all: seq<Hit>, best: seq<Hit>, rest: seq<Hit>)
    requires multiset(all) == multiset(best) + multiset(rest)
    requires forall d :: d in rest ==> AfterAll(d, best)
    ensures |best| <= |SortHits(all)| && SortHits(best) == SortHits(all)[..|best|]
  {
    var b, r := SortHits(best), SortHits(rest);
    SortSorts(best);
    SortSorts(rest);
    SortSorts(all);
    assert |b| == |multiset(best)| == |best|;
    RestRanksAfter(best, rest, b, r);
    hide SortHits, AfterAll, Before;
    assert multiset(b + r) == multiset(all);
    SortedUnique(b + r, SortHits(all));
    assert (b + r)[..|b|] == b;
  }

  lemma RestRanksAfter(best: seq<Hit>, rest: seq<Hit>, b: seq<Hit>, r: seq<Hit>)
    requires Sorted(b) && Sorted(r) && multiset(b) == multiset(best) && multiset(r) == multiset(rest)
    requires forall d :: d in rest ==> AfterAll(d, best)
    ensures Sorted(b + r)
  {
    forall i, j | 0 <= i < |b| && 0 <= j < |r|
      ensures !Before(r[j], b[i])
    {
      assert b[i] in multiset(best) && r[j] in multiset(rest);
      assert AfterAll(r[j], best);
      var k :| 0 <= k < |best| && best[k] == b[i];
    }
  }

  // ----- the two heaps -----

  /** A subtree still to be visited, with the bound it was pushed with. */
  datatype Pending = Pending(bound: real, sequence: nat, node: Node)

  function PendingItems(f: seq<Pending>): seq<Item> {
    if f == [] then [] else PendingItems(f[..|f| - 1]) + Items(f[|f| - 1].node)
  }

  function NodeCount(n: Node): nat
    decreases n
  {
    match n
    case Leaf(_, _) => 1
    case Internal(cs, _) => 1 + NodeCountAll(cs)
  }

  function NodeCountAll(cs: seq<Node>): nat
    decreases cs
  {
    if cs == [] then 0 else NodeCountAll(cs[..|cs| - 1]) + NodeCount(cs[|cs| - 1])
  }

  function PendingCount(f: seq<Pending>): nat {
    if f == [] then 0 else PendingCount(f[..|f| - 1]) + NodeCount(f[|f| - 1].node)
  }

  lemma PendingAppend(f: seq<Pending>, p: Pending)
    ensures PendingItems(f + [p]) == PendingItems(f) + Items(p.node)
    ensures PendingCount(f + [p]) == PendingCount(f) + NodeCount(p.node)
  {
    assert (f + [p])[..|f|] == f;
  }

  /** The hits below the pending nodes. */
  function PendingBag(m: Metric, f: seq<Pending>): multiset<Hit> {
    multiset(HitsOf(m, PendingItems(f)))
  }

  lemma PendingBagAppend(m: Metric, f: seq<Pending>, p: Pending)
    ensures PendingBag(m, f + [p]) == PendingBag(m, f) + multiset(HitsOf(m, Items(p.node)))
  {
    hide PendingItems, HitsOf;
    PendingAppend(f, p);
    HitsOfConcat(m, PendingItems(f), Items(p.node));
  }

  lemma WithoutFront(f: seq<Pending>, i: nat)
    requires i < |f| - 1
    ensures Without(f, i) == Without(f[..|f| - 1], i) + [f[|f| - 1]]
  {
  }

  lemma {:induction false} PendingWithout(m: Metric, f: seq<Pending>, i: nat)
    requires i < |f|
    ensures PendingBag(m, f) == PendingBag(m, Without(f, i)) + multiset(HitsOf(m, Items(f[i].node)))
    ensures PendingCount(f) == PendingCount(Without(f, i)) + NodeCount(f[i].node)
  {
    hide HitsOf, PendingBag, Items, PendingCount, NodeCount;
    var front, last := f[..|f| - 1], f[|f| - 1];
    assert f == front + [last];
    PendingBagAppend(m, front, last);
    PendingAppend(front, last);
    if i == |f| - 1 {
      assert Without(f, i) == front;
    } else {
      PendingWithout(m, front, i);
      WithoutFront(f, i);
      hide Without;
      PendingBagAppend(m, Without(front, i), last);
      PendingAppend(Without(front, i), last);
    }
  }

  /** The heap order of the frontier: smaller bound first, then first pushed. */
  predicate PopsBefore(a: Pending, b: Pending) {
    a.bound < b.bound || (a.bound == b.bound && a.sequence < b.sequence)
  }

  method PopMin(f: seq<Pending>) returns (i: nat)
    requires f != []
    ensures i < |f| && forall j :: 0 <= j < |f| ==> !PopsBefore(f[j], f[i])
  {
    i := 0;
    for j := 1 to |f|
      invariant i < j && forall l :: 0 <= l < j ==> !PopsBefore(f[l], f[i])
    {
      if PopsBefore(f[j], f[i]) {
        i := j;
      }
    }
  }

  /** The top of the heap of candidates: the one that ranks last. */
  method WorstOf(best: seq<Hit>) returns (w: nat)
    requires best != []
    ensures w < |best| && forall j :: 0 <= j < |best| ==> !Before(best[w], best[j])
  {
    w := 0;
    for j := 1 to |best|
      invariant w < j && forall l :: 0 <= l < j ==> !Before(best[w], best[l])
    {
      if Before(best[w], best[j]) {
        w := j;
      }
    }
  }

  /** best holds the k lowest ranks seen; `out` is everything seen or skipped that is not in it. */
  ghost predicate BestOf(best: seq<Hit>, out: seq<Hit>, k: nat) {
    && |best| <= k && (out != [] ==> |best| == k)
    && forall d :: d in out ==> AfterAll(d, best)
  }

  /** Offer one hit: take it while there is room, else only in place of a worse one. */
  method Offer(best: seq<Hit>, ghost out: seq<Hit>, k: nat, x: Hit) returns (best': seq<Hit>, ghost out': seq<Hit>)
    requires k > 0 && BestOf(best, out, k)
    ensures BestOf(best', out', k)
    ensures multiset(best') + multiset(out') == multiset(best) + multiset(out) + multiset{x}
    ensures |best'| == if |best| < k then |best| + 1 else k
  {
    if |best| < k {
      best', out' := best + [x], out;
      return;
    }
    var w := WorstOf(best);
    if Before(x, best[w]) {
      best', out' := best[w := x], out + [best[w]];
      assert multiset(best[w := x]) == multiset(best) - multiset{best[w]} + multiset{x};
      forall d | d in out'
        ensures AfterAll(d, best')
      {
        if d != best[w] {
          assert AfterAll(d, best);
        }
      }
    } else {
      best', out' := best, out + [x];
    }
  }

  /** tau is the largest distance among the candidates. */
  ghost predicate IsReach(tau: real, best: seq<Hit>) {
    && (forall i :: 0 <= i < |best| ==> best[i].distance <= tau)
    && exists i :: 0 <= i < |best| && best[i].distance == tau
  }

  method ScanLeaf(m: Metric, es: seq<Item>, k: nat, best: seq<Hit>, ghost out: seq<Hit>)
    returns (best': seq<Hit>, ghost out': seq<Hit>)
    requires k > 0 && BestOf(best, out, k)
    ensures BestOf(best', out', k) && (|best| == k ==> |best'| == k)
    ensures multiset(best') + multiset(out') == multiset(best) + multiset(out) + multiset(HitsOf(m, es))
  {
    best', out' := best, out;
    assert es[..0] == [];
    for i := 0 to |es|
      invariant BestOf(best', out', k) && (|best| == k ==> |best'| == k)
      invariant multiset(best') + multiset(out') == multiset(best) + multiset(out) + multiset(HitsOf(m, es[..i]))
    {
      assert es[..i + 1][..i] == es[..i];
      best', out' := Offer(best', out', k, HitOf(m, es[i]));
    }
    assert es[..|es|] == es;
  }

  /** Every pending subtree is well formed and its bound is below all its distances. */
  ghost predicate PendingOk(m: Metric, order: nat, p: Pending) {
    && (exists h: nat :: Ok(p.node, order, h))
    && forall it :: it in Items(p.node) ==> p.bound <= m.distance(it.point)
  }

  lemma BoundHolds(m: Metric, n: Node, order: nat, h: nat, sequence: nat)
    requires Admissible(m) && Ok(n, order, h)
    ensures PendingOk(m, order, Pending(m.lowerBound(BoxOf(n)), sequence, n))
  {
    forall it | it in Items(n)
      ensures m.lowerBound(BoxOf(n)) <= m.distance(it.point)
    {
      assert Contains(BoxOf(n), it.point);
    }
  }

  /** What is farther than tau ranks after every candidate. */
  lemma SkippedRankAfter(m: Metric, items: seq<Item>, tau: real, best: seq<Hit>)
    requires IsReach(tau, best) && forall it :: it in items ==> m.distance(it.point) > tau
    ensures forall d :: d in HitsOf(m, items) ==> AfterAll(d, best)
  {
    forall d | d in HitsOf(m, items)
      ensures AfterAll(d, best)
    {
      HitsOfMembers(m, items, d);
    }
  }

  /** Push the children that may still matter; what is skipped goes to `out`. */
  method PushChildren(m: Metric, ghost order: nat, ghost h: nat, cs: seq<Node>, k: nat, tau: real, sequence: nat,
                      f: seq<Pending>, ghost best: seq<Hit>, full: bool, ghost out: seq<Hit>)
    returns (f': seq<Pending>, sequence': nat, ghost out': seq<Hit>)
    requires Admissible(m) && AllOk(cs, order, h) && BestOf(best, out, k)
    requires full <==> |best| == k
    requires full ==> IsReach(tau, best)
    requires forall i :: 0 <= i < |f| ==> PendingOk(m, order, f[i])
    ensures BestOf(best, out', k)
    ensures forall i :: 0 <= i < |f'| ==> PendingOk(m, order, f'[i])
    ensures PendingCount(f') <= PendingCount(f) + NodeCountAll(cs)
    ensures multiset(out') + PendingBag(m, f') ==
            multiset(out) + PendingBag(m, f) + multiset(HitsOf(m, ItemsOf(cs)))
  {
    f', sequence', out' := f, sequence, out;
    PushNone(m, cs);
    hide HitsOf, PendingBag, PendingItems, ItemsOf, NodeCountAll, NodeCount, PendingCount, Ok, Items, IsReach, AfterAll, PendingOk;
    for i := 0 to |cs|
      invariant BestOf(best, out', k)
      invariant forall j :: 0 <= j < |f'| ==> PendingOk(m, order, f'[j])
      invariant PendingCount(f') <= PendingCount(f) + NodeCountAll(cs[..i])
      invariant multiset(out') + PendingBag(m, f') ==
                multiset(out) + PendingBag(m, f) + multiset(HitsOf(m, ItemsOf(cs[..i])))
    {
      var child := cs[i];
      var bound := m.lowerBound(BoxOf(child));
      assert Ok(child, order, h);
      BoundHolds(m, child, order, h, sequence');
      NextChild(m, cs, i);
      if !full || bound <= tau {
        PendingAppend(f', Pending(bound, sequence', child));
        PendingBagAppend(m, f', Pending(bound, sequence', child));
        MoveIn(multiset(out'), PendingBag(m, f'), multiset(out) + PendingBag(m, f),
               multiset(HitsOf(m, ItemsOf(cs[..i]))), multiset(HitsOf(m, Items(child))));
        f', sequence' := f' + [Pending(bound, sequence', child)], sequence' + 1;
      } else {
        SkippedRankAfter(m, Items(child), tau, best);
        MoveIn(multiset(out'), PendingBag(m, f'), multiset(out) + PendingBag(m, f),
               multiset(HitsOf(m, ItemsOf(cs[..i]))), multiset(HitsOf(m, Items(child))));
        out' := out' + HitsOf(m, Items(child));
      }
    }
    assert cs[..|cs|] == cs;
  }

  lemma MoveIn(a: multiset<Hit>, b: multiset<Hit>, start: multiset<Hit>, done: multiset<Hit>, x: multiset<Hit>)
    requires a + b == start + done
    ensures (a + x) + b == start + (done + x) && a + (b + x) == start + (done + x)
  {
    assert (a + x) + b == (a + b) + x && a + (b + x) == (a + b) + x && start + (done + x) == (start + done) + x;
  }

  lemma PushNone(m: Metric, cs: seq<Node>)
    ensures NodeCountAll(cs[..0]) == 0 && HitsOf(m, ItemsOf(cs[..0])) == []
  {
    assert cs[..0] == [];
  }

  lemma NextChild(m: Metric, cs: seq<Node>, i: nat)
    requires i < |cs|
    ensures HitsOf(m, ItemsOf(cs[..i + 1])) == HitsOf(m, ItemsOf(cs[..i])) + HitsOf(m, Items(cs[i]))
    ensures NodeCountAll(cs[..i + 1]) == NodeCountAll(cs[..i]) + NodeCount(cs[i])
  {
    assert cs[..i + 1][..i] == cs[..i];
    HitsOfConcat(m, ItemsOf(cs[..i]), Items(cs[i]));
  }

  lemma PendingRankAfter(m: Metric, order: nat, f: seq<Pending>, bound: real, tau: real, best: seq<Hit>)
    requires forall i :: 0 <= i < |f| ==> PendingOk(m, order, f[i]) && f[i].bound >= bound
    requires bound > tau && IsReach(tau, best)
    ensures forall d :: d in HitsOf(m, PendingItems(f)) ==> AfterAll(d, best)
  {
    forall it | it in PendingItems(f)
      ensures m.distance(it.point) > tau
    {
      PendingItemOf(f, it);
    }
    SkippedRankAfter(m, PendingItems(f), tau, best);
  }

  lemma {:induction false} PendingItemOf(f: seq<Pending>, it: Item)
    requires it in PendingItems(f)
    ensures exists i :: 0 <= i < |f| && it in Items(f[i].node)
  {
    if it in PendingItems(f[..|f| - 1]) {
      PendingItemOf(f[..|f| - 1], it);
      var i :| 0 <= i < |f| - 1 && it in Items(f[..|f| - 1][i].node);
      assert it in Items(f[i].node);
    } else {
      assert it in Items(f[|f| - 1].node);
    }
  }

  function Least(a: nat, b: nat): nat {
    if a < b then a else b
  }

  /** What the search must return: everything sorted by rank, cut after k. */
  function Nearest(m: Metric, items: seq<Item>, k: nat): seq<Hit> {
    var all := SortHits(HitsOf(m, items));
    all[..Least(k, |all|)]
  }

  lemma BestIsNearest(m: Metric, items: seq<Item>, k: nat, best: seq<Hit>, out: seq<Hit>)
    requires BestOf(best, out, k) && multiset(HitsOf(m, items)) == multiset(best) + multiset(out)
    ensures SortHits(best) == Nearest(m, items, k)
  {
    hide HitsOf, AfterAll;
    var all := HitsOf(m, items);
    FrontOfSorted(all, best, out);
    SortSorts(all);
    assert |SortHits(all)| == |multiset(all)| == |best| + |out|;
  }

  /** Nearest first; at equal distance by x, then y, then page, then slot. */
  ghost predicate NoLater(m: Metric, a: Item, b: Item) {
    var d, e := m.distance(a.point), m.distance(b.point);
    d < e || (d == e && (a.point.x < b.point.x || (a.point.x == b.point.x && (a.point.y < b.point.y || (a.point.y == b.point.y &&
      (a.rid.pageId < b.rid.pageId || (a.rid.pageId == b.rid.pageId && a.rid.slot <= b.rid.slot)))))))
  }

  /** s are the items in that order, and the hits are the first k of them with their distances. */
  ghost predicate FirstOf(m: Metric, items: seq<Item>, s: seq<Item>, k: nat, hits: seq<Hit>) {
    && multiset(s) == multiset(items) && (forall i, j :: 0 <= i < j < |s| ==> NoLater(m, s[i], s[j]))
    && |hits| == (if k < |s| then k else |s|)
    && forall i :: 0 <= i < |hits| ==> hits[i] == Hit(s[i].point, s[i].rid, m.distance(s[i].point))
  }

  function ItemsOfHits(hs: seq<Hit>): (items: seq<Item>)
    ensures |items| == |hs| && forall i :: 0 <= i < |hs| ==> items[i] == Item(hs[i].point, hs[i].rid)
  {
    if hs == [] then [] else ItemsOfHits(hs[..|hs| - 1]) + [Item(hs[|hs| - 1].point, hs[|hs| - 1].rid)]
  }

  lemma {:induction false} HitsBack(m: Metric, hs: seq<Hit>, it: Item)
    requires forall x :: x in hs ==> x.distance == m.distance(x.point)
    ensures multiset(ItemsOfHits(hs))[it] == multiset(hs)[HitOf(m, it)]
  {
    if hs != [] {
      HitsBack(m, hs[..|hs| - 1], it);
      BagLast(hs);
      BagLast(ItemsOfHits(hs));
    }
  }

  lemma {:induction false} HitsCount(m: Metric, items: seq<Item>, it: Item)
    ensures multiset(HitsOf(m, items))[HitOf(m, it)] == multiset(items)[it]
  {
    if items != [] {
      HitsCount(m, items[..|items| - 1], it);
      BagLast(items);
    }
  }

  lemma BeforeIsRank(m: Metric, x: Hit, y: Hit)
    requires x.distance == m.distance(x.point) && y.distance == m.distance(y.point) && !Before(y, x)
    ensures NoLater(m, Item(x.point, x.rid), Item(y.point, y.rid))
  {
  }

  lemma DistancesOf(m: Metric, items: seq<Item>, hs: seq<Hit>)
    requires multiset(hs) == multiset(HitsOf(m, items))
    ensures forall x :: x in hs ==> x.distance == m.distance(x.point)
  {
    forall x | x in hs
      ensures x.distance == m.distance(x.point)
    {
      assert x in multiset(hs);
      HitsOfMembers(m, items, x);
    }
  }

  lemma SameItems(m: Metric, items: seq<Item>, hs: seq<Hit>)
    requires multiset(hs) == multiset(HitsOf(m, items)) && forall x :: x in hs ==> x.distance == m.distance(x.point)
    ensures multiset(ItemsOfHits(hs)) == multiset(items)
  {
    hide *;
    forall it: Item
      ensures multiset(ItemsOfHits(hs))[it] == multiset(items)[it]
    {
      HitsBack(m, hs, it);
      HitsCount(m, items, it);
    }
  }

  lemma {:induction false} InRank(m: Metric, hs: seq<Hit>)
    requires Sorted(hs) && forall x :: x in hs ==> x.distance == m.distance(x.point)
    ensures forall i, j :: 0 <= i < j < |hs| ==> NoLater(m, ItemsOfHits(hs)[i], ItemsOfHits(hs)[j])
  {
    hide Before, NoLater;
    forall i, j | 0 <= i < j < |hs|
      ensures NoLater(m, ItemsOfHits(hs)[i], ItemsOfHits(hs)[j])
    {
      assert hs[i] in hs && hs[j] in hs;
      BeforeIsRank(m, hs[i], hs[j]);
    }
  }

  lemma {:induction false} TakeFirst(m: Metric, items: seq<Item>, hs: seq<Hit>, k: nat)
    requires multiset(ItemsOfHits(hs)) == multiset(items) && forall x :: x in hs ==> x.distance == m.distance(x.point)
    requires forall i, j :: 0 <= i < j < |hs| ==> NoLater(m, ItemsOfHits(hs)[i], ItemsOfHits(hs)[j])
    ensures FirstOf(m, items, ItemsOfHits(hs), k, hs[..Least(k, |hs|)])
  {
    hide NoLater;
    forall i | 0 <= i < |hs|
      ensures hs[i] == Hit(ItemsOfHits(hs)[i].point, ItemsOfHits(hs)[i].rid, m.distance(ItemsOfHits(hs)[i].point))
    {
      assert hs[i] in hs;
    }
  }

  lemma NearestTakes(m: Metric, items: seq<Item>, k: nat)
    ensures Nearest(m, items, k) == SortHits(HitsOf(m, items))[..Least(k, |SortHits(HitsOf(m, items))|)]
  {
  }

  /** Sort and take are what they should be. */
  lemma {:induction false} NearestIsFirst(m: Metric, items: seq<Item>, k: nat)
    ensures exists s: seq<Item> :: FirstOf(m, items, s, k, Nearest(m, items, k))
  {
    hide SortHits, HitsOf, Sorted, FirstOf, ItemsOfHits, NoLater;
    var hs := SortHits(HitsOf(m, items));
    SortSorts(HitsOf(m, items));
    DistancesOf(m, items, hs);
    SameItems(m, items, hs);
    InRank(m, hs);
    TakeFirst(m, items, hs, k);
    NearestTakes(m, items, k);
  }

  function AllItems(root: Option<Node>): seq<Item> {
    if root.Some? then Items(root.value) else []
  }

  /** Best-first search with pruning returns the first k of all entries in rank order. */
  method KnnHits(root: Option<Node>, ghost order: nat, ghost h: nat, k: int, m: Metric) returns (hits: Option<seq<Hit>>)
    requires Admissible(m) && (root.Some? ==> Ok(root.value, order, h))
    ensures hits.None? <==> k <= 0
    ensures hits.Some? ==> hits.value == Nearest(m, AllItems(root), k)
    ensures hits.Some? ==> exists s: seq<Item> :: FirstOf(m, AllItems(root), s, k, hits.value)
  {
    if k <= 0 {
      return None;
    }
    NearestIsFirst(m, AllItems(root), k);
    if root.None? {
      return Some([]);
    }
    BoundHolds(m, root.value, order, h, 0);
    var start := Pending(m.lowerBound(BoxOf(root.value)), 0, root.value);
    StartOf(start);
    hide HitsOf, PendingItems, Items, Nearest, SortHits, BestOf, PendingOk, Ok;
    var best;
    ghost var out;
    best, out := SearchFrom(m, order, start, k);
    BestIsNearest(m, Items(root.value), k, best, out);
    hits := Some(SortHits(best));
  }

  /** The main loop, from one node. */
  method SearchFrom(m: Metric, ghost order: nat, start: Pending, k: nat) returns (best: seq<Hit>, ghost out: seq<Hit>)
    requires Admissible(m) && k > 0 && PendingOk(m, order, start)
    ensures BestOf(best, out, k) && multiset(best) + multiset(out) == PendingBag(m, [start])
  {
    ghost var all := HitsOf(m, PendingItems([start]));
    var f := [start];
    var sequence := 1;
    var tau: real;
    best, tau, out := [], 0.0, [];
    NothingPending(m);
    assert PendingBag(m, [start]) == multiset(all);
    hide HitsOf, PendingBag, PendingItems, PendingCount, Ok, IsReach, PendingOk, AfterAll, PopsBefore;
    while f != []
      invariant Searching(m, order, all, f, k, tau, best, out)
      decreases PendingCount(f)
    {
      var i := PopMin(f);
      if |best| == k && f[i].bound > tau {
        PoppedIsLeast(f, i);
        PendingRankAfter(m, order, f, f[i].bound, tau, best);
        out := SkipAll(m, f, k, best, out);
        f := [];
        break;
      }
      f, sequence, best, tau, out := Visit(m, order, all, f, i, k, sequence, tau, best, out);
    }
  }

  lemma PoppedIsLeast(f: seq<Pending>, i: nat)
    requires i < |f| && forall j :: 0 <= j < |f| ==> !PopsBefore(f[j], f[i])
    ensures forall j :: 0 <= j < |f| ==> f[j].bound >= f[i].bound
  {
  }

  lemma SkipAll(m: Metric, f: seq<Pending>, k: nat, best: seq<Hit>, out: seq<Hit>) returns (out': seq<Hit>)
    requires BestOf(best, out, k) && |best| == k
    requires forall d :: d in HitsOf(m, PendingItems(f)) ==> AfterAll(d, best)
    ensures BestOf(best, out', k) && multiset(out') == multiset(out) + PendingBag(m, f)
  {
    hide AfterAll, HitsOf;
    out' := out + HitsOf(m, PendingItems(f));
  }

  /** What holds between two visits. */
  ghost predicate Searching(m: Metric, order: nat, all: seq<Hit>, f: seq<Pending>, k: nat, tau: real,
                            best: seq<Hit>, out: seq<Hit>) {
    && BestOf(best, out, k) && (|best| == k ==> IsReach(tau, best))
    && (forall i :: 0 <= i < |f| ==> PendingOk(m, order, f[i]))
    && multiset(all) == multiset(best) + multiset(out) + PendingBag(m, f)
  }

  /** Take node i from the frontier and read its entries, or push its children. */
  method Visit(m: Metric, ghost order: nat, ghost all: seq<Hit>, f: seq<Pending>, i: nat, k: nat, sequence: nat,
               tau: real, best: seq<Hit>, ghost out: seq<Hit>)
    returns (f': seq<Pending>, sequence': nat, best': seq<Hit>, tau': real, ghost out': seq<Hit>)
    requires Admissible(m) && k > 0 && i < |f| && Searching(m, order, all, f, k, tau, best, out)
    ensures Searching(m, order, all, f', k, tau', best', out')
    ensures PendingCount(f') < PendingCount(f)
  {
    hide HitsOf, PendingBag, PendingItems, PendingCount, NodeCount, Items, Ok, AfterAll, Without, IsReach, PendingOk, BestOf;
    var n := f[i].node;
    PendingWithout(m, f, i);
    NodeOf(n);
    sequence', tau' := sequence, tau;
    f' := WithoutOk(m, order, f, i);
    if n.Leaf? {
      best', out' := ScanLeaf(m, n.entries, k, best, out);
      MoveIn(multiset(best) + multiset(out), PendingBag(m, f'), multiset{}, PendingBag(m, f') + multiset(best) + multiset(out),
             multiset(HitsOf(m, n.entries)));
      if |best'| == k {
        tau' := ReachOf(best');
      }
    } else {
      ghost var h := HeightOf(m, order, f[i]);
      best' := best;
      ghost var rest := f';
      f', sequence', out' := PushChildren(m, order, h, n.children, k, tau, sequence, f', best, |best| == k, out);
      assert multiset(best) + (multiset(out) + PendingBag(m, rest) + multiset(HitsOf(m, Items(n)))) == multiset(all);
      assert multiset(best) + (multiset(out') + PendingBag(m, f')) == multiset(all);
    }
  }

  method WithoutOk(m: Metric, ghost order: nat, f: seq<Pending>, i: nat) returns (f': seq<Pending>)
    requires i < |f| && forall j :: 0 <= j < |f| ==> PendingOk(m, order, f[j])
    ensures f' == Without(f, i) && forall j :: 0 <= j < |f'| ==> PendingOk(m, order, f'[j])
  {
    hide PendingOk;
    f' := Without(f, i);
  }

  method ReachOf(best: seq<Hit>) returns (tau: real)
    requires best != []
    ensures IsReach(tau, best)
  {
    var w := WorstOf(best);
    tau := best[w].distance;
  }

  lemma StartOf(p: Pending)
    ensures PendingItems([p]) == Items(p.node)
  {
    assert [p][..0] == [];
  }

  lemma NothingPending(m: Metric)
    ensures PendingBag(m, []) == multiset{}
  {
  }

  lemma NodeOf(n: Node)
    ensures n.Leaf? ==> Items(n) == n.entries && NodeCount(n) == 1
    ensures n.Internal? ==> Items(n) == ItemsOf(n.children) && NodeCount(n) == 1 + NodeCountAll(n.children)
  {
  }

  lemma HeightOf(m: Metric, order: nat, p: Pending) returns (h: nat)
    requires PendingOk(m, order, p) && p.node.Internal?
    ensures AllOk(p.node.children, order, h)
  {
    var hh: nat :| Ok(p.node, order, hh);
    h := hh - 1;
  }

  // ----- the euclidean metric -----

  /** h is the length of the vector (dx, dy). */
  predicate IsHypot(h: real, dx: real, dy: real) {
    h >= 0.0 && h * h == dx * dx + dy * dy
  }

  /** A length is not negative, the square of it is the sum of the squares, and there is only one. */
  lemma LengthIs(h: real, l: real, dx: real, dy: real)
    ensures IsHypot(h, dx, dy) <==> h >= 0.0 && h * h == dx * dx + dy * dy
    ensures IsHypot(h, dx, dy) && IsHypot(l, dx, dy) ==> h == l
    ensures IsHypot(0.0, 0.0, 0.0)
  {
    if IsHypot(h, dx, dy) && IsHypot(l, dx, dy) {
      SquareOrder(h, l);
      SquareOrder(l, h);
    }
  }

  function AxisGap(lo: real, hi: real, c: real): real {
    Max(Max(lo - c, 0.0), c - hi)
  }

  /** The distance to the nearest point of a box is a lower bound for every point in it. */
  lemma EuclideanBoundIsAdmissible(center: Point, box: MBR, p: Point, bound: real, distance: real)
    requires Contains(box, p)
    requires IsHypot(bound, AxisGap(box.minX, box.maxX, center.x), AxisGap(box.minY, box.maxY, center.y))
    requires IsHypot(distance, center.x - p.x, center.y - p.y)
    ensures bound <= distance
  {
    var gx, gy := AxisGap(box.minX, box.maxX, center.x), AxisGap(box.minY, box.maxY, center.y);
    SquareLeq(gx, center.x - p.x);
    SquareLeq(gy, center.y - p.y);
    SquareOrder(bound, distance);
  }

  lemma SquareLeq(g: real, d: real)
    requires 0.0 <= g && (g <= d || g <= -d)
    ensures g * g <= d * d
  {
    var e := if d >= 0.0 then d else -d;
    assert e * e == d * d;
    assert g * g <= g * e;
    assert g * e <= e * e;
  }

  lemma PositiveProduct(x: real, y: real)
    requires x > 0.0 && y > 0.0
    ensures x * y > 0.0
  {
    assert x * y / x == y;
  }

  lemma SquareOrder(a: real, b: real)
    requires a >= 0.0 && b >= 0.0 && a * a <= b * b
    ensures a <= b
  {
    if a > b {
      SquareStrict(a, b);
    }
  }

  lemma SquareStrict(a: real, b: real)
    requires a > b >= 0.0
    ensures a * a > b * b
  {
    PositiveProduct(a, a - b);
    var p, q, r, s := a * (a - b), a * b, a * a, b * b;
    assert p > 0.0;
    assert p == r - q;
    assert s <= q;
  }

  /** The bound is attained: no larger number bounds the distances of all points of the box. */
  lemma EuclideanBoundIsTight(center: Point, box: MBR, bound: real) returns (p: Point)
    requires box.minX <= box.maxX && box.minY <= box.maxY
    requires IsHypot(bound, AxisGap(box.minX, box.maxX, center.x), AxisGap(box.minY, box.maxY, center.y))
    ensures Contains(box, p) && IsHypot(bound, center.x - p.x, center.y - p.y)
  {
    p := Point(Max(box.minX, Min(box.maxX, center.x)), Max(box.minY, Min(box.maxY, center.y)));
    var gx, gy := AxisGap(box.minX, box.maxX, center.x), AxisGap(box.minY, box.maxY, center.y);
    assert gx == center.x - p.x || gx == p.x - center.x;
    assert gy == center.y - p.y || gy == p.y - center.y;
    assert gx * gx == (center.x - p.x) * (center.x - p.x);
    assert gy * gy == (center.y - p.y) * (center.y - p.y);
  }
}
