/**
 The window and radius traversals with an explicit stack
 (engine/algorithms/spatial/range_query.py): both are the linear filter, in tree order.
 */
module SpatialScan {
  import opened Common
  import opened Sequences
  import opened RTreeNodes
  import Knn

  /** Which entries are wanted, and which boxes may hold wanted entries. */
  datatype Query = Query(keep: Point -> bool, enter: MBR -> bool)

  ghost predicate Sound(q: Query) {
    forall box, p {:trigger Contains(box, p)} :: Contains(box, p) && q.keep(p) ==> q.enter(box)
  }

  function WindowQuery(box: MBR): Query {
    Query(p => Contains(box, p), m => Intersects(m, box))
  }

  function Within(m: Knn.Metric, radius: real): Point -> bool {
    (p: Point) => m.distance(p) <= radius
  }

  function RadiusQuery(m: Knn.Metric, radius: real): Query {
    Query(Within(m, radius), box => m.lowerBound(box) <= radius)
  }

  lemma WindowQuerySound(box: MBR)
    ensures Sound(WindowQuery(box))
    ensures forall p :: WindowQuery(box).keep(p) <==> box.minX <= p.x <= box.maxX && box.minY <= p.y <= box.maxY
  {
  }

  lemma RadiusQuerySound(m: Knn.Metric, radius: real)
    requires Knn.Admissible(m)
    ensures Sound(RadiusQuery(m, radius))
    ensures forall p :: RadiusQuery(m, radius).keep(p) <==> m.distance(p) <= radius
  {
  }

  function Wanted(items: seq<Item>, keep: Point -> bool): seq<Item> {
    if items == [] then []
    else Wanted(items[..|items| - 1], keep) + if keep(items[|items| - 1].point) then [items[|items| - 1]] else []
  }

  lemma WantedAppend(items: seq<Item>, it: Item, keep: Point -> bool)
    ensures Wanted(items + [it], keep) == Wanted(items, keep) + if keep(it.point) then [it] else []
  {
    assert (items + [it])[..|items|] == items;
  }

  lemma {:induction false} WantedConcat(a: seq<Item>, b: seq<Item>, keep: Point -> bool)
    ensures Wanted(a + b, keep) == Wanted(a, keep) + Wanted(b, keep)
  {
    if b == [] {
      assert a + b == a;
    } else {
      hide Wanted;
      var front, last := b[..|b| - 1], b[|b| - 1];
      WantedConcat(a, front, keep);
      WantedAppend(a + front, last, keep);
      WantedAppend(front, last, keep);
      assert b == front + [last];
      assert a + b == (a + front) + [last];
    }
  }

  lemma {:induction false} WantedNone(items: seq<Item>, keep: Point -> bool)
    requires forall it :: it in items ==> !keep(it.point)
    ensures Wanted(items, keep) == []
  {
    if items != [] {
      WantedNone(items[..|items| - 1], keep);
    }
  }

  lemma {:induction false} WantedCount(items: seq<Item>, keep: Point -> bool, it: Item)
    ensures multiset(Wanted(items, keep))[it] == if keep(it.point) then multiset(items)[it] else 0
  {
    if items != [] {
      WantedCount(items[..|items| - 1], keep, it);
      assert items == items[..|items| - 1] + [items[|items| - 1]];
    }
  }

  /** The wanted entries stand at these places, which are all whose point is wanted. */
  ghost predicate KeepsWanted(items: seq<Item>, at: seq<nat>, keep: Point -> bool, found: seq<Item>) {
    && Places(at, |items|) && |found| == |at| && (forall j :: 0 <= j < |at| ==> found[j] == items[at[j]])
    && (forall i {:trigger items[i]} :: 0 <= i < |items| ==> (i in at <==> keep(items[i].point)))
  }

  lemma {:induction false} WantedAt(items: seq<Item>, keep: Point -> bool) returns (at: seq<nat>)
    ensures KeepsWanted(items, at, keep, Wanted(items, keep))
  {
    if items == [] {
      at := [];
    } else {
      var front, last := items[..|items| - 1], items[|items| - 1];
      at := WantedAt(front, keep);
      assert items == front + [last];
      WantedAppend(front, last, keep);
      hide KeepsWanted, Wanted;
      if keep(last.point) {
        WantedOneMore(front, at, last, keep, Wanted(front, keep));
        at := at + [|front|];
      } else {
        UnwantedOneMore(front, at, last, keep, Wanted(front, keep));
        assert Wanted(front, keep) + [] == Wanted(front, keep);
      }
    }
  }

  lemma WantedOneMore(items: seq<Item>, at: seq<nat>, it: Item, keep: Point -> bool, found: seq<Item>)
    requires KeepsWanted(items, at, keep, found) && keep(it.point)
    ensures KeepsWanted(items + [it], at + [|items|], keep, found + [it])
  {
    OneMorePlace(at, |items|);
    PlacesWithin(at, |items|);
    hide Places;
    assert forall i :: 0 <= i < |items| ==> (items + [it])[i] == items[i];
  }

  lemma UnwantedOneMore(items: seq<Item>, at: seq<nat>, it: Item, keep: Point -> bool, found: seq<Item>)
    requires KeepsWanted(items, at, keep, found) && !keep(it.point)
    ensures KeepsWanted(items + [it], at, keep, found)
  {
    OneMorePlace(at, |items|);
    PlacesWithin(at, |items|);
    hide Places;
    assert forall i :: 0 <= i < |items| ==> (items + [it])[i] == items[i];
  }

  // ----- the stack; its top is the last element -----

  function Below(stack: seq<Node>): seq<Item> {
    if stack == [] then [] else Items(stack[|stack| - 1]) + Below(stack[..|stack| - 1])
  }

  function Weight(stack: seq<Node>): nat {
    if stack == [] then 0 else Knn.NodeCount(stack[|stack| - 1]) + Weight(stack[..|stack| - 1])
  }

  function Reverse(cs: seq<Node>): seq<Node> {
    if cs == [] then [] else [cs[|cs| - 1]] + Reverse(cs[..|cs| - 1])
  }

  lemma {:induction false} PushReversed(stack: seq<Node>, cs: seq<Node>)
    ensures Below(stack + Reverse(cs)) == ItemsOf(cs) + Below(stack)
    ensures Weight(stack + Reverse(cs)) == Knn.NodeCountAll(cs) + Weight(stack)
    decreases |cs|
  {
    if cs == [] {
      assert stack + Reverse(cs) == stack;
    } else {
      var front, last := cs[..|cs| - 1], cs[|cs| - 1];
      assert stack + Reverse(cs) == (stack + [last]) + Reverse(front);
      hide Below, Weight, Items, ItemsOf, Knn.NodeCountAll, Knn.NodeCount, Reverse;
      PushReversed(stack + [last], front);
      BelowPush(stack, last);
      ItemsOfLast(cs);
      Associate(ItemsOf(front), Items(last), Below(stack));
    }
  }

  lemma ItemsOfLast(cs: seq<Node>)
    requires cs != []
    ensures ItemsOf(cs) == ItemsOf(cs[..|cs| - 1]) + Items(cs[|cs| - 1])
    ensures Knn.NodeCountAll(cs) == Knn.NodeCountAll(cs[..|cs| - 1]) + Knn.NodeCount(cs[|cs| - 1])
  {
  }

  lemma BelowPush(stack: seq<Node>, n: Node)
    ensures Below(stack + [n]) == Items(n) + Below(stack)
    ensures Weight(stack + [n]) == Knn.NodeCount(n) + Weight(stack)
  {
    assert (stack + [n])[..|stack|] == stack;
  }

  lemma Associate<T>(a: seq<T>, b: seq<T>, c: seq<T>)
    ensures a + (b + c) == (a + b) + c
  {
  }

  ghost predicate OkSome(n: Node, order: nat) {
    exists h: nat :: Ok(n, order, h)
  }

  lemma {:induction false} ReverseKeeps(cs: seq<Node>, order: nat)
    requires forall i :: 0 <= i < |cs| ==> OkSome(cs[i], order)
    ensures forall i :: 0 <= i < |Reverse(cs)| ==> OkSome(Reverse(cs)[i], order)
  {
    hide OkSome;
    if cs != [] {
      ReverseKeeps(cs[..|cs| - 1], order);
    }
  }

  /** The children whose box may hold something; leaving out the others loses nothing wanted. */
  method Promising(cs: seq<Node>, q: Query, ghost order: nat, ghost h: nat) returns (kept: seq<Node>)
    requires Sound(q) && AllOk(cs, order, h)
    ensures forall i :: 0 <= i < |kept| ==> OkSome(kept[i], order)
    ensures Wanted(ItemsOf(kept), q.keep) == Wanted(ItemsOf(cs), q.keep)
    ensures Knn.NodeCountAll(kept) <= Knn.NodeCountAll(cs)
  {
    kept := [];
    Start(cs);
    hide Ok, OkSome, ItemsOf, Items, Wanted, Knn.NodeCountAll, Knn.NodeCount;
    for i := 0 to |cs|
      invariant forall j :: 0 <= j < |kept| ==> OkSome(kept[j], order)
      invariant Wanted(ItemsOf(kept), q.keep) == Wanted(ItemsOf(cs[..i]), q.keep)
      invariant Knn.NodeCountAll(kept) <= Knn.NodeCountAll(cs[..i])
    {
      Consider(cs, i, q, order, h, kept);
      if q.enter(BoxOf(cs[i])) {
        kept := kept + [cs[i]];
      }
    }
    assert cs[..|cs|] == cs;
  }

  lemma Start(cs: seq<Node>)
    ensures ItemsOf(cs[..0]) == [] && Knn.NodeCountAll(cs[..0]) == 0 && ItemsOf([]) == [] && Knn.NodeCountAll([]) == 0
  {
    assert cs[..0] == [];
  }

  lemma Consider(cs: seq<Node>, i: nat, q: Query, order: nat, h: nat, kept: seq<Node>)
    requires Sound(q) && AllOk(cs, order, h) && i < |cs|
    requires Wanted(ItemsOf(kept), q.keep) == Wanted(ItemsOf(cs[..i]), q.keep)
    requires Knn.NodeCountAll(kept) <= Knn.NodeCountAll(cs[..i])
    ensures OkSome(cs[i], order)
    ensures Wanted(ItemsOf(if q.enter(BoxOf(cs[i])) then kept + [cs[i]] else kept), q.keep) == Wanted(ItemsOf(cs[..i + 1]), q.keep)
    ensures Knn.NodeCountAll(if q.enter(BoxOf(cs[i])) then kept + [cs[i]] else kept) <= Knn.NodeCountAll(cs[..i + 1])
  {
    assert Ok(cs[i], order, h);
    hide ItemsOf, Items, Wanted, Knn.NodeCountAll;
    assert cs[..i + 1] == cs[..i] + [cs[i]];
    CountAppend(cs[..i], cs[i]);
    ItemsOfAppend(cs[..i], cs[i]);
    WantedConcat(ItemsOf(cs[..i]), Items(cs[i]), q.keep);
    if q.enter(BoxOf(cs[i])) {
      CountAppend(kept, cs[i]);
      ItemsOfAppend(kept, cs[i]);
      WantedConcat(ItemsOf(kept), Items(cs[i]), q.keep);
    } else {
      WantedNone(Items(cs[i]), q.keep);
    }
  }

  lemma CountAppend(cs: seq<Node>, c: Node)
    ensures Knn.NodeCountAll(cs + [c]) == Knn.NodeCountAll(cs) + Knn.NodeCount(c)
  {
    assert (cs + [c])[..|cs|] == cs;
  }

  /** What has been emitted, and what is still on the stack. */
  ghost predicate Scanning(stack: seq<Node>, found: seq<Item>, all: seq<Item>, q: Query, order: nat) {
    && (forall i :: 0 <= i < |stack| ==> OkSome(stack[i], order))
    && found + Wanted(Below(stack), q.keep) == all
  }

  /** Depth-first traversal; a tree whose root box is not worth entering is skipped at once. */
  method StackScan(root: Option<Node>, q: Query, ghost order: nat, ghost h: nat) returns (found: seq<Item>)
    requires Sound(q) && (root.Some? ==> Ok(root.value, order, h))
    ensures found == Wanted(if root.Some? then Items(root.value) else [], q.keep)
    ensures exists at: seq<nat> :: KeepsWanted(Knn.AllItems(root), at, q.keep, found)
  {
    found := [];
    ghost var at := WantedAt(Knn.AllItems(root), q.keep);
    if root.None? {
      return;
    }
    if !q.enter(BoxOf(root.value)) {
      WantedNone(Items(root.value), q.keep);
      return;
    }
    var stack := [root.value];
    ghost var all := Wanted(Items(root.value), q.keep);
    assert stack[..0] == [];
    assert Below(stack) == Items(root.value);
    assert OkSome(root.value, order);
    hide Wanted, Below, Weight, Ok, OkSome;
    while stack != []
      invariant Scanning(stack, found, all, q, order)
      decreases Weight(stack)
    {
      stack, found := Pop(stack, found, all, q, order);
    }
    BelowNothing(q);
  }

  lemma BelowNothing(q: Query)
    ensures Wanted(Below([]), q.keep) == []
  {
  }

  method Pop(stack: seq<Node>, found: seq<Item>, ghost all: seq<Item>, q: Query, ghost order: nat)
    returns (stack': seq<Node>, found': seq<Item>)
    requires Sound(q) && stack != [] && Scanning(stack, found, all, q, order)
    ensures Scanning(stack', found', all, q, order) && Weight(stack') < Weight(stack)
  {
    var n := stack[|stack| - 1];
    stack', found' := stack[..|stack| - 1], found;
    ghost var rest := Wanted(Below(stack'), q.keep);
    TopFirst(stack, q, order);
    Associate(found, Wanted(Items(n), q.keep), rest);
    hide Wanted, Below, OkSome, Ok, Weight, ItemsOf, Reverse;
    if n.Leaf? {
      var here := Select(n.entries, q);
      found' := found + here;
    } else {
      stack' := PushPromising(stack', n.children, q, order, ChildHeight(n, order));
    }
  }

  method PushPromising(stack: seq<Node>, cs: seq<Node>, q: Query, ghost order: nat, ghost h: nat) returns (stack': seq<Node>)
    requires Sound(q) && AllOk(cs, order, h) && forall i :: 0 <= i < |stack| ==> OkSome(stack[i], order)
    ensures forall i :: 0 <= i < |stack'| ==> OkSome(stack'[i], order)
    ensures Wanted(Below(stack'), q.keep) == Wanted(ItemsOf(cs), q.keep) + Wanted(Below(stack), q.keep)
    ensures Weight(stack') <= Knn.NodeCountAll(cs) + Weight(stack)
  {
    hide Wanted, Below, OkSome, Ok, Weight, ItemsOf, Reverse;
    var kept := Promising(cs, q, order, h);
    PushReversed(stack, kept);
    ReverseKeeps(kept, order);
    WantedConcat(ItemsOf(kept), Below(stack), q.keep);
    stack' := stack + Reverse(kept);
  }

  lemma TopFirst(stack: seq<Node>, q: Query, order: nat)
    requires stack != []
    ensures var n, rest := stack[|stack| - 1], stack[..|stack| - 1];
            && Wanted(Below(stack), q.keep) == Wanted(Items(n), q.keep) + Wanted(Below(rest), q.keep)
            && Weight(stack) == Knn.NodeCount(n) + Weight(rest)
            && (n.Leaf? ==> Items(n) == n.entries && Knn.NodeCount(n) == 1)
            && (n.Internal? ==> Items(n) == ItemsOf(n.children) && Knn.NodeCount(n) == 1 + Knn.NodeCountAll(n.children))
  {
    Knn.NodeOf(stack[|stack| - 1]);
    WantedConcat(Items(stack[|stack| - 1]), Below(stack[..|stack| - 1]), q.keep);
  }

  /** The height of the children. */
  ghost function ChildHeight(n: Node, order: nat): (h: nat)
    requires OkSome(n, order) && n.Internal?
    ensures AllOk(n.children, order, h)
  {
    var hh: nat :| Ok(n, order, hh);
    hh - 1
  }

  method Select(es: seq<Item>, q: Query) returns (found: seq<Item>)
    ensures found == Wanted(es, q.keep)
  {
    found := [];
    for i := 0 to |es|
      invariant found == Wanted(es[..i], q.keep)
    {
      assert es[..i + 1] == es[..i] + [es[i]];
      WantedAppend(es[..i], es[i], q.keep);
      if q.keep(es[i].point) {
        found := found + [es[i]];
      }
    }
    assert es[..|es|] == es;
  }
}
