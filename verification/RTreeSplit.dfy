/** The quadratic split (engine/indexes/rtree/rtree.py, _split and _pick_seeds). */
module RTreeSplit {
  import opened Common
  import opened Sequences
  import opened RTreeNodes

  /** The first position with the largest score. */
  function FirstMax<T>(es: seq<T>, score: T -> real): (i: nat)
    requires |es| > 0
    ensures i < |es|
  {
    if |es| == 1 then 0
    else
      var i := FirstMax(es[..|es| - 1], score);
      if score(es[|es| - 1]) > score(es[i]) then |es| - 1 else i
  }

  lemma {:induction false} FirstMaxIs<T>(es: seq<T>, score: T -> real)
    requires |es| > 0
    ensures forall j :: 0 <= j < |es| ==> score(es[j]) <= score(es[FirstMax(es, score)])
    ensures forall j :: 0 <= j < FirstMax(es, score) ==> score(es[j]) < score(es[FirstMax(es, score)])
  {
    if |es| > 1 {
      FirstMaxIs(es[..|es| - 1], score);
    }
  }

  /** How much more one half would grow than the other by taking a box. */
  function Preference<T>(box: T -> MBR, left: MBR, right: MBR): T -> real {
    x => Gap(box(x), left, right)
  }

  /** The absolute difference of what the two halves would grow by. */
  function Gap(m: MBR, left: MBR, right: MBR): real {
    var d := Enlargement(left, m) - Enlargement(right, m);
    if d < 0.0 then -d else d
  }

  predicate GoesLeft(left: MBR, right: MBR, m: MBR) {
    var dl, dr := Enlargement(left, m), Enlargement(right, m);
    dl < dr || (dl == dr && Area(left) <= Area(right))
  }

  /** How differently two halves would grow by taking a box. */
  ghost function Difference(m: MBR, left: MBR, right: MBR): real {
    if Growth(left, m) >= Growth(right, m) then Growth(left, m) - Growth(right, m) else Growth(right, m) - Growth(left, m)
  }

  /** The half that grows less takes the entry; of two that grow alike the smaller one, of two alike the left one. */
  lemma SentWhere(left: MBR, right: MBR, m: MBR)
    ensures Gap(m, left, right) == Difference(m, left, right)
    ensures GoesLeft(left, right, m) <==>
            Growth(left, m) < Growth(right, m) || (Growth(left, m) == Growth(right, m) && Covered(left) <= Covered(right))
  {
    GrowthIs(left, m);
    GrowthIs(right, m);
  }

  /**
   Hand out the remaining entries: all of them to a half that would otherwise stay too
   small, else the one with the strongest preference to the half that grows less.
   */
  function Distribute<T>(left: seq<T>, right: seq<T>, rest: seq<T>, box: T -> MBR, least: nat): (seq<T>, seq<T>)
    requires |left| > 0 && |right| > 0
    decreases |rest|
  {
    if rest == [] then (left, right)
    else if |left| + |rest| == least then (left + rest, right)
    else if |right| + |rest| == least then (left, right + rest)
    else
      var lb, rb := Cover(left, box), Cover(right, box);
      var i := FirstMax(rest, Preference(box, lb, rb));
      if GoesLeft(lb, rb, box(rest[i])) then Distribute(left + [rest[i]], right, Without(rest, i), box, least)
      else Distribute(left, right + [rest[i]], Without(rest, i), box, least)
  }

  /** Nothing is lost or duplicated and neither half gets too few entries. */
  lemma {:induction false} DistributeKeeps<T>(left: seq<T>, right: seq<T>, rest: seq<T>, box: T -> MBR, least: nat)
    requires |left| > 0 && |right| > 0
    requires |left| + |rest| >= least && |right| + |rest| >= least && |left| + |right| + |rest| >= 2 * least
    ensures var (l, r) := Distribute(left, right, rest, box, least);
            && multiset(l) + multiset(r) == multiset(left) + multiset(right) + multiset(rest)
            && |l| >= least && |r| >= least && |l| > 0 && |r| > 0
            && |l| + |r| == |left| + |right| + |rest|
    decreases |rest|
  {
    if rest == [] || |left| + |rest| == least || |right| + |rest| == least {
      var end := DistributeEnd(left, right, rest, box, least);
    } else {
      DistributeStep(left, right, rest, box, least);
      hide Preference, GoesLeft, FirstMax, Cover, Distribute, Without;
      var lb, rb := Cover(left, box), Cover(right, box);
      var i := FirstMax(rest, Preference(box, lb, rb));
      WithoutBag(rest, i);
      if GoesLeft(lb, rb, box(rest[i])) {
        DistributeKeeps(left + [rest[i]], right, Without(rest, i), box, least);
      } else {
        DistributeKeeps(left, right + [rest[i]], Without(rest, i), box, least);
      }
    }
  }

  lemma DistributeStep<T>(left: seq<T>, right: seq<T>, rest: seq<T>, box: T -> MBR, least: nat)
    requires |left| > 0 && |right| > 0
    requires rest != [] && |left| + |rest| != least && |right| + |rest| != least
    ensures var lb, rb := Cover(left, box), Cover(right, box);
            var i := FirstMax(rest, Preference(box, lb, rb));
            Distribute(left, right, rest, box, least) ==
            if GoesLeft(lb, rb, box(rest[i])) then Distribute(left + [rest[i]], right, Without(rest, i), box, least)
            else Distribute(left, right + [rest[i]], Without(rest, i), box, least)
  {
    hide Preference, GoesLeft, FirstMax, Cover;
  }

  /** Removing the chosen entry by equality removes the chosen position. */
  lemma ChosenIsFirstEqual<T>(rest: seq<T>, score: T -> real, j: nat)
    requires |rest| > 0 && j < FirstMax(rest, score)
    ensures rest[j] != rest[FirstMax(rest, score)]
  {
    FirstMaxIs(rest, score);
  }

  function Wasted<T>(es: seq<T>, box: T -> MBR, i: nat, j: nat): real
    requires i < |es| && j < |es|
  {
    Area(Union(box(es[i]), box(es[j]))) - Area(box(es[i])) - Area(box(es[j]))
  }

  /** What the common box of two covers beyond the two. */
  ghost function Waste(a: MBR, b: MBR): real {
    Growth(a, b) - Covered(b)
  }

  lemma WastedIs<T>(es: seq<T>, box: T -> MBR, i: nat, j: nat)
    requires i < |es| && j < |es|
    ensures Wasted(es, box, i, j) == Waste(box(es[i]), box(es[j]))
  {
    GrowthIs(box(es[i]), box(es[j]));
    GrowthIs(box(es[j]), box(es[j]));
  }

  ghost predicate Seeds<T>(es: seq<T>, box: T -> MBR, a: nat, b: nat) {
    && a < b < |es|
    && (forall i, j :: 0 <= i < j < |es| ==> Waste(box(es[i]), box(es[j])) <= Waste(box(es[a]), box(es[b])))
    && (forall i, j :: 0 <= i < j < |es| && (i < a || (i == a && j < b)) ==> Waste(box(es[i]), box(es[j])) < Waste(box(es[a]), box(es[b])))
  }

  /** The halves that come of handing out all other entries to the first pair that wastes most. */
  ghost predicate QuadraticHalves<T>(es: seq<T>, box: T -> MBR, least: nat, left: seq<T>, right: seq<T>) {
    exists a: nat, b: nat ::
      Seeds(es, box, a, b) && (left, right) == Distribute([es[a]], [es[b]], es[..a] + es[a + 1..b] + es[b + 1..], box, least)
  }

  /** The first pair whose common box wastes the most area. */
  method PickSeeds<T>(es: seq<T>, box: T -> MBR) returns (a: nat, b: nat)
    requires |es| >= 2
    ensures a < b < |es|
    ensures forall i, j :: 0 <= i < j < |es| ==> Wasted(es, box, i, j) <= Wasted(es, box, a, b)
    ensures forall i, j :: 0 <= i < j < |es| && (i < a || (i == a && j < b)) ==> Wasted(es, box, i, j) < Wasted(es, box, a, b)
    ensures Seeds(es, box, a, b)
  {
    hide Wasted, Waste;
    forall i: nat, j: nat | i < j < |es|
      ensures Wasted(es, box, i, j) == Waste(box(es[i]), box(es[j]))
    {
      WastedIs(es, box, i, j);
    }
    a, b := 0, 1;
    for i := 0 to |es|
      invariant a < b < |es| && (a < i || (a == 0 && b == 1))
      invariant forall k, l :: 0 <= k < i && k < l < |es| ==> Wasted(es, box, k, l) <= Wasted(es, box, a, b)
      invariant forall k, l :: 0 <= k < l < |es| && (k < a || (k == a && l < b)) ==> Wasted(es, box, k, l) < Wasted(es, box, a, b)
    {
      for j := i + 1 to |es|
        invariant a < b < |es| && (a < i || (a == 0 && b == 1) || (a == i && b < j))
        invariant forall k, l :: 0 <= k < i && k < l < |es| ==> Wasted(es, box, k, l) <= Wasted(es, box, a, b)
        invariant forall l :: i < l < j ==> Wasted(es, box, i, l) <= Wasted(es, box, a, b)
        invariant forall k, l :: 0 <= k < l < |es| && (k < a || (k == a && l < b)) ==> Wasted(es, box, k, l) < Wasted(es, box, a, b)
      {
        if Wasted(es, box, i, j) > Wasted(es, box, a, b) {
          a, b := i, j;
        }
      }
    }
  }

  /** The two halves of an overfull list of entries, with their boxes. */
  method QuadraticSplit<T>(es: seq<T>, box: T -> MBR, least: nat)
    returns (left: seq<T>, leftBox: MBR, right: seq<T>, rightBox: MBR)
    requires |es| >= 2 && 1 <= least && |es| > 2 * least
    ensures |left| >= least && |right| >= least && |left| + |right| == |es|
    ensures multiset(left) + multiset(right) == multiset(es)
    ensures leftBox == Cover(left, box) && rightBox == Cover(right, box)
    ensures QuadraticHalves(es, box, least, left, right)
  {
    hide Wasted, Waste, Preference, GoesLeft, FirstMax;
    var a, b := PickSeeds(es, box);
    left, right := [es[a]], [es[b]];
    leftBox, rightBox := box(es[a]), box(es[b]);
    var rest := es[..a] + es[a + 1..b] + es[b + 1..];
    ghost var rest0 := rest;
    WithoutSeeds(es, a, b);
    DistributeKeeps(left, right, rest, box, least);
    hide Cover, Distribute, Without;
    while rest != []
      invariant |left| > 0 && |right| > 0
      invariant leftBox == Cover(left, box) && rightBox == Cover(right, box)
      invariant Distribute(left, right, rest, box, least) == Distribute([es[a]], [es[b]], rest0, box, least)
      decreases |rest|
    {
      if |left| + |rest| == least {
        ghost var end := DistributeEnd(left, right, rest, box, least);
        leftBox, left := ExtendAll(left, leftBox, rest, box);
        rest := [];
        end := DistributeEnd(left, right, rest, box, least);
      } else if |right| + |rest| == least {
        ghost var end := DistributeEnd(left, right, rest, box, least);
        rightBox, right := ExtendAll(right, rightBox, rest, box);
        rest := [];
        end := DistributeEnd(left, right, rest, box, least);
      } else {
        DistributeStep(left, right, rest, box, least);
        var i := PickNext(rest, box, leftBox, rightBox);
        WithoutBag(rest, i);
        var entry := rest[i];
        if GoesLeft(leftBox, rightBox, box(entry)) {
          leftBox := Union(leftBox, box(entry));
          CoverAppend(left, entry, box);
          left := left + [entry];
        } else {
          rightBox := Union(rightBox, box(entry));
          CoverAppend(right, entry, box);
          right := right + [entry];
        }
        rest := Without(rest, i);
      }
    }
    ghost var end := DistributeEnd(left, right, rest, box, least);
    assert Seeds(es, box, a, b) && (left, right) == Distribute([es[a]], [es[b]], es[..a] + es[a + 1..b] + es[b + 1..], box, least);
  }

  lemma DistributeEnd<T>(left: seq<T>, right: seq<T>, rest: seq<T>, box: T -> MBR, least: nat) returns (end: (seq<T>, seq<T>))
    requires |left| > 0 && |right| > 0
    requires rest == [] || |left| + |rest| == least || |right| + |rest| == least
    ensures end == Distribute(left, right, rest, box, least)
    ensures end == if rest == [] then (left, right) else if |left| + |rest| == least then (left + rest, right) else (left, right + rest)
  {
    end := Distribute(left, right, rest, box, least);
  }

  lemma WithoutSeeds<T>(es: seq<T>, a: nat, b: nat)
    requires a < b < |es|
    ensures multiset(es) == multiset([es[a]]) + multiset([es[b]]) + multiset(es[..a] + es[a + 1..b] + es[b + 1..])
  {
    assert es == es[..a] + [es[a]] + es[a + 1..b] + [es[b]] + es[b + 1..];
  }

  lemma CoverAppend<T>(es: seq<T>, e: T, box: T -> MBR)
    requires |es| > 0
    ensures Cover(es + [e], box) == Union(Cover(es, box), box(e))
  {
    assert (es + [e])[..|es|] == es;
  }

  method ExtendAll<T>(es: seq<T>, m: MBR, more: seq<T>, box: T -> MBR) returns (m': MBR, es': seq<T>)
    requires |es| > 0 && m == Cover(es, box)
    ensures es' == es + more && m' == Cover(es', box)
  {
    m', es' := m, es;
    for i := 0 to |more|
      invariant es' == es + more[..i] && m' == Cover(es', box)
    {
      CoverAppend(es', more[i], box);
      assert es + more[..i + 1] == (es + more[..i]) + [more[i]];
      m', es' := Union(m', box(more[i])), es' + [more[i]];
    }
    assert more[..|more|] == more;
  }

  method PickNext<T>(rest: seq<T>, box: T -> MBR, left: MBR, right: MBR) returns (best: nat)
    requires |rest| > 0
    ensures best == FirstMax(rest, Preference(box, left, right)) && best < |rest|
    ensures forall j :: 0 <= j < |rest| ==> Difference(box(rest[j]), left, right) <= Difference(box(rest[best]), left, right)
    ensures forall j :: 0 <= j < best ==> Difference(box(rest[j]), left, right) < Difference(box(rest[best]), left, right)
  {
    hide Preference, Difference, Gap;
    best := 0;
    ghost var score := Preference(box, left, right);
    for i := 1 to |rest|
      invariant best == FirstMax(rest[..i], score)
    {
      assert rest[..i + 1][..i] == rest[..i];
      PreferenceOf(box, left, right, rest[i]);
      PreferenceOf(box, left, right, rest[best]);
      if Gap(box(rest[i]), left, right) > Gap(box(rest[best]), left, right) {
        best := i;
      }
    }
    assert rest[..|rest|] == rest;
    FirstMaxIs(rest, score);
    forall j | 0 <= j < |rest|
      ensures score(rest[j]) == Difference(box(rest[j]), left, right)
    {
      PreferenceOf(box, left, right, rest[j]);
      SentWhere(left, right, box(rest[j]));
    }
  }

  lemma PreferenceOf<T>(box: T -> MBR, left: MBR, right: MBR, x: T)
    ensures Preference(box, left, right)(x) == Gap(box(x), left, right)
  {
  }
}
