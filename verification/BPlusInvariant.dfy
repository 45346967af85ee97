/**
 The invariant of the paged B+ tree and the proof that one split keeps it.

 The tree is described flat: `levels[h]` lists the nodes at height h from left to right,
 and every node has a key interval [lo, hi]. One node may be exempt from the size rule:
 a node that has just received one entry too many and is about to be cut.
 */
module BPlusInvariant {
  import opened Common
  import opened BPlusPages

  type Pages = map<nat, Page>

  datatype Bound = NegInf | Fin(key: Key) | PosInf

  predicate Le(a: Bound, b: Bound) {
    a.NegInf? || b.PosInf? || (a.Fin? && b.Fin? && a.key <= b.key)
  }

  /** What the pages stand for: the nodes by height, and the interval each may hold. */
  datatype Shape = Shape(levels: seq<seq<nat>>, level: map<nat, nat>, lo: map<nat, Bound>, hi: map<nat, Bound>)

  // ----- reading pages -----

  function Children(P: Pages, id: nat): seq<nat> {
    if id in P && P[id].InternalPage? then P[id].children else []
  }

  function ChildrenOf(P: Pages): nat -> seq<nat> {
    (id: nat) => Children(P, id)
  }

  function Entries(P: Pages, id: nat): seq<Entry> {
    if id in P && P[id].LeafPage? then P[id].entries else []
  }

  function EntriesOf(P: Pages): nat -> seq<Entry> {
    (id: nat) => Entries(P, id)
  }

  /** Everything f holds for these ids, in their order. */
  function Flat<T>(f: nat -> seq<T>, ids: seq<nat>): seq<T> {
    if ids == [] then [] else f(ids[0]) + Flat(f, ids[1..])
  }

  /** The entries of these leaves, from left to right. */
  function AllEntries(P: Pages, ids: seq<nat>): seq<Entry> {
    Flat(EntriesOf(P), ids)
  }

  predicate NoDup(s: seq<nat>) {
    forall i, j :: 0 <= i < j < |s| ==> s[i] != s[j]
  }

  predicate SortedKeys(ks: seq<Key>) {
    forall i, j :: 0 <= i < j < |ks| ==> ks[i] <= ks[j]
  }

  /** The order in which a leaf keeps its entries: key, then page, then slot. */
  predicate EntryLe(a: Entry, b: Entry) {
    a.key < b.key || (a.key == b.key && (a.rid.pageId < b.rid.pageId
      || (a.rid.pageId == b.rid.pageId && a.rid.slot <= b.rid.slot)))
  }

  predicate SortedEntries(es: seq<Entry>) {
    forall i, j :: 0 <= i < j < |es| ==> EntryLe(es[i], es[j])
  }

  // ----- the invariant -----

  ghost predicate LevelsOk(s: Shape, root: nat) {
    && |s.levels| >= 1
    && s.levels[|s.levels| - 1] == [root]
    && (forall h, i :: 0 <= h < |s.levels| && 0 <= i < |s.levels[h]|
          ==> s.levels[h][i] in s.level && s.level[s.levels[h][i]] == h)
    && (forall id {:trigger s.level[id]} :: id in s.level ==> s.level[id] < |s.levels|)
    && (forall id {:trigger OnLevel(s, id)} :: id in s.level ==> OnLevel(s, id))
    && (forall h {:trigger NoDup(s.levels[h])} :: 0 <= h < |s.levels| ==> NoDup(s.levels[h]))
    && s.lo.Keys == s.level.Keys && s.hi.Keys == s.level.Keys
  }

  ghost predicate OnLevel(s: Shape, id: nat)
    requires id in s.level
  {
    s.level[id] < |s.levels| && id in s.levels[s.level[id]]
  }

  ghost predicate KindsOk(P: Pages, s: Shape) {
    forall id {:trigger id in s.level} :: id in s.level ==>
      && id in P && id != 0
      && (s.level[id] == 0 ==> P[id].LeafPage?)
      && (s.level[id] > 0 ==> P[id].InternalPage? && |P[id].children| == |P[id].keys| + 1)
  }

  ghost predicate ChildLinked(P: Pages, s: Shape, id: nat, child: nat)
    requires id in s.level
  {
    && child in s.level && s.level[child] + 1 == s.level[id]
    && child in P && P[child].parent == Some(id)
  }

  ghost predicate ParentLinked(P: Pages, s: Shape, id: nat) {
    && id in P && P[id].parent.Some?
    && P[id].parent.value in s.level && id in Children(P, P[id].parent.value)
  }

  /** Parent ids stored in the pages name the real parents. */
  ghost predicate LinksOk(P: Pages, s: Shape, root: nat) {
    && (forall id, j {:trigger ChildLinked(P, s, id, Children(P, id)[j])} ::
          id in s.level && 0 <= j < |Children(P, id)| ==> ChildLinked(P, s, id, Children(P, id)[j]))
    && (forall id {:trigger ParentLinked(P, s, id)} :: id in s.level && id != root ==> ParentLinked(P, s, id))
    && root in P && P[root].parent == None
  }

  /** The nodes of one level are the children of the level above, in order. */
  ghost predicate KidsOk(P: Pages, s: Shape) {
    forall h {:trigger Flat(ChildrenOf(P), s.levels[h])} :: 1 <= h < |s.levels| ==> Flat(ChildrenOf(P), s.levels[h]) == s.levels[h - 1]
  }

  predicate NodeFits(c: Codec, page: Page) {
    && (page.LeafPage? ==> LeafFits(c, page.entries))
    && (page.InternalPage? ==> InternalFits(c, page.keys) && |page.keys| >= 1)
  }

  /** Each key of the page could be stored in a leaf of its own. */
  ghost predicate KeysFitAlone(c: Codec, page: Page) {
    && (page.InternalPage? ==> forall j :: 0 <= j < |page.keys| ==> FitsAlone(c, page.keys[j]))
    && (page.LeafPage? ==> forall j :: 0 <= j < |page.entries| ==> FitsAlone(c, page.entries[j].key))
  }

  ghost predicate SizesOk(c: Codec, P: Pages, s: Shape, exempt: set<nat>) {
    && (forall id {:trigger NodeFits(c, P[id])} :: id in s.level && id in P && id !in exempt ==> NodeFits(c, P[id]))
    && (forall id {:trigger KeysFitAlone(c, P[id])} :: id in s.level && id in P ==> KeysFitAlone(c, P[id]))
  }

  ghost predicate LeafBounds(P: Pages, s: Shape, id: nat)
    requires id in s.level && s.lo.Keys == s.level.Keys && s.hi.Keys == s.level.Keys
  {
    && SortedEntries(Entries(P, id))
    && forall j :: 0 <= j < |Entries(P, id)| ==>
         Le(s.lo[id], Fin(Entries(P, id)[j].key)) && Le(Fin(Entries(P, id)[j].key), s.hi[id])
  }

  ghost predicate NodeBounds(P: Pages, s: Shape, id: nat)
    requires id in s.level && s.lo.Keys == s.level.Keys && s.hi.Keys == s.level.Keys
    requires id in P && P[id].InternalPage? && |P[id].children| == |P[id].keys| + 1
  {
    var ks := P[id].keys;
    var cs := P[id].children;
    && SortedKeys(ks)
    && (forall j :: 0 <= j < |ks| ==> Le(s.lo[id], Fin(ks[j])) && Le(Fin(ks[j]), s.hi[id]))
    && (forall j {:trigger ChildBounds(s, id, ks, cs[j], j)} :: 0 <= j < |cs| ==> ChildBounds(s, id, ks, cs[j], j))
  }

  ghost predicate ChildBounds(s: Shape, id: nat, ks: seq<Key>, child: nat, j: nat)
    requires id in s.level && s.lo.Keys == s.level.Keys && s.hi.Keys == s.level.Keys && j <= |ks|
  {
    && child in s.level
    && s.lo[child] == (if j == 0 then s.lo[id] else Fin(ks[j - 1]))
    && s.hi[child] == (if j == |ks| then s.hi[id] else Fin(ks[j]))
  }

  ghost predicate IntervalOk(s: Shape, id: nat)
    requires id in s.level && s.lo.Keys == s.level.Keys && s.hi.Keys == s.level.Keys
  {
    Le(s.lo[id], s.hi[id]) && !s.lo[id].PosInf? && !s.hi[id].NegInf?
  }

  /** Separators bound their subtrees, non-strictly on both sides. */
  ghost predicate BoundsOk(P: Pages, s: Shape, root: nat)
    requires s.lo.Keys == s.level.Keys && s.hi.Keys == s.level.Keys && KindsOk(P, s)
  {
    && root in s.level && s.lo[root] == NegInf && s.hi[root] == PosInf
    && (forall id {:trigger IntervalOk(s, id)} :: id in s.level ==> IntervalOk(s, id))
    && (forall id {:trigger LeafBounds(P, s, id)} :: id in s.level && s.level[id] == 0 ==> LeafBounds(P, s, id))
    && (forall id {:trigger NodeBounds(P, s, id)} :: id in s.level && s.level[id] > 0 ==> NodeBounds(P, s, id))
  }

  /** Following `next` from the first leaf visits the leaves from left to right. */
  ghost predicate ChainOk(P: Pages, s: Shape) {
    && |s.levels| >= 1 && s.lo.Keys == s.level.Keys && s.hi.Keys == s.level.Keys
    && forall i {:trigger LeafLinked(P, s, i)} :: 0 <= i < |s.levels[0]| ==> LeafLinked(P, s, i)
  }

  ghost predicate LeafLinked(P: Pages, s: Shape, i: nat)
    requires |s.levels| >= 1 && i < |s.levels[0]| && s.lo.Keys == s.level.Keys && s.hi.Keys == s.level.Keys
  {
    var L := s.levels[0];
    && L[i] in P && P[L[i]].LeafPage? && L[i] in s.level
    && P[L[i]].next == (if i + 1 < |L| then Some(L[i + 1]) else None)
    && (i + 1 < |L| ==> L[i + 1] in s.level && s.hi[L[i]] == s.lo[L[i + 1]])
  }

  ghost predicate Inv(c: Codec, P: Pages, s: Shape, root: nat, exempt: set<nat>) {
    && LevelsOk(s, root)
    && KindsOk(P, s)
    && LinksOk(P, s, root)
    && KidsOk(P, s)
    && SizesOk(c, P, s, exempt)
    && BoundsOk(P, s, root)
    && ChainOk(P, s)
  }

  // ----- lists of node ids -----

  function InsAfter(s: seq<nat>, n: nat, r: nat): seq<nat> {
    if s == [] then [] else if s[0] == n then [n, r] + s[1..] else [s[0]] + InsAfter(s[1..], n, r)
  }

  function IndexOf(s: seq<nat>, x: nat): (i: nat)
    requires x in s
    ensures i < |s| && s[i] == x && x !in s[..i]
  {
    if s[0] == x then 0 else
      var k := IndexOf(s[1..], x);
      assert s[..k + 1] == [s[0]] + s[1..][..k];
      k + 1
  }

  lemma {:induction false} InsAfterAt(s: seq<nat>, i: nat, r: nat)
    requires i < |s| && s[i] !in s[..i]
    ensures InsAfter(s, s[i], r) == s[..i + 1] + [r] + s[i + 1..]
  {
    if i > 0 {
      assert s[..i] == [s[0]] + s[1..][..i - 1];
      assert s[0] in s[..i];
      assert s[1..][i - 1] !in s[1..][..i - 1];
      InsAfterAt(s[1..], i - 1, r);
    }
  }

  lemma InsAfterNoDup(s: seq<nat>, n: nat, r: nat)
    requires NoDup(s) && n in s && r !in s
    ensures NoDup(InsAfter(s, n, r))
    ensures forall x :: x in InsAfter(s, n, r) <==> x in s || x == r
  {
    var i := IndexOf(s, n);
    InsAfterAt(s, i, r);
    var t := s[..i + 1] + [r] + s[i + 1..];
    forall x | x in s
      ensures x in t
    {
      var k :| 0 <= k < |s| && s[k] == x;
      assert t[if k <= i then k else k + 1] == x;
    }
    assert t[i + 1] == r;
  }

  lemma {:induction false} FlatAppend<T>(f: nat -> seq<T>, a: seq<nat>, b: seq<nat>)
    ensures Flat(f, a + b) == Flat(f, a) + Flat(f, b)
  {
    if a == [] {
      assert a + b == b;
    } else {
      assert (a + b)[1..] == a[1..] + b;
      FlatAppend(f, a[1..], b);
    }
  }

  lemma {:induction false} FlatFrame<T>(f: nat -> seq<T>, g: nat -> seq<T>, ids: seq<nat>)
    requires forall x :: x in ids ==> f(x) == g(x)
    ensures Flat(f, ids) == Flat(g, ids)
  {
    if ids != [] {
      FlatFrame(f, g, ids[1..]);
    }
  }

  lemma FlatCons<T>(f: nat -> seq<T>, x: nat, rest: seq<nat>)
    ensures Flat(f, [x] + rest) == f(x) + Flat(f, rest)
  {
    assert ([x] + rest)[1..] == rest;
  }

  lemma Assoc<T>(a: seq<T>, b: seq<T>, d: seq<T>)
    ensures a + (b + d) == (a + b) + d
  {
  }

  lemma FlatAround<T>(f: nat -> seq<T>, ids: seq<nat>, i: nat)
    requires i < |ids|
    ensures Flat(f, ids) == Flat(f, ids[..i]) + f(ids[i]) + Flat(f, ids[i + 1..])
  {
    hide Flat;
    assert ids == ids[..i] + ([ids[i]] + ids[i + 1..]);
    FlatAppend(f, ids[..i], [ids[i]] + ids[i + 1..]);
    FlatCons(f, ids[i], ids[i + 1..]);
    Assoc(Flat(f, ids[..i]), f(ids[i]), Flat(f, ids[i + 1..]));
  }

  lemma FlatPair<T>(f: nat -> seq<T>, n: nat, r: nat, b: seq<nat>)
    ensures Flat(f, [n, r] + b) == (f(n) + f(r)) + Flat(f, b)
  {
    assert [n, r] + b == [n] + ([r] + b);
    FlatCons(f, n, [r] + b);
    FlatCons(f, r, b);
    Assoc(f(n), f(r), Flat(f, b));
  }

  /** Cutting n into n and r, without changing what they hold together, changes nothing else. */
  lemma FlatCut<T>(f: nat -> seq<T>, g: nat -> seq<T>, ids: seq<nat>, n: nat, r: nat)
    requires NoDup(ids) && n in ids && r !in ids
    requires forall x :: x in ids && x != n ==> f(x) == g(x)
    requires g(n) + g(r) == f(n)
    ensures Flat(g, InsAfter(ids, n, r)) == Flat(f, ids)
  {
    hide Flat;
    var i := IndexOf(ids, n);
    InsAfterAt(ids, i, r);
    var t := ids[..i + 1] + [r] + ids[i + 1..];
    var a, b := ids[..i], ids[i + 1..];
    FlatAround(f, ids, i);
    FlatFrame(f, g, a);
    FlatFrame(f, g, b);
    assert t == a + ([n, r] + b);
    FlatAppend(g, a, [n, r] + b);
    FlatPair(g, n, r, b);
    Assoc(Flat(g, a), g(n) + g(r), Flat(g, b));
  }

  lemma {:induction false} InsAfterConcat(a: seq<nat>, b: seq<nat>, d: seq<nat>, n: nat, r: nat)
    requires n !in a && n in b
    ensures InsAfter(a + b + d, n, r) == a + InsAfter(b, n, r) + d
  {
    var i := IndexOf(b, n);
    var s := a + b + d;
    var k := |a| + i;
    assert s[..k] == a + b[..i];
    assert s[k] == n;
    InsAfterAt(s, k, r);
    InsAfterAt(b, i, r);
    assert s[..k + 1] == a + b[..i + 1];
    assert s[k + 1..] == b[i + 1..] + d;
  }

  lemma NotInPrefix(a: seq<nat>, b: seq<nat>, d: seq<nat>, n: nat)
    requires NoDup(a + b + d) && n in b
    ensures n !in a
  {
    var j := IndexOf(b, n);
    var s := a + b + d;
    forall k | 0 <= k < |a|
      ensures a[k] != n
    {
      assert s[k] == a[k] && s[|a| + j] == n;
    }
  }

  /** Linking r after its sibling n, below q, puts r after n in the list of all children. */
  lemma FlatLink(f: nat -> seq<nat>, g: nat -> seq<nat>, ids: seq<nat>, q: nat, n: nat, r: nat)
    requires NoDup(ids) && q in ids && n in f(q)
    requires NoDup(Flat(f, ids))
    requires forall x :: x in ids && x != q ==> f(x) == g(x)
    requires g(q) == InsAfter(f(q), n, r)
    ensures Flat(g, ids) == InsAfter(Flat(f, ids), n, r)
  {
    var i := IndexOf(ids, q);
    FlatAround(f, ids, i);
    FlatAround(g, ids, i);
    FlatFrame(f, g, ids[..i]);
    FlatFrame(f, g, ids[i + 1..]);
    var A, B := Flat(f, ids[..i]), Flat(f, ids[i + 1..]);
    NotInPrefix(A, f(q), B, n);
    InsAfterConcat(A, f(q), B, n, r);
  }
}
