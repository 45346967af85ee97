/**
 What the pages of an extendible hash index mean, and why every step of its operations
 keeps that meaning: which directory slots point to which bucket, what each bucket may
 hold, where overflow is allowed, and which entries are stored in all.
 */
module HashTable {
  import opened Common
  import opened HashPages

  /** A bucket: the hash suffix it is labelled with and its pages, overflow included. */
  datatype Group = Group(suffix: nat, chain: seq<nat>)

  /** The pages, the directory as one sequence, the buckets by first page, the entries stored. */
  datatype Table = Table(
    pageSize: nat, hash: Key -> nat, maxDepth: nat,
    pages: map<nat, Page>, depth: nat, dir: seq<nat>, buckets: map<nat, Group>, contents: multiset<Entry>)

  function Depth(pages: map<nat, Page>, b: nat): nat {
    if b in pages && pages[b].Bucket? then pages[b].depth else 0
  }

  /** How often e is on page p. */
  function Times(pages: map<nat, Page>, p: nat, e: Entry): nat {
    if p in pages && pages[p].Bucket? then multiset(pages[p].entries)[e] else 0
  }

  /** How often e is on the pages of a chain. */
  function Held(pages: map<nat, Page>, chain: seq<nat>, e: Entry): nat {
    if chain == [] then 0
    else Held(pages, chain[..|chain| - 1], e) + Times(pages, chain[|chain| - 1], e)
  }

  /** The k-th page of bucket b is a well-formed bucket page linked to the next one. */
  ghost predicate PageOk(T: Table, b: nat, k: nat)
    requires b in T.buckets && k < |T.buckets[b].chain|
  {
    var c := T.buckets[b].chain;
    && c[k] != NO_OVERFLOW && c[k] in T.pages && T.pages[c[k]].Bucket? && Measured(T.pageSize, T.pages[c[k]])
    && T.pages[c[k]].depth == Depth(T.pages, b)
    && T.pages[c[k]].overflow == if k + 1 < |c| then c[k + 1] else NO_OVERFLOW
  }

  /** It holds only keys whose hash ends in the label of the bucket. */
  ghost predicate KeysOk(T: Table, b: nat, k: nat)
    requires b in T.buckets && k < |T.buckets[b].chain|
  {
    var c := T.buckets[b].chain;
    c[k] in T.pages && T.pages[c[k]].Bucket? &&
    forall e :: e in T.pages[c[k]].entries ==> T.hash(e.key) % Pow2(Depth(T.pages, b)) == T.buckets[b].suffix
  }

  /** Overflow pages exist only at the maximum depth. */
  ghost predicate GroupOk(T: Table, b: nat)
    requires b in T.buckets
  {
    var c := T.buckets[b].chain;
    && |c| >= 1 && c[0] == b
    && Depth(T.pages, b) <= T.depth && T.buckets[b].suffix < Pow2(Depth(T.pages, b))
    && (|c| > 1 ==> Depth(T.pages, b) == T.maxDepth)
    && (forall k {:trigger PageOk(T, b, k)} :: 0 <= k < |c| ==> PageOk(T, b, k))
    && (forall k {:trigger KeysOk(T, b, k)} :: 0 <= k < |c| ==> KeysOk(T, b, k))
    && (forall j, k :: 0 <= j < k < |c| ==> c[j] != c[k])
  }

  /** No page belongs to two buckets. */
  ghost predicate Apart(T: Table, a: nat, b: nat)
    requires a in T.buckets && b in T.buckets
  {
    a != b ==> forall j, k :: 0 <= j < |T.buckets[a].chain| && 0 <= k < |T.buckets[b].chain| ==>
                 T.buckets[a].chain[j] != T.buckets[b].chain[k]
  }

  /** Slot i points to bucket b exactly when i ends in the label of b. */
  ghost predicate Points(T: Table, i: nat, b: nat)
    requires i < |T.dir| && b in T.buckets
  {
    T.dir[i] == b <==> i % Pow2(Depth(T.pages, b)) == T.buckets[b].suffix
  }

  ghost predicate DirectoryOk(T: Table) {
    && T.depth <= T.maxDepth && |T.dir| == Pow2(T.depth)
    && (forall i :: 0 <= i < |T.dir| ==> T.dir[i] in T.buckets)
    && (forall i, b {:trigger Points(T, i, b)} :: 0 <= i < |T.dir| && b in T.buckets ==> Points(T, i, b))
  }

  ghost predicate BucketsOk(T: Table) {
    && (forall b {:trigger GroupOk(T, b)} :: b in T.buckets ==> GroupOk(T, b))
    && (forall a, b {:trigger Apart(T, a, b)} :: a in T.buckets && b in T.buckets ==> Apart(T, a, b))
  }

  /** The chain of pages where a key belongs. */
  function ChainFor(T: Table, key: Key): seq<nat>
    requires |T.dir| > 0
  {
    var b := T.dir[T.hash(key) % |T.dir|];
    if b in T.buckets then T.buckets[b].chain else []
  }

  /** The entries on the first page of the bucket where a key belongs. */
  function HomeEntries(T: Table, key: Key): seq<Entry>
    requires |T.dir| > 0
  {
    var b := T.dir[T.hash(key) % |T.dir|];
    if b in T.pages && T.pages[b].Bucket? then T.pages[b].entries else []
  }

  /** They all agree with the key on as many bits as the bucket has a label. */
  lemma HomeSharesSuffix(T: Table, key: Key, b: nat)
    requires Inv(T) && b == T.dir[T.hash(key) % |T.dir|] && b in T.pages && T.pages[b].Bucket?
    ensures HomeEntries(T, key) == T.pages[b].entries
    ensures Filter(HomeEntries(T, key), SharesSuffix(T.hash, key, T.pages[b].depth)) == T.pages[b].entries
  {
    hide Pow2, Filter;
    var home := Lookup(T, key);
    assert KeysOk(T, b, 0);
    FilterAll(T.pages[b].entries, SharesSuffix(T.hash, key, T.pages[b].depth));
  }

  /** The pages hold exactly the contents: each entry in the bucket its key belongs to. */
  ghost predicate ContentsOk(T: Table)
    requires |T.dir| > 0
  {
    forall e {:trigger T.contents[e]} :: T.contents[e] == Held(T.pages, ChainFor(T, e.key), e)
  }

  ghost predicate Inv(T: Table) {
    DirectoryOk(T) && BucketsOk(T) && ContentsOk(T)
  }

  // ----- counting -----

  lemma {:induction false} HeldFrame(pages: map<nat, Page>, pages': map<nat, Page>, c: seq<nat>, e: Entry)
    requires forall k :: 0 <= k < |c| ==> Times(pages, c[k], e) == Times(pages', c[k], e)
    ensures Held(pages, c, e) == Held(pages', c, e)
  {
    if c != [] {
      HeldFrame(pages, pages', c[..|c| - 1], e);
    }
  }

  /** A change of one page of a chain changes the count by what that page gained or lost. */
  lemma {:induction false} HeldUpdate(pages: map<nat, Page>, pages': map<nat, Page>, c: seq<nat>, k: nat, e: Entry)
    requires k < |c|
    requires forall j :: 0 <= j < |c| && j != k ==> Times(pages, c[j], e) == Times(pages', c[j], e)
    ensures Held(pages', c, e) + Times(pages, c[k], e) == Held(pages, c, e) + Times(pages', c[k], e)
  {
    if k == |c| - 1 {
      HeldFrame(pages, pages', c[..|c| - 1], e);
    } else {
      HeldUpdate(pages, pages', c[..|c| - 1], k, e);
    }
  }

  lemma {:induction false} HeldZero(pages: map<nat, Page>, c: seq<nat>, e: Entry)
    requires forall k :: 0 <= k < |c| ==> Times(pages, c[k], e) == 0
    ensures Held(pages, c, e) == 0
  {
    if c != [] {
      HeldZero(pages, c[..|c| - 1], e);
    }
  }

  // ----- where a key belongs -----

  /** The label decides: the bucket whose suffix the hash ends in is the one looked up. */
  lemma SuffixFinds(T: Table, key: Key, b: nat)
    requires DirectoryOk(T) && b in T.buckets && Depth(T.pages, b) <= T.depth
    ensures T.dir[T.hash(key) % |T.dir|] == b <==> T.hash(key) % Pow2(Depth(T.pages, b)) == T.buckets[b].suffix
  {
    var h := T.hash(key);
    ModMod(h, Depth(T.pages, b), T.depth);
    assert Points(T, h % |T.dir|, b);
  }

  lemma Lookup(T: Table, key: Key) returns (b: nat)
    requires DirectoryOk(T) && BucketsOk(T)
    ensures b == T.dir[T.hash(key) % |T.dir|] && b in T.buckets && GroupOk(T, b)
    ensures ChainFor(T, key) == T.buckets[b].chain
    ensures T.hash(key) % Pow2(Depth(T.pages, b)) == T.buckets[b].suffix
  {
    b := T.dir[T.hash(key) % |T.dir|];
    assert GroupOk(T, b);
    SuffixFinds(T, key, b);
  }

  // ----- what a step does not touch -----

  ghost predicate SameGroup(T: Table, T': Table, b: nat)
    requires b in T.buckets
  {
    && T'.pageSize == T.pageSize && T'.hash == T.hash && T'.maxDepth == T.maxDepth && T.depth <= T'.depth
    && b in T'.buckets && T'.buckets[b] == T.buckets[b]
    && forall j :: 0 <= j < |T.buckets[b].chain| && T.buckets[b].chain[j] in T.pages ==>
         && T.buckets[b].chain[j] in T'.pages
         && T'.pages[T.buckets[b].chain[j]] == T.pages[T.buckets[b].chain[j]]
  }

  lemma GroupFrame(T: Table, T': Table, b: nat)
    requires b in T.buckets && GroupOk(T, b) && SameGroup(T, T', b)
    ensures GroupOk(T', b) && Depth(T'.pages, b) == Depth(T.pages, b)
    ensures forall e :: Held(T'.pages, T'.buckets[b].chain, e) == Held(T.pages, T.buckets[b].chain, e)
  {
    hide Pow2, Held, Measured;
    var c := T.buckets[b].chain;
    assert PageOk(T, b, 0);
    forall j | 0 <= j < |c|
      ensures c[j] in T.pages && PageOk(T', b, j) && KeysOk(T', b, j)
    {
      assert PageOk(T, b, j) && KeysOk(T, b, j);
    }
    forall e: Entry
      ensures Held(T'.pages, c, e) == Held(T.pages, c, e)
    {
      HeldFrame(T.pages, T'.pages, c, e);
    }
  }

  lemma PagesOfGroup(T: Table, b: nat)
    requires b in T.buckets && GroupOk(T, b)
    ensures forall j :: 0 <= j < |T.buckets[b].chain| ==>
              T.buckets[b].chain[j] in T.pages && T.pages[T.buckets[b].chain[j]].Bucket?
  {
    hide KeysOk, Measured;
    forall j | 0 <= j < |T.buckets[b].chain|
      ensures T.buckets[b].chain[j] in T.pages && T.pages[T.buckets[b].chain[j]].Bucket?
    {
      assert PageOk(T, b, j);
    }
  }

  lemma ApartFrame(T: Table, T': Table, a: nat, c: nat)
    requires a in T.buckets && c in T.buckets && Apart(T, a, c) && T'.buckets == T.buckets
    ensures Apart(T', a, c)
  {
  }

  lemma DirectoryFrame(T: Table, T': Table)
    requires DirectoryOk(T) && T'.dir == T.dir && T'.depth == T.depth && T'.maxDepth == T.maxDepth
    requires T'.buckets.Keys == T.buckets.Keys
    requires forall b :: b in T.buckets ==>
               T'.buckets[b].suffix == T.buckets[b].suffix && Depth(T'.pages, b) == Depth(T.pages, b)
    ensures DirectoryOk(T')
  {
    hide Pow2, Depth;
    forall i, b | 0 <= i < |T'.dir| && b in T'.buckets
      ensures Points(T', i, b)
    {
      assert Points(T, i, b);
    }
    forall i | 0 <= i < |T'.dir|
      ensures T'.dir[i] in T'.buckets
    {
      assert T.dir[i] in T.buckets.Keys;
    }
  }

  // ----- changing the entries of one page -----

  /**
   Page k of bucket b is rewritten: same depth and link, keys that belong there; the
   contents change by exactly what the page gained or lost.
   */
  lemma RewriteKeepsInv(T: Table, b: nat, k: nat, p: Page, contents: multiset<Entry>, T': Table)
    requires Inv(T) && b in T.buckets && k < |T.buckets[b].chain|
    requires T.buckets[b].chain[k] in T.pages && T.pages[T.buckets[b].chain[k]].Bucket?
    requires p.Bucket? && Measured(T.pageSize, p)
    requires p.depth == T.pages[T.buckets[b].chain[k]].depth && p.overflow == T.pages[T.buckets[b].chain[k]].overflow
    requires forall e :: e in p.entries ==> T.hash(e.key) % Pow2(Depth(T.pages, b)) == T.buckets[b].suffix
    requires forall e :: contents[e] + Times(T.pages, T.buckets[b].chain[k], e) == T.contents[e] + multiset(p.entries)[e]
    requires T' == T.(pages := T.pages[T.buckets[b].chain[k] := p], contents := contents)
    ensures Inv(T')
  {
    hide Pow2, Held, Measured, GroupOk, Points, Apart;
    DirectoryFrame(T, T');
    RewriteKeepsBuckets(T, b, k, p, T');
    forall e: Entry
      ensures T'.contents[e] == Held(T'.pages, ChainFor(T', e.key), e)
    {
      RewriteCounts(T, b, k, p, T', e);
    }
  }

  lemma RewriteKeepsBuckets(T: Table, b: nat, k: nat, p: Page, T': Table)
    requires DirectoryOk(T) && BucketsOk(T) && b in T.buckets && k < |T.buckets[b].chain|
    requires T.buckets[b].chain[k] in T.pages && T.pages[T.buckets[b].chain[k]].Bucket?
    requires p.Bucket? && Measured(T.pageSize, p)
    requires p.depth == T.pages[T.buckets[b].chain[k]].depth && p.overflow == T.pages[T.buckets[b].chain[k]].overflow
    requires forall e :: e in p.entries ==> T.hash(e.key) % Pow2(Depth(T.pages, b)) == T.buckets[b].suffix
    requires T' == T.(pages := T.pages[T.buckets[b].chain[k] := p], contents := T'.contents)
    ensures BucketsOk(T')
  {
    hide Pow2, Measured;
    var id := T.buckets[b].chain[k];
    assert GroupOk(T, b);
    assert PageOk(T, b, k);
    forall a | a in T'.buckets
      ensures GroupOk(T', a)
    {
      assert GroupOk(T, a) && Apart(T, a, b);
      if a != b {
        GroupFrame(T, T', a);
      } else {
        forall j | 0 <= j < |T'.buckets[a].chain|
          ensures PageOk(T', a, j) && KeysOk(T', a, j)
        {
          assert PageOk(T, a, j) && KeysOk(T, a, j);
        }
      }
    }
    forall a, c | a in T'.buckets && c in T'.buckets
      ensures Apart(T', a, c)
    {
      assert Apart(T, a, c);
    }
  }

  lemma RewriteCounts(T: Table, b: nat, k: nat, p: Page, T': Table, e: Entry)
    requires Inv(T) && b in T.buckets && k < |T.buckets[b].chain|
    requires T.buckets[b].chain[k] in T.pages && T.pages[T.buckets[b].chain[k]].Bucket? && p.Bucket?
    requires p.depth == T.pages[T.buckets[b].chain[k]].depth
    requires e in p.entries ==> T.hash(e.key) % Pow2(Depth(T.pages, b)) == T.buckets[b].suffix
    requires T'.contents[e] + Times(T.pages, T.buckets[b].chain[k], e) == T.contents[e] + multiset(p.entries)[e]
    requires T' == T.(pages := T.pages[T.buckets[b].chain[k] := p], contents := T'.contents)
    ensures T'.contents[e] == Held(T'.pages, ChainFor(T', e.key), e)
  {
    hide Pow2, Measured, Held;
    var id := T.buckets[b].chain[k];
    var q := Lookup(T, e.key);
    assert GroupOk(T, b) && PageOk(T, b, k) && KeysOk(T, b, k);
    if q == b {
      HeldUpdate(T.pages, T'.pages, T.buckets[b].chain, k, e);
    } else {
      assert Apart(T, q, b);
      SuffixFinds(T, e.key, b);
      assert Times(T.pages, id, e) == 0 && multiset(p.entries)[e] == 0;
      HeldFrame(T.pages, T'.pages, T.buckets[q].chain, e);
    }
  }

  // ----- doubling the directory -----

  lemma TwinPoints(T: Table, T': Table, i: nat, b: nat)
    requires DirectoryOk(T) && b in T.buckets && GroupOk(T, b)
    requires T' == T.(dir := T.dir + T.dir, depth := T.depth + 1) && i < |T'.dir|
    ensures Points(T', i, b)
  {
    hide Held, Measured, PageOk, KeysOk, Depth;
    var m := |T.dir|;
    ModMod(i, Depth(T.pages, b), T.depth);
    ShiftMod(if i < m then i else i - m, m);
    assert Points(T, i % m, b);
  }

  /** Every new slot points where its twin without the new front bit points. */
  lemma DoubleKeepsInv(T: Table, T': Table)
    requires Inv(T) && T.depth < T.maxDepth
    requires T' == T.(dir := T.dir + T.dir, depth := T.depth + 1)
    ensures Inv(T')
  {
    hide Held, Measured, PageOk, KeysOk, Apart;
    var m := |T.dir|;
    assert |T'.dir| == Pow2(T'.depth) == 2 * m;
    forall b | b in T'.buckets
      ensures GroupOk(T', b)
    {
      assert GroupOk(T, b);
      GroupFrame(T, T', b);
    }
    forall a, c | a in T'.buckets && c in T'.buckets
      ensures Apart(T', a, c)
    {
      ApartFrame(T, T', a, c);
    }
    forall i: nat, b | i < |T'.dir| && b in T'.buckets
      ensures Points(T', i, b)
    {
      TwinPoints(T, T', i, b);
    }
    forall e: Entry
      ensures ChainFor(T', e.key) == ChainFor(T, e.key)
    {
      var h := T.hash(e.key);
      OneMoreBit(h, m);
    }
  }

  // ----- splitting a bucket -----

  /** Bucket b of local depth l is cut in two by bit l of the hash; n gets the ones. */
  ghost predicate SplitInto(T: Table, b: nat, n: nat, p0: Page, p1: Page, T': Table) {
    && b in T.buckets && b in T.pages && T.pages[b].Bucket? && n != b
    && p0.Bucket? && p1.Bucket? && Measured(T.pageSize, p0) && Measured(T.pageSize, p1)
    && (var l, s := T.pages[b].depth, T.buckets[b].suffix;
        && p0.depth == l + 1 && p1.depth == l + 1 && p0.overflow == NO_OVERFLOW && p1.overflow == NO_OVERFLOW
        && p0.entries == Filter(T.pages[b].entries, BitIs(T.hash, l, 0))
        && p1.entries == Filter(T.pages[b].entries, BitIs(T.hash, l, 1))
        && |T'.dir| == |T.dir|
        && (forall i :: 0 <= i < |T.dir| ==> T'.dir[i] == if i % Pow2(l + 1) == s + Pow2(l) then n else T.dir[i])
        && T' == T.(pages := T.pages[b := p0][n := p1],
                    dir := T'.dir,
                    buckets := T.buckets[b := Group(s, [b])][n := Group(s + Pow2(l), [n])]))
  }

  lemma SplitKeepsInv(T: Table, b: nat, n: nat, p0: Page, p1: Page, T': Table)
    requires Inv(T) && SplitInto(T, b, n, p0, p1, T')
    requires T.pages[b].depth < T.depth && n != NO_OVERFLOW
    requires n !in T.pages && n !in T.buckets
    ensures Inv(T')
  {
    hide GroupOk, Apart, Points, SplitInto, Held;
    SplitKeepsBuckets(T, b, n, p0, p1, T');
    SplitKeepsDirectory(T, b, n, p0, p1, T');
    forall e: Entry
      ensures T'.contents[e] == Held(T'.pages, ChainFor(T', e.key), e)
    {
      SplitCounts(T, b, n, p0, p1, T', e);
    }
  }

  lemma SplitKeepsDirectory(T: Table, b: nat, n: nat, p0: Page, p1: Page, T': Table)
    requires Inv(T) && SplitInto(T, b, n, p0, p1, T')
    requires T.pages[b].depth < T.depth && n !in T.pages && n !in T.buckets
    ensures DirectoryOk(T')
  {
    hide Held, Measured, Filter, ContentsOk;
    var l, s := T.pages[b].depth, T.buckets[b].suffix;
    assert GroupOk(T, b);
    forall i: nat, q | i < |T'.dir| && q in T'.buckets
      ensures Points(T', i, q) && T'.dir[i] in T'.buckets
    {
      assert Points(T, i, b);
      OneMoreBit(i, Pow2(l));
      if q != n {
        assert Points(T, i, q);
        assert q != b ==> Depth(T'.pages, q) == Depth(T.pages, q);
      }
    }
  }

  /** Each entry of the split page goes where its longer suffix says, and nowhere else. */
  lemma SplitSorts(T: Table, b: nat, n: nat, p0: Page, p1: Page, T': Table, e: Entry)
    requires BucketsOk(T) && SplitInto(T, b, n, p0, p1, T')
    ensures e in p0.entries ==> T.hash(e.key) % Pow2(T.pages[b].depth + 1) == T.buckets[b].suffix
    ensures e in p1.entries ==> T.hash(e.key) % Pow2(T.pages[b].depth + 1) == T.buckets[b].suffix + Pow2(T.pages[b].depth)
    ensures e in T.pages[b].entries ==> T.hash(e.key) % Pow2(T.pages[b].depth) == T.buckets[b].suffix
    ensures multiset(p0.entries)[e] ==
      if (T.hash(e.key) / Pow2(T.pages[b].depth)) % 2 == 0 then multiset(T.pages[b].entries)[e] else 0
    ensures multiset(p1.entries)[e] ==
      if (T.hash(e.key) / Pow2(T.pages[b].depth)) % 2 == 1 then multiset(T.pages[b].entries)[e] else 0
  {
    hide Measured, Filter, Held, Apart;
    var l := T.pages[b].depth;
    assert GroupOk(T, b) && KeysOk(T, b, 0);
    FilterCount(T.pages[b].entries, BitIs(T.hash, l, 0), e);
    FilterCount(T.pages[b].entries, BitIs(T.hash, l, 1), e);
    assert e in p0.entries <==> multiset(p0.entries)[e] > 0;
    assert e in p1.entries <==> multiset(p1.entries)[e] > 0;
    assert e in T.pages[b].entries <==> multiset(T.pages[b].entries)[e] > 0;
    hide *;
    OneMoreBit(T.hash(e.key), Pow2(l));
  }

  lemma SplitKeepsBuckets(T: Table, b: nat, n: nat, p0: Page, p1: Page, T': Table)
    requires Inv(T) && SplitInto(T, b, n, p0, p1, T')
    requires T.pages[b].depth < T.depth && n != NO_OVERFLOW && n !in T.pages && n !in T.buckets
    ensures BucketsOk(T')
  {
    hide Held, Measured, ContentsOk, Filter;
    var l, s := T.pages[b].depth, T.buckets[b].suffix;
    assert GroupOk(T, b) && PageOk(T, b, 0) && KeysOk(T, b, 0);
    forall e: Entry
      ensures e in p0.entries ==> T.hash(e.key) % Pow2(l + 1) == s
      ensures e in p1.entries ==> T.hash(e.key) % Pow2(l + 1) == s + Pow2(l)
    {
      SplitSorts(T, b, n, p0, p1, T', e);
    }
    assert GroupOk(T', b) by {
      assert PageOk(T', b, 0) && KeysOk(T', b, 0);
    }
    assert GroupOk(T', n) by {
      assert PageOk(T', n, 0) && KeysOk(T', n, 0);
    }
    forall a | a in T.buckets && a != b
      ensures GroupOk(T', a)
    {
      assert GroupOk(T, a) && Apart(T, a, b);
      GroupFrame(T, T', a);
    }
    forall a, c | a in T'.buckets && c in T'.buckets
      ensures Apart(T', a, c)
    {
      SplitKeepsApart(T, b, n, p0, p1, T', a, c);
    }
  }

  lemma SplitKeepsApart(T: Table, b: nat, n: nat, p0: Page, p1: Page, T': Table, a: nat, c: nat)
    requires BucketsOk(T) && SplitInto(T, b, n, p0, p1, T') && n !in T.pages && n !in T.buckets
    requires a in T'.buckets && c in T'.buckets
    ensures Apart(T', a, c)
  {
    hide Held, Measured, Filter, KeysOk;
    forall q | q in T.buckets
      ensures n !in T.buckets[q].chain && q in T.buckets[q].chain
    {
      assert GroupOk(T, q);
      forall j | 0 <= j < |T.buckets[q].chain|
        ensures T.buckets[q].chain[j] != n
      {
        assert PageOk(T, q, j);
      }
    }
    if a in T.buckets && c in T.buckets {
      assert Apart(T, a, c);
    }
  }

  lemma SplitCounts(T: Table, b: nat, n: nat, p0: Page, p1: Page, T': Table, e: Entry)
    requires Inv(T) && SplitInto(T, b, n, p0, p1, T')
    requires T.pages[b].depth < T.depth && n !in T.pages && n !in T.buckets
    ensures T'.contents[e] == Held(T'.pages, ChainFor(T', e.key), e)
  {
    var l, s := T.pages[b].depth, T.buckets[b].suffix;
    var q, q' := SplitHome(T, b, n, p0, p1, T', e.key);
    hide Measured, Filter, DirectoryOk;
    assert T.buckets[b].chain == [b] by {
      assert GroupOk(T, b);
    }
    assert T.contents[e] == Held(T.pages, ChainFor(T, e.key), e);
    if q == b {
      SplitSorts(T, b, n, p0, p1, T', e);
      assert Held(T.pages, [b], e) == Times(T.pages, b, e);
      assert Held(T'.pages, [q'], e) == Times(T'.pages, q', e);
    } else {
      assert Apart(T, q, b) && GroupOk(T, q);
      forall j | 0 <= j < |T.buckets[q].chain|
        ensures Times(T.pages, T.buckets[q].chain[j], e) == Times(T'.pages, T.buckets[q].chain[j], e)
      {
        assert PageOk(T, q, j);
      }
      HeldFrame(T.pages, T'.pages, T.buckets[q].chain, e);
    }
  }

  /** A key of the split bucket is looked up in the half its next bit names; all others where they were. */
  lemma SplitHome(T: Table, b: nat, n: nat, p0: Page, p1: Page, T': Table, key: Key) returns (q: nat, q': nat)
    requires Inv(T) && SplitInto(T, b, n, p0, p1, T')
    requires T.pages[b].depth < T.depth && n !in T.pages && n !in T.buckets
    ensures q in T.buckets && q' in T'.buckets && |T'.dir| > 0
    ensures q == T.dir[T.hash(key) % |T.dir|] && q' == T'.dir[T.hash(key) % |T'.dir|]
    ensures ChainFor(T, key) == T.buckets[q].chain && ChainFor(T', key) == T'.buckets[q'].chain
    ensures q' == if q == b && (T.hash(key) / Pow2(T.pages[b].depth)) % 2 == 1 then n else q
  {
    hide Measured, Filter, ContentsOk, Held;
    var l, s := T.pages[b].depth, T.buckets[b].suffix;
    var h := T.hash(key);
    q := Lookup(T, key);
    q' := T'.dir[h % |T'.dir|];
    assert GroupOk(T, b);
    assert Points(T, h % |T.dir|, b);
    OneMoreBit(h, Pow2(l));
    ModMod(h, l, T.depth);
    ModMod(h, l + 1, T.depth);
  }

  // ----- overflow -----

  /** A new page with one entry is linked behind the last page of a full bucket at maximum depth. */
  ghost predicate Chained(T: Table, b: nat, n: nat, p: Page, e: Entry, T': Table) {
    && b in T.buckets && |T.buckets[b].chain| > 0
    && (var c := T.buckets[b].chain; var last := c[|c| - 1];
        && last in T.pages && T.pages[last].Bucket?
        && p.Bucket? && Measured(T.pageSize, p) && p.entries == [e] && p.overflow == NO_OVERFLOW && p.depth == T.maxDepth
        && T' == T.(pages := T.pages[n := p][last := T.pages[last].(overflow := n)],
                    buckets := T.buckets[b := Group(T.buckets[b].suffix, c + [n])],
                    contents := T.contents + multiset{e}))
  }

  lemma ChainedKeepsInv(T: Table, b: nat, n: nat, p: Page, e: Entry, T': Table)
    requires Inv(T) && Chained(T, b, n, p, e, T')
    requires n !in T.pages && n !in T.buckets && n != NO_OVERFLOW
    requires Depth(T.pages, b) == T.maxDepth
    requires T.dir[T.hash(e.key) % |T.dir|] == b
    ensures Inv(T')
  {
    hide Pow2, Held, Points, Measured;
    forall q | q in T.buckets
      ensures Depth(T'.pages, q) == Depth(T.pages, q)
    {
      assert GroupOk(T, q) && PageOk(T, q, 0);
    }
    DirectoryFrame(T, T');
    hide GroupOk, Apart, Depth;
    ChainedKeepsBuckets(T, b, n, p, e, T');
    forall x: Entry
      ensures T'.contents[x] == Held(T'.pages, ChainFor(T', x.key), x)
    {
      ChainedCounts(T, b, n, p, e, T', x);
    }
  }

  lemma ChainedKeepsBuckets(T: Table, b: nat, n: nat, p: Page, e: Entry, T': Table)
    requires DirectoryOk(T) && BucketsOk(T) && Chained(T, b, n, p, e, T')
    requires n !in T.pages && n !in T.buckets && n != NO_OVERFLOW
    requires Depth(T.pages, b) == T.maxDepth
    requires T.dir[T.hash(e.key) % |T.dir|] == b
    ensures BucketsOk(T')
  {
    hide Pow2, Held;
    var c := T.buckets[b].chain;
    var home := Lookup(T, e.key);
    forall a | a in T.buckets
      ensures n !in T.buckets[a].chain && a in T.pages
    {
      assert GroupOk(T, a) && PageOk(T, a, 0);
      forall j | 0 <= j < |T.buckets[a].chain|
        ensures T.buckets[a].chain[j] != n
      {
        assert PageOk(T, a, j);
      }
    }
    forall a | a in T.buckets && a != b
      ensures GroupOk(T', a)
    {
      assert GroupOk(T, a) && Apart(T, a, b);
      GroupFrame(T, T', a);
    }
    assert GroupOk(T', b) by {
      forall j | 0 <= j < |T'.buckets[b].chain|
        ensures PageOk(T', b, j) && KeysOk(T', b, j)
      {
        if j < |c| {
          assert PageOk(T, b, j) && KeysOk(T, b, j);
        }
      }
    }
    forall a, q | a in T'.buckets && q in T'.buckets
      ensures Apart(T', a, q)
    {
      assert Apart(T, a, q);
    }
  }

  lemma ChainedCounts(T: Table, b: nat, n: nat, p: Page, e: Entry, T': Table, x: Entry)
    requires Inv(T) && Chained(T, b, n, p, e, T')
    requires n !in T.pages && n !in T.buckets
    requires T.dir[T.hash(e.key) % |T.dir|] == b
    ensures T'.contents[x] == Held(T'.pages, ChainFor(T', x.key), x)
  {
    hide Pow2, Measured, PageOk, KeysOk, Points, Apart, Held;
    var c := T.buckets[b].chain;
    var q := Lookup(T, x.key);
    var d := T.buckets[q].chain;
    PagesOfGroup(T, q);
    hide GroupOk, DirectoryOk, BucketsOk;
    assert forall j :: 0 <= j < |d| ==> Times(T.pages, d[j], x) == Times(T'.pages, d[j], x);
    HeldFrame(T.pages, T'.pages, d, x);
    assert T.contents[x] == Held(T.pages, d, x);
    hide ContentsOk;
    if q == b {
      HeldAppend(T'.pages, c, n, x);
    }
  }

  lemma HeldAppend(pages: map<nat, Page>, c: seq<nat>, n: nat, e: Entry)
    ensures Held(pages, c + [n], e) == Held(pages, c, e) + Times(pages, n, e)
  {
    assert (c + [n])[..|c|] == c;
  }

  // ----- pages outside the buckets -----

  /** Directory and metadata pages do not matter here. */
  lemma OtherPagesKeepInv(T: Table, T': Table)
    requires Inv(T) && T' == T.(pages := T'.pages)
    requires forall p :: p in T.pages && T.pages[p].Bucket? ==> p in T'.pages && T'.pages[p] == T.pages[p]
    ensures Inv(T')
  {
    hide Pow2, Held, Measured, Points, PageOk, KeysOk, GroupOk, Depth, Apart;
    forall a | a in T.buckets
      ensures GroupOk(T', a) && Depth(T'.pages, a) == Depth(T.pages, a)
      ensures forall e :: Held(T'.pages, T.buckets[a].chain, e) == Held(T.pages, T.buckets[a].chain, e)
    {
      assert GroupOk(T, a);
      PagesOfGroup(T, a);
      GroupFrame(T, T', a);
    }
    forall a, c | a in T'.buckets && c in T'.buckets
      ensures Apart(T', a, c)
    {
      ApartFrame(T, T', a, c);
    }
    DirectoryFrame(T, T');
    forall e: Entry
      ensures T'.contents[e] == Held(T'.pages, ChainFor(T', e.key), e)
    {
      assert T.contents[e] == Held(T.pages, ChainFor(T, e.key), e);
      assert T.dir[T.hash(e.key) % |T.dir|] in T.buckets;
    }
  }
}
