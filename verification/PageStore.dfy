/**
 Saving an R-tree with one page per node and loading it back
 (engine/indexes/rtree/_page_store.py, _page_codec.py).

 The store remembers on which page each node object was last saved. A save gives a known node
 its old page and any other node a new one, so pages are overwritten only by the node they
 belong to; pages of nodes that were pruned are never used again. A load reads any file: it
 checks the kind of each page, that child page numbers lie in the file and were not visited
 before, that no child is empty, and that the box stored for a child is the one recomputed
 from its entries. What it returns is therefore exactly what the file holds, in new objects.
 For a tree with exact boxes, as the R-tree keeps them, none of these checks refuses.
 Objects have an identity besides their contents; the functions Contents and Ids separate the two.
 */
module PageStore {
  import opened Common
  import opened RTreeNodes

  /** A node in memory: an object, so it has an identity besides its contents. */
  datatype Object =
    | LeafObject(id: nat, entries: seq<Item>, mbr: Option<MBR>)
    | InternalObject(id: nat, children: seq<Object>, mbr: Option<MBR>)

  datatype Page =
    | Metadata(order: nat, root: Option<nat>)
    | LeafPage(maxEntries: nat, entries: seq<Item>)
    | InternalPage(maxEntries: nat, refs: seq<(MBR, nat)>)

  const HEADER_SIZE: nat := 16
  const LEAF_ENTRY_SIZE: nat := 32
  const INTERNAL_ENTRY_SIZE: nat := 40
  const MIN_ORDER: nat := 2

  /** The orders that fit a page, for leaves and for internal nodes. */
  predicate OrderOk(pageSize: nat, order: int) {
    && MIN_ORDER <= order
    && order <= (if pageSize < HEADER_SIZE then 0 else (pageSize - HEADER_SIZE) / LEAF_ENTRY_SIZE)
    && order <= (if pageSize < HEADER_SIZE then 0 else (pageSize - HEADER_SIZE) / INTERNAL_ENTRY_SIZE)
  }

  /** The header and as many entries as the order says, of either kind, fit one page. */
  lemma OrderInBytes(pageSize: nat, order: int)
    ensures OrderOk(pageSize, order) <==> 2 <= order && 16 + 32 * order <= pageSize && 16 + 40 * order <= pageSize
  {
  }

  // ----- identities -----

  /** The tree without identities. */
  function Contents(n: Object): Node
    decreases n
  {
    match n
    case LeafObject(_, es, m) => Leaf(es, m)
    case InternalObject(_, cs, m) => Internal(ContentsOf(cs), m)
  }

  function ContentsOf(cs: seq<Object>): seq<Node>
    decreases cs
  {
    if cs == [] then [] else ContentsOf(cs[..|cs| - 1]) + [Contents(cs[|cs| - 1])]
  }

  function Ids(n: Object): set<nat>
    decreases n
  {
    match n
    case LeafObject(i, _, _) => {i}
    case InternalObject(i, cs, _) => {i} + IdsOf(cs)
  }

  function IdsOf(cs: seq<Object>): set<nat>
    decreases cs
  {
    if cs == [] then {} else IdsOf(cs[..|cs| - 1]) + Ids(cs[|cs| - 1])
  }

  /** No object occurs twice: the tree is a tree. */
  predicate Separate(n: Object)
    decreases n
  {
    n.InternalObject? ==> n.id !in IdsOf(n.children) && SeparateAll(n.children)
  }

  predicate SeparateAll(cs: seq<Object>)
    decreases cs
  {
    cs != [] ==>
      && SeparateAll(cs[..|cs| - 1]) && Separate(cs[|cs| - 1])
      && IdsOf(cs[..|cs| - 1]) !! Ids(cs[|cs| - 1])
  }

  lemma {:induction false} ContentsAt(cs: seq<Object>)
    ensures |ContentsOf(cs)| == |cs| && forall i :: 0 <= i < |cs| ==> ContentsOf(cs)[i] == Contents(cs[i])
  {
    if cs != [] {
      ContentsAt(cs[..|cs| - 1]);
    }
  }

  // ----- what is on the pages -----

  /** Page numbers of nodes: two nodes never share one. */
  ghost predicate Injective(ids: map<nat, nat>) {
    forall a, b :: a in ids && b in ids && ids[a] == ids[b] ==> a == b
  }

  ghost predicate InFile(ids: map<nat, nat>, pageCount: nat) {
    forall a :: a in ids ==> 0 < ids[a] < pageCount
  }

  function BoxOfObject(n: Object): MBR {
    if n.mbr.Some? then n.mbr.value else MBR(0.0, 0.0, 0.0, 0.0)
  }

  /** The entries of an internal page: each child's box and page number. */
  function Refs(ids: map<nat, nat>, cs: seq<Object>): seq<(MBR, nat)> {
    if cs == [] then []
    else Refs(ids, cs[..|cs| - 1]) + [(BoxOfObject(cs[|cs| - 1]), if cs[|cs| - 1].id in ids then ids[cs[|cs| - 1].id] else 0)]
  }

  function PageFor(ids: map<nat, nat>, n: Object, order: nat): Page {
    if n.LeafObject? then LeafPage(order, n.entries) else InternalPage(order, Refs(ids, n.children))
  }

  /** The page of every node of the tree says what the node says. */
  ghost predicate StoredTree(pages: map<nat, Page>, ids: map<nat, nat>, n: Object, order: nat)
    decreases n
  {
    && n.id in ids && ids[n.id] in pages && pages[ids[n.id]] == PageFor(ids, n, order)
    && (n.InternalObject? ==> StoredAll(pages, ids, n.children, order))
  }

  ghost predicate StoredAll(pages: map<nat, Page>, ids: map<nat, nat>, cs: seq<Object>, order: nat)
    decreases cs
  {
    cs != [] ==> StoredAll(pages, ids, cs[..|cs| - 1], order) && StoredTree(pages, ids, cs[|cs| - 1], order)
  }

  lemma {:induction false} RefsFrame(ids: map<nat, nat>, ids': map<nat, nat>, cs: seq<Object>)
    requires forall a :: a in IdsOf(cs) ==> a in ids && a in ids' && ids[a] == ids'[a]
    ensures Refs(ids, cs) == Refs(ids', cs)
  {
    if cs != [] {
      RefsFrame(ids, ids', cs[..|cs| - 1]);
      assert cs[|cs| - 1].id in Ids(cs[|cs| - 1]);
    }
  }

  /** Only the pages of a tree's own nodes matter to it. */
  lemma {:induction false} StoredFrame(pages: map<nat, Page>, ids: map<nat, nat>, pages': map<nat, Page>, ids': map<nat, nat>, n: Object, order: nat)
    requires StoredTree(pages, ids, n, order)
    requires forall a :: a in Ids(n) ==> a in ids && a in ids' && ids[a] == ids'[a]
    requires forall a :: a in Ids(n) && ids[a] in pages ==> ids[a] in pages' && pages'[ids[a]] == pages[ids[a]]
    ensures StoredTree(pages', ids', n, order)
    decreases n
  {
    assert n.id in Ids(n);
    if n.InternalObject? {
      RefsFrame(ids, ids', n.children);
      StoredAllFrame(pages, ids, pages', ids', n.children, order);
    }
  }

  lemma {:induction false} StoredAllFrame(pages: map<nat, Page>, ids: map<nat, nat>, pages': map<nat, Page>, ids': map<nat, nat>, cs: seq<Object>, order: nat)
    requires StoredAll(pages, ids, cs, order)
    requires forall a :: a in IdsOf(cs) ==> a in ids && a in ids' && ids[a] == ids'[a]
    requires forall a :: a in IdsOf(cs) && ids[a] in pages ==> ids[a] in pages' && pages'[ids[a]] == pages[ids[a]]
    ensures StoredAll(pages', ids', cs, order)
    decreases cs
  {
    if cs != [] {
      StoredAllFrame(pages, ids, pages', ids', cs[..|cs| - 1], order);
      StoredFrame(pages, ids, pages', ids', cs[|cs| - 1], order);
    }
  }

  // ----- what loading needs of the file -----

  function SizeOf(n: Object): nat {
    if n.LeafObject? then |n.entries| else |n.children|
  }

  /** No node overfull, and every box the one recomputed from the node's entries. */
  ghost predicate Fresh(n: Object, order: nat)
    decreases n
  {
    && SizeOf(n) <= order
    && match n
       case LeafObject(_, es, m) => m == ComputeMbr(es, PointBox)
       case InternalObject(_, cs, m) => m == ComputeMbr(ContentsOf(cs), BoxOf) && FreshAll(cs, order)
  }

  ghost predicate FreshAll(cs: seq<Object>, order: nat)
    decreases cs
  {
    cs != [] ==> FreshAll(cs[..|cs| - 1], order) && Fresh(cs[|cs| - 1], order) && SizeOf(cs[|cs| - 1]) > 0
  }

  /** Every tree the R-tree keeps is of this kind. */
  lemma {:induction false} OkIsFresh(n: Object, order: nat, h: nat)
    requires Ok(Contents(n), order, h)
    ensures Fresh(n, order)
    decreases n
  {
    match n
    case LeafObject(_, es, m) =>
      LeafCover(es);
      TightUnique(Cover(es, PointBox), m.value, es);
    case InternalObject(_, cs, m) =>
      ContentsAt(cs);
      assert AllOk(ContentsOf(cs), order, h - 1);
      InternalCover(ContentsOf(cs), order, h - 1);
      TightUnique(Cover(ContentsOf(cs), BoxOf), m.value, ItemsOf(ContentsOf(cs)));
      AllOkIsFresh(cs, order, h - 1);
  }

  lemma {:induction false} AllOkIsFresh(cs: seq<Object>, order: nat, h: nat)
    requires AllOk(ContentsOf(cs), order, h)
    ensures FreshAll(cs, order)
    decreases cs
  {
    if cs != [] {
      hide Ok, Contents;
      var front, last := cs[..|cs| - 1], cs[|cs| - 1];
      ContentsAt(cs);
      ContentsAt(front);
      assert AllOk(ContentsOf(front), order, h);
      assert Ok(ContentsOf(cs)[|cs| - 1], order, h);
      AllOkIsFresh(front, order, h);
      OkIsFresh(last, order, h);
      NotEmpty(last, order, h);
    }
  }

  lemma NotEmpty(n: Object, order: nat, h: nat)
    requires Ok(Contents(n), order, h)
    ensures SizeOf(n) > 0
  {
    if n.InternalObject? {
      ContentsAt(n.children);
    }
  }

  /** The pages of a set of nodes. */
  function PagesOf(ids: map<nat, nat>, own: set<nat>): set<nat> {
    set a | a in own && a in ids :: ids[a]
  }

  lemma RefsAt(ids: map<nat, nat>, cs: seq<Object>, i: nat)
    requires i < |cs|
    ensures |Refs(ids, cs)| == |cs| && Refs(ids, cs[..i]) == Refs(ids, cs)[..i]
    ensures Refs(ids, cs)[i] == (BoxOfObject(cs[i]), if cs[i].id in ids then ids[cs[i].id] else 0)
    decreases |cs|
  {
    var front := cs[..|cs| - 1];
    if i < |cs| - 1 {
      RefsAt(ids, front, i);
      assert front[..i] == cs[..i];
    } else {
      RefsLength(ids, front);
    }
  }

  lemma {:induction false} RefsLength(ids: map<nat, nat>, cs: seq<Object>)
    ensures |Refs(ids, cs)| == |cs|
  {
    if cs != [] {
      RefsLength(ids, cs[..|cs| - 1]);
    }
  }

  /** Two trees stored at one page are the same tree on the same pages. */
  lemma {:induction false} StoredUnique(pages: map<nat, Page>, a: map<nat, nat>, n: Object, b: map<nat, nat>, m: Object, order: nat)
    requires StoredTree(pages, a, n, order) && StoredTree(pages, b, m, order) && a[n.id] == b[m.id]
    requires Fresh(n, order) && Fresh(m, order)
    ensures Contents(n) == Contents(m) && PagesOf(a, Ids(n)) == PagesOf(b, Ids(m))
    decreases n
  {
    if n.InternalObject? {
      StoredAllUnique(pages, a, n.children, b, m.children, order);
      PagesOfParent(a, n);
      PagesOfParent(b, m);
    } else {
      assert PagesOf(a, {n.id}) == {a[n.id]} && PagesOf(b, {m.id}) == {b[m.id]};
    }
  }

  lemma PagesOfParent(ids: map<nat, nat>, n: Object)
    requires n.InternalObject? && n.id in ids
    ensures PagesOf(ids, Ids(n)) == {ids[n.id]} + PagesOf(ids, IdsOf(n.children))
  {
  }

  lemma PagesOfUnion(ids: map<nat, nat>, s: set<nat>, t: set<nat>)
    ensures PagesOf(ids, s + t) == PagesOf(ids, s) + PagesOf(ids, t)
  {
  }

  lemma {:induction false} StoredAllUnique(pages: map<nat, Page>, a: map<nat, nat>, cs: seq<Object>, b: map<nat, nat>, ds: seq<Object>, order: nat)
    requires StoredAll(pages, a, cs, order) && StoredAll(pages, b, ds, order) && Refs(a, cs) == Refs(b, ds)
    requires FreshAll(cs, order) && FreshAll(ds, order)
    ensures ContentsOf(cs) == ContentsOf(ds) && PagesOf(a, IdsOf(cs)) == PagesOf(b, IdsOf(ds))
    decreases cs
  {
    RefsLength(a, cs);
    RefsLength(b, ds);
    if cs != [] {
      hide Fresh, Contents, Ids;
      var c, d := cs[|cs| - 1], ds[|ds| - 1];
      RefsAt(a, cs, |cs| - 1);
      RefsAt(b, ds, |ds| - 1);
      StoredUnique(pages, a, c, b, d, order);
      StoredAllUnique(pages, a, cs[..|cs| - 1], b, ds[..|ds| - 1], order);
      PagesOfUnion(a, IdsOf(cs[..|cs| - 1]), Ids(c));
      PagesOfUnion(b, IdsOf(ds[..|ds| - 1]), Ids(d));
    }
  }

  /** A tree as the R-tree keeps it: no node twice, no node overfull, every box exact. */
  ghost predicate Readable(order: int, root: Option<Object>) {
    root.Some? ==> order >= 0 && Separate(root.value) && Fresh(root.value, order)
  }

  /** Equal contents; the objects themselves are new. */
  ghost predicate SameTree(a: Option<Object>, b: Option<Object>) {
    a.Some? == b.Some? && (a.Some? ==> Contents(a.value) == Contents(b.value))
  }

  // ----- page numbers given out during one save -----

  /**
   The numbers given out so far fit the numbers of the last save: a node saved before keeps
   its page, and no other node gets the page of a node known from the last save.
   */
  ghost predicate Coherent(known: map<nat, nat>, ids: map<nat, nat>, pageCount: nat) {
    && Injective(ids) && InFile(ids, pageCount)
    && (forall a :: a in ids && a in known ==> ids[a] == known[a])
    && (forall a, b :: a in ids && b in known && ids[a] == known[b] ==> a == b)
  }

  lemma GiveOut(known: map<nat, nat>, ids: map<nat, nat>, pageCount: nat, id: nat, page: nat, pageCount': nat)
    requires Coherent(known, ids, pageCount) && Injective(known) && InFile(known, pageCount) && id !in ids && pageCount > 0
    requires if id in known then page == known[id] && pageCount' == pageCount else page == pageCount && pageCount' == pageCount + 1
    ensures Coherent(known, ids[id := page], pageCount')
    ensures page !in ids.Values
  {
  }

  /** The file holds this tree: the metadata leads to the root's page, each node's page says what the node says. */
  ghost predicate FileHolds(pages: map<nat, Page>, pageCount: nat, ids: map<nat, nat>, order: nat, root: Option<Object>) {
    && pageCount > 0 && 0 in pages
    && match root
       case None => pages[0] == Metadata(order, None)
       case Some(n) =>
         && n.id in ids && pages[0] == Metadata(order, Some(ids[n.id]))
         && StoredTree(pages, ids, n, order) && Ids(n) == ids.Keys
  }

  class RTreePageStore {
    const pageSize: nat
    var pages: map<nat, Page>
    var pageCount: nat
    var pageIds: map<nat, nat>

    ghost predicate Valid()
      reads this
    {
      && (forall p: nat :: p in pages <==> p < pageCount)
      && Injective(pageIds) && InFile(pageIds, pageCount)
    }

    /** The file holds this tree. */
    ghost predicate Holds(order: nat, root: Option<Object>)
      reads this
    {
      Valid() && FileHolds(pages, pageCount, pageIds, order, root)
    }

    constructor (pageSize: nat)
      ensures Valid() && pageCount == 0 && this.pageSize == pageSize
    {
      this.pageSize, pages, pageCount, pageIds := pageSize, map[], 0, map[];
    }

    /** The page a node had in the last save, else a new one. */
    method PageIdFor(id: nat) returns (page: nat)
      requires Valid() && pageCount > 0
      modifies this`pages, this`pageCount
      ensures Valid()
      ensures if id in pageIds then page == pageIds[id] && pageCount == old(pageCount) && pages == old(pages)
              else page == old(pageCount) && pageCount == old(pageCount) + 1 && pages.Keys == old(pages).Keys + {page}
      ensures forall p :: p in old(pages) ==> pages[p] == old(pages)[p]
    {
      if id in pageIds {
        return pageIds[id];
      }
      page := pageCount;
      pageCount := pageCount + 1;
      pages := pages[page := LeafPage(0, [])];
    }

    /** Write a subtree, children before their parent's page. Only pages of its own nodes change. */
    method SaveNode(n: Object, order: nat, ids: map<nat, nat>) returns (page: nat, ids': map<nat, nat>)
      requires Valid() && pageCount > 0 && Separate(n) && ids.Keys !! Ids(n) && Coherent(pageIds, ids, pageCount)
      modifies this`pages, this`pageCount
      ensures Valid() && pageCount >= old(pageCount) && Coherent(pageIds, ids', pageCount)
      ensures ids'.Keys == ids.Keys + Ids(n) && (forall a :: a in ids ==> ids'[a] == ids[a])
      ensures n.id in ids' && page == ids'[n.id] && StoredTree(pages, ids', n, order)
      ensures Untouched(old(pages), pages, ids', Ids(n))
      decreases n, 0
    {
      hide Injective, InFile, Coherent, StoredTree, StoredAll, Untouched, Refs;
      ghost var start := pages;
      page := PageIdFor(n.id);
      KnownPages(pageIds, old(pageCount));
      GiveOut(pageIds, ids, old(pageCount), n.id, page, pageCount);
      ids' := ids[n.id := page];
      IdAmong(n);
      ghost var before := pages;
      if n.LeafObject? {
        pages := pages[page := LeafPage(order, n.entries)];
        LeafStored(start, before, ids', n, page, pages, order);
      } else {
        ghost var own := ids';
        var refs;
        refs, ids' := SaveChildren(n.children, order, ids');
        ghost var saved := pages;
        pages := pages[page := InternalPage(order, refs)];
        ParentStored(start, before, saved, ids', n, page, pages, order, pageIds, pageCount);
      }
    }

    method SaveChildren(cs: seq<Object>, order: nat, ids: map<nat, nat>) returns (refs: seq<(MBR, nat)>, ids': map<nat, nat>)
      requires Valid() && pageCount > 0 && SeparateAll(cs) && ids.Keys !! IdsOf(cs) && Coherent(pageIds, ids, pageCount)
      modifies this`pages, this`pageCount
      ensures Valid() && pageCount >= old(pageCount) && Coherent(pageIds, ids', pageCount)
      ensures ids'.Keys == ids.Keys + IdsOf(cs) && (forall a :: a in ids ==> ids'[a] == ids[a])
      ensures refs == Refs(ids', cs) && StoredAll(pages, ids', cs, order)
      ensures Untouched(old(pages), pages, ids', IdsOf(cs))
      decreases cs, 0
    {
      hide Injective, InFile, Coherent, StoredTree, StoredAll, Untouched, Refs, Ids, IdsOf, Separate, SeparateAll;
      refs, ids' := [], ids;
      NothingSaved(pages, ids, cs, order);
      for i := 0 to |cs|
        invariant Valid() && pageCount >= old(pageCount) && pageIds == old(pageIds) && Coherent(pageIds, ids', pageCount)
        invariant ids'.Keys == ids.Keys + IdsOf(cs[..i]) && (forall a :: a in ids ==> ids'[a] == ids[a])
        invariant refs == Refs(ids', cs[..i]) && StoredAll(pages, ids', cs[..i], order)
        invariant Untouched(old(pages), pages, ids', IdsOf(cs[..i]))
      {
        ChildSeparate(cs, i);
        ghost var before, beforeIds := pages, ids';
        var page;
        page, ids' := SaveNode(cs[i], order, ids');
        KnownPages(ids', pageCount);
        NextChildStored(old(pages), before, beforeIds, pages, ids', cs, i, order, pageIds, pageCount);
        refs := refs + [(BoxOfObject(cs[i]), page)];
      }
      assert cs[..|cs|] == cs;
    }

    /**
     Rebuild the subtree whose root is on this page, for any file contents. Objects get numbers
     from `next` on. `n` under `src` is a tree that may be stored there; if it is, loading works.
     */
    method LoadNode(page: nat, order: nat, visited: set<nat>, next: nat, ids: map<nat, nat>, ghost src: map<nat, nat>, ghost n: Object)
      returns (r: Option<Object>, visited': set<nat>, next': nat, ids': map<nat, nat>)
      requires Valid() && 0 < page < pageCount && page !in visited && Tracked(ids, visited, next, pageCount)
      ensures r.Some? ==> Loaded(pages, r.value, page, order, visited, visited', next, next', ids, ids')
      ensures r.Some? ==> Tracked(ids', visited', next', pageCount)
      ensures visited <= visited'
      ensures Awaits(pages, pageCount, src, n, page, order, visited) ==> r.Some?
      decreases pages.Keys - visited, 0
    {
      hide Loaded, Tracked, Awaits, AwaitsAll, LoadedAll;
      r, visited', next', ids' := None, visited + {page}, next, ids;
      if Awaits(pages, pageCount, src, n, page, order, visited) {
        AwaitedPage(pages, pageCount, src, n, page, order, visited);
      }
      match pages[page]
      case Metadata(_, _) =>
        return;
      case LeafPage(max, es) =>
        if max != order || |es| > max {
          return;
        }
        var leaf := LeafObject(next, es, ComputeMbr(es, PointBox));
        LeafLoaded(pages, leaf, page, order, visited, next, ids, pageCount);
        r, next', ids' := Some(leaf), next + 1, ids[next := page];
      case InternalPage(max, refs) =>
        if max != order || |refs| > max {
          return;
        }
        TrackedPage(ids, visited, next, pageCount, page);
        var cs;
        ghost var awaited := if n.InternalObject? then n.children else [];
        assert page in pages.Keys;
        cs, visited', next', ids' := LoadChildren(refs, order, visited + {page}, next, ids, src, awaited);
        if cs.None? {
          return;
        }
        var parent := InternalObject(next', cs.value, ComputeMbr(ContentsOf(cs.value), BoxOf));
        ParentLoaded(pages, parent, page, order, visited, visited', next, next', ids, ids', pageCount);
        r, ids', next' := Some(parent), ids'[next' := page], next' + 1;
    }

    method LoadChildren(refs: seq<(MBR, nat)>, order: nat, visited: set<nat>, next: nat, ids: map<nat, nat>, ghost src: map<nat, nat>, ghost ns: seq<Object>)
      returns (r: Option<seq<Object>>, visited': set<nat>, next': nat, ids': map<nat, nat>)
      requires Valid() && Tracked(ids, visited, next, pageCount)
      ensures r.Some? ==> LoadedAll(pages, r.value, refs, order, visited, visited', next, next', ids, ids')
      ensures r.Some? ==> Tracked(ids', visited', next', pageCount)
      ensures visited <= visited'
      ensures AwaitsAll(pages, pageCount, src, ns, refs, order, visited) ==> r.Some?
      decreases pages.Keys - visited, 1
    {
      hide Loaded, Tracked, Awaits, AwaitsAll, LoadedAll;
      var cs := [];
      r, visited', next', ids' := None, visited, next, ids;
      NoneLoaded(pages, order, visited, next, ids);
      assert refs[..0] == [];
      for i := 0 to |refs|
        invariant LoadedAll(pages, cs, refs[..i], order, visited, visited', next, next', ids, ids')
        invariant Tracked(ids', visited', next', pageCount) && visited <= visited'
      {
        var (stored, page) := refs[i];
        if AwaitsAll(pages, pageCount, src, ns, refs, order, visited) {
          ChildAwaited(pages, pageCount, src, ns, refs, order, visited, visited', next, next', ids, ids', cs, i);
        }
        if !(0 < page < pageCount) || page in visited' {
          return;
        }
        ghost var before, beforeIds, beforeNext := visited', ids', next';
        ghost var awaited := if i < |ns| then ns[i] else LeafObject(0, [], None);
        var c;
        c, visited', next', ids' := LoadNode(page, order, visited', next', ids', src, awaited);
        if c.None? {
          return;
        }
        if AwaitsAll(pages, pageCount, src, ns, refs, order, visited) {
          ChildMatches(pages, pageCount, src, awaited, c.value, page, order, before, visited', beforeNext, next', beforeIds, ids');
        }
        if SizeOf(c.value) == 0 {
          return;
        }
        if stored != BoxOfObject(c.value) {
          return;
        }
        NextLoaded(pages, cs, refs, i, c.value, order, visited, before, visited', next, beforeNext, next', ids, beforeIds, ids');
        cs := cs + [c.value];
      }
      assert refs[..|refs|] == refs;
      r := Some(cs);
    }

    /** Write the whole tree; a node saved before goes to its old page. */
    method Save(order: int, root: Option<Object>) returns (done: bool)
      requires Valid() && Readable(order, root)
      modifies this
      ensures Valid()
      ensures done <==> 2 <= order && 16 + 32 * order <= pageSize && 16 + 40 * order <= pageSize
      ensures done ==> Holds(order, root) && pageIds.Keys == if root.Some? then Ids(root.value) else {}
      ensures done && root.Some? ==> forall a :: a in Ids(root.value) && a in old(pageIds) ==> pageIds[a] == old(pageIds)[a]
    {
      OrderInBytes(pageSize, order);
      if !OrderOk(pageSize, order) {
        return false;
      }
      if pageCount == 0 {
        pages, pageCount := map[0 := Metadata(order, None)], 1;
      }
      if root.None? {
        pageIds := map[];
        pages := pages[0 := Metadata(order, None)];
        return true;
      }
      var page, ids := SaveNode(root.value, order, map[]);
      pageIds := ids;
      ghost var before := pages;
      pages := pages[0 := Metadata(order, Some(page))];
      MetadataApart(before, pages, pageIds, root.value, order, pageCount);
      return true;
    }

    /**
     Read the tree back into new objects, numbered from `next` on. Whatever the file holds, a tree
     that comes back is exactly what the file holds; and a saved tree with exact boxes does come
     back, none of the checks on the way refusing it.
     */
    method Load(next: nat) returns (r: Option<(nat, Option<Object>)>, next': nat)
      requires Valid()
      modifies this`pageIds
      ensures Valid() && next <= next' && (r.None? ==> pageIds == old(pageIds))
      ensures r.Some? ==> OrderOk(pageSize, r.value.0) && Holds(r.value.0, r.value.1)
      ensures r.Some? ==> pageIds.Keys == if r.value.1.Some? then Ids(r.value.1.value) else {}
      ensures r.Some? && r.value.1.Some? ==>
        var n := r.value.1.value;
        Separate(n) && Fresh(n, r.value.0) && forall a :: a in Ids(n) ==> next <= a < next'
      ensures forall order: nat, root: Option<Object> ::
        OrderOk(pageSize, order) && Readable(order, root) && FileHolds(old(pages), old(pageCount), old(pageIds), order, root) ==> r.Some? && r.value.0 == order && SameTree(root, r.value.1)
    {
      hide Tracked, Loaded, StoredTree, Fresh, Separate, Ids, Awaits, Contents;
      r, next' := None, next;
      if pageCount == 0 || !pages[0].Metadata? || !OrderOk(pageSize, pages[0].order) {
        return;
      }
      var order := pages[0].order;
      if pages[0].root.None? {
        pageIds := map[];
        return Some((order, None)), next;
      }
      var page := pages[0].root.value;
      ghost var known, start := pageIds, pages;
      ghost var expected: Object := LeafObject(0, [], None);
      if m: Object :| Awaits(pages, pageCount, known, m, page, order, {}) {
        expected := m;
      }
      forall was: Option<Object> | Readable(order, was) && FileHolds(start, pageCount, known, order, was)
        ensures was.Some? && 0 < page < pageCount && Awaits(start, pageCount, known, was.value, page, order, {})
      {
        HeldAwaits(pages, pageCount, known, was.value, page, order);
      }
      if !(0 < page < pageCount) {
        return;
      }
      NothingTracked(next, pageCount);
      var root, visited, ids;
      root, visited, next', ids := LoadNode(page, order, {}, next, map[], known, expected);
      if root.None? {
        next' := next;
        return;
      }
      pageIds := ids;
      WholeLoaded(pages, root.value, page, order, visited, next, next', ids, pageCount);
      forall was: Option<Object> | was.Some? && Awaits(pages, pageCount, known, was.value, page, order, {})
        ensures SameTree(was, root)
      {
        HeldIsLoaded(pages, pageCount, known, was.value, root.value, page, order, visited, next, next', ids);
      }
      r := Some((order, root));
    }

    /** Over any run of saves of changing trees, loading gives the last one. */
    method SaveAndReload(order: int, versions: seq<Option<Object>>, next: nat) returns (r: Option<(nat, Option<Object>)>, next': nat)
      requires Valid() && |versions| > 0
      requires forall v :: v in versions ==> Readable(order, v)
      modifies this
      ensures Valid()
      ensures 2 <= order && 16 + 32 * order <= pageSize && 16 + 40 * order <= pageSize ==>
        r.Some? && r.value.0 == order && SameTree(versions[|versions| - 1], r.value.1) && Holds(order, r.value.1)
    {
      hide Fresh, Separate, StoredTree, Ids, Contents;
      OrderInBytes(pageSize, order);
      hide OrderOk;
      var done;
      for i := 0 to |versions|
        invariant Valid()
        invariant i > 0 && OrderOk(pageSize, order) ==> Holds(order, versions[i - 1])
      {
        assert Readable(order, versions[i]);
        done := Save(order, versions[i]);
      }
      assert Readable(order, versions[|versions| - 1]);
      r, next' := Load(next);
    }
  }

  /** Pages other than those of these nodes are as they were. */
  ghost predicate Untouched(before: map<nat, Page>, after: map<nat, Page>, ids: map<nat, nat>, own: set<nat>) {
    forall p :: p in before && (forall a :: a in own && a in ids ==> ids[a] != p) ==> p in after && after[p] == before[p]
  }

  lemma {:induction false} ChildSeparate(cs: seq<Object>, i: nat)
    requires SeparateAll(cs) && i < |cs|
    ensures Separate(cs[i]) && SeparateAll(cs[..i]) && IdsOf(cs[..i]) !! Ids(cs[i])
    ensures IdsOf(cs[..i + 1]) == IdsOf(cs[..i]) + Ids(cs[i])
    ensures IdsOf(cs[..i + 1]) <= IdsOf(cs)
    decreases |cs|
  {
    assert cs[..i + 1][..i] == cs[..i];
    if i == |cs| - 1 {
      assert cs[..i + 1] == cs;
    } else {
      var front := cs[..|cs| - 1];
      ChildSeparate(front, i);
      assert front[..i] == cs[..i] && front[..i + 1] == cs[..i + 1];
    }
  }

  lemma KnownPages(ids: map<nat, nat>, pageCount: nat)
    ensures InFile(ids, pageCount) <==> forall a :: a in ids ==> 0 < ids[a] < pageCount
  {
  }

  lemma IdAmong(n: Object)
    ensures n.id in Ids(n)
    ensures n.InternalObject? ==> Ids(n) == {n.id} + IdsOf(n.children)
  {
  }

  lemma NothingSaved(pages: map<nat, Page>, ids: map<nat, nat>, cs: seq<Object>, order: nat)
    ensures IdsOf(cs[..0]) == {} && Refs(ids, cs[..0]) == [] && StoredAll(pages, ids, cs[..0], order)
    ensures Untouched(pages, pages, ids, IdsOf(cs[..0]))
  {
    assert cs[..0] == [];
  }

  lemma LeafStored(start: map<nat, Page>, before: map<nat, Page>, ids: map<nat, nat>, n: Object, page: nat, after: map<nat, Page>, order: nat)
    requires n.LeafObject? && n.id in ids && ids[n.id] == page
    requires forall p :: p in start ==> p in before && before[p] == start[p]
    requires after == before[page := LeafPage(order, n.entries)]
    ensures StoredTree(after, ids, n, order) && Untouched(start, after, ids, Ids(n))
  {
  }

  lemma ParentStored(start: map<nat, Page>, before: map<nat, Page>, saved: map<nat, Page>, ids: map<nat, nat>, n: Object, page: nat,
                     after: map<nat, Page>, order: nat, known: map<nat, nat>, pageCount: nat)
    requires n.InternalObject? && Separate(n) && Coherent(known, ids, pageCount) && n.id in ids && ids[n.id] == page
    requires IdsOf(n.children) <= ids.Keys && StoredAll(saved, ids, n.children, order)
    requires forall p :: p in start ==> p in before && before[p] == start[p]
    requires Untouched(before, saved, ids, IdsOf(n.children))
    requires after == saved[page := InternalPage(order, Refs(ids, n.children))]
    ensures StoredTree(after, ids, n, order) && Untouched(start, after, ids, Ids(n))
  {
    hide InFile, Refs;
    StoredAllFrame(saved, ids, after, ids, n.children, order);
  }

  lemma NextChildStored(start: map<nat, Page>, before: map<nat, Page>, beforeIds: map<nat, nat>, after: map<nat, Page>, ids: map<nat, nat>,
                        cs: seq<Object>, i: nat, order: nat, known: map<nat, nat>, pageCount: nat)
    requires i < |cs| && SeparateAll(cs) && Coherent(known, ids, pageCount)
    requires IdsOf(cs[..i]) <= beforeIds.Keys && ids.Keys == beforeIds.Keys + Ids(cs[i])
    requires forall a :: a in beforeIds ==> ids[a] == beforeIds[a]
    requires StoredAll(before, beforeIds, cs[..i], order) && StoredTree(after, ids, cs[i], order)
    requires Untouched(start, before, beforeIds, IdsOf(cs[..i])) && Untouched(before, after, ids, Ids(cs[i]))
    ensures StoredAll(after, ids, cs[..i + 1], order)
    ensures cs[i].id in ids && Refs(ids, cs[..i + 1]) == Refs(beforeIds, cs[..i]) + [(BoxOfObject(cs[i]), ids[cs[i].id])]
    ensures IdsOf(cs[..i + 1]) == IdsOf(cs[..i]) + Ids(cs[i])
    ensures Untouched(start, after, ids, IdsOf(cs[..i + 1]))
  {
    ChildSeparate(cs, i);
    assert cs[..i + 1][..i] == cs[..i] && cs[..i + 1][i] == cs[i];
    RefsFrame(beforeIds, ids, cs[..i]);
    forall a | a in IdsOf(cs[..i]) && beforeIds[a] in before
      ensures beforeIds[a] in after && after[beforeIds[a]] == before[beforeIds[a]]
    {
      assert forall b :: b in Ids(cs[i]) ==> b != a && ids[b] != ids[a];
    }
    StoredAllFrame(before, beforeIds, after, ids, cs[..i], order);
    IdAmong(cs[i]);
  }

  lemma MetadataApart(before: map<nat, Page>, after: map<nat, Page>, ids: map<nat, nat>, n: Object, order: nat, pageCount: nat)
    requires StoredTree(before, ids, n, order) && Ids(n) <= ids.Keys && InFile(ids, pageCount)
    requires 0 in after && after == before[0 := after[0]]
    ensures StoredTree(after, ids, n, order)
  {
    StoredFrame(before, ids, after, ids, n, order);
  }

  // ----- loading -----

  /** Page numbers taken so far lie in the file and were visited; objects are numbered below `next`. */
  ghost predicate Tracked(ids: map<nat, nat>, visited: set<nat>, next: nat, pageCount: nat) {
    && Injective(ids) && InFile(ids, pageCount)
    && forall a :: a in ids ==> a < next && ids[a] in visited
  }

  /** What loading some nodes adds: new objects, each on a page not visited before. */
  ghost predicate Added(own: set<nat>, visited: set<nat>, visited': set<nat>, next: nat, next': nat, ids: map<nat, nat>, ids': map<nat, nat>) {
    && next <= next' && ids'.Keys == ids.Keys + own && (forall a :: a in ids ==> ids'[a] == ids[a])
    && (forall a :: a in own ==> next <= a < next' && ids'[a] !in visited)
    && visited' == visited + PagesOf(ids', own)
  }

  ghost predicate Loaded(pages: map<nat, Page>, n: Object, page: nat, order: nat, visited: set<nat>, visited': set<nat>, next: nat, next': nat,
                         ids: map<nat, nat>, ids': map<nat, nat>) {
    && Added(Ids(n), visited, visited', next, next', ids, ids')
    && Separate(n) && Fresh(n, order) && StoredTree(pages, ids', n, order) && ids'[n.id] == page
  }

  ghost predicate LoadedAll(pages: map<nat, Page>, cs: seq<Object>, refs: seq<(MBR, nat)>, order: nat, visited: set<nat>, visited': set<nat>,
                            next: nat, next': nat, ids: map<nat, nat>, ids': map<nat, nat>) {
    && Added(IdsOf(cs), visited, visited', next, next', ids, ids')
    && SeparateAll(cs) && FreshAll(cs, order) && StoredAll(pages, ids', cs, order) && Refs(ids', cs) == refs
  }

  /** A tree with exact boxes is stored at this page, and none of its pages was visited. */
  ghost predicate Awaits(pages: map<nat, Page>, pageCount: nat, src: map<nat, nat>, n: Object, page: nat, order: nat, visited: set<nat>) {
    && Injective(src) && InFile(src, pageCount) && Separate(n) && Fresh(n, order)
    && StoredTree(pages, src, n, order) && src[n.id] == page && PagesOf(src, Ids(n)) !! visited
  }

  ghost predicate AwaitsAll(pages: map<nat, Page>, pageCount: nat, src: map<nat, nat>, ns: seq<Object>, refs: seq<(MBR, nat)>, order: nat, visited: set<nat>) {
    && Injective(src) && InFile(src, pageCount) && SeparateAll(ns) && FreshAll(ns, order)
    && StoredAll(pages, src, ns, order) && Refs(src, ns) == refs && PagesOf(src, IdsOf(ns)) !! visited
  }

  /** What an awaited tree says about its page and, for an internal node, about the children. */
  lemma AwaitedPage(pages: map<nat, Page>, pageCount: nat, src: map<nat, nat>, n: Object, page: nat, order: nat, visited: set<nat>)
    requires Awaits(pages, pageCount, src, n, page, order, visited)
    ensures page in pages && pages[page] == PageFor(src, n, order) && SizeOf(n) <= order
    ensures n.InternalObject? ==>
      |Refs(src, n.children)| <= order && AwaitsAll(pages, pageCount, src, n.children, Refs(src, n.children), order, visited + {page})
  {
    hide InFile;
    if n.InternalObject? {
      RefsLength(src, n.children);
      PagesOfParent(src, n);
      forall a | a in IdsOf(n.children) && a in src
        ensures src[a] != page
      {
        assert a != n.id;
      }
    }
  }

  lemma TrackedPage(ids: map<nat, nat>, visited: set<nat>, next: nat, pageCount: nat, page: nat)
    requires Tracked(ids, visited, next, pageCount)
    ensures Tracked(ids, visited + {page}, next, pageCount)
  {
  }

  lemma LeafLoaded(pages: map<nat, Page>, n: Object, page: nat, order: nat, visited: set<nat>, next: nat, ids: map<nat, nat>, pageCount: nat)
    requires Tracked(ids, visited, next, pageCount) && 0 < page < pageCount && page !in visited && page in pages
    requires n.LeafObject? && n.id == next && pages[page] == LeafPage(order, n.entries) && |n.entries| <= order
    requires n.mbr == ComputeMbr(n.entries, PointBox)
    ensures Loaded(pages, n, page, order, visited, visited + {page}, next, next + 1, ids, ids[next := page])
    ensures Tracked(ids[next := page], visited + {page}, next + 1, pageCount)
  {
    assert PagesOf(ids[next := page], {next}) == {page};
  }

  lemma ParentLoaded(pages: map<nat, Page>, n: Object, page: nat, order: nat, visited: set<nat>, visited': set<nat>, next: nat, next': nat,
                     ids: map<nat, nat>, ids': map<nat, nat>, pageCount: nat)
    requires Tracked(ids, visited, next, pageCount) && Tracked(ids', visited', next', pageCount)
    requires 0 < page < pageCount && page !in visited && page in pages
    requires n.InternalObject? && n.id == next' && pages[page].InternalPage? && pages[page].maxEntries == order && |pages[page].refs| <= order
    requires LoadedAll(pages, n.children, pages[page].refs, order, visited + {page}, visited', next, next', ids, ids')
    requires n.mbr == ComputeMbr(ContentsOf(n.children), BoxOf)
    ensures Loaded(pages, n, page, order, visited, visited', next, next' + 1, ids, ids'[next' := page])
    ensures Tracked(ids'[next' := page], visited', next' + 1, pageCount)
  {
    hide Refs, StoredAll, SeparateAll, FreshAll, IdsOf;
    var after := ids'[next' := page];
    RefsLength(ids', n.children);
    RefsFrame(ids', after, n.children);
    StoredAllFrame(pages, ids', pages, after, n.children, order);
    assert next' !in IdsOf(n.children) && next' !in ids';
    assert PagesOf(after, IdsOf(n.children)) == PagesOf(ids', IdsOf(n.children));
    PagesOfParent(after, n);
  }

  lemma NoneLoaded(pages: map<nat, Page>, order: nat, visited: set<nat>, next: nat, ids: map<nat, nat>)
    ensures LoadedAll(pages, [], [], order, visited, visited, next, next, ids, ids)
  {
    assert PagesOf(ids, {}) == {};
  }

  /** While all goes well the next reference leads to the next awaited child. */
  lemma ChildAwaited(pages: map<nat, Page>, pageCount: nat, src: map<nat, nat>, ns: seq<Object>, refs: seq<(MBR, nat)>, order: nat,
                     visited: set<nat>, visited': set<nat>, next: nat, next': nat, ids: map<nat, nat>, ids': map<nat, nat>, cs: seq<Object>, i: nat)
    requires AwaitsAll(pages, pageCount, src, ns, refs, order, visited) && i < |refs|
    requires LoadedAll(pages, cs, refs[..i], order, visited, visited', next, next', ids, ids')
    ensures i < |ns| && refs[i].0 == BoxOfObject(ns[i]) && SizeOf(ns[i]) > 0 && 0 < refs[i].1 < pageCount && refs[i].1 !in visited'
    ensures Awaits(pages, pageCount, src, ns[i], refs[i].1, order, visited')
  {
    hide Ids, IdsOf, Fresh, FreshAll, StoredTree, StoredAll, Separate, SeparateAll, Refs, Contents, ContentsOf;
    RefsLength(src, ns);
    RefsAt(src, ns, i);
    ChildSeparate(ns, i);
    StoredAt(pages, src, ns, order, i);
    FreshAt(ns, order, i);
    StoredAllUnique(pages, src, ns[..i], ids', cs, order);
    PagesApart(src, IdsOf(ns[..i]), Ids(ns[i]));
    IdAmong(ns[i]);
    StoredHere(pages, src, ns[i], order);
    assert PagesOf(src, Ids(ns[i])) <= PagesOf(src, IdsOf(ns)) by {
      assert Ids(ns[i]) <= IdsOf(ns);
    }
    assert src[ns[i].id] in PagesOf(src, Ids(ns[i]));
  }

  lemma PagesApart(ids: map<nat, nat>, s: set<nat>, t: set<nat>)
    requires Injective(ids) && s !! t
    ensures PagesOf(ids, s) !! PagesOf(ids, t)
  {
  }

  lemma StoredHere(pages: map<nat, Page>, ids: map<nat, nat>, n: Object, order: nat)
    requires StoredTree(pages, ids, n, order)
    ensures n.id in ids
  {
  }

  lemma {:induction false} StoredAt(pages: map<nat, Page>, ids: map<nat, nat>, cs: seq<Object>, order: nat, i: nat)
    requires StoredAll(pages, ids, cs, order) && i < |cs|
    ensures StoredTree(pages, ids, cs[i], order) && StoredAll(pages, ids, cs[..i], order)
    decreases |cs|
  {
    if i < |cs| - 1 {
      StoredAt(pages, ids, cs[..|cs| - 1], order, i);
      assert cs[..|cs| - 1][..i] == cs[..i];
    }
  }

  lemma {:induction false} FreshAt(cs: seq<Object>, order: nat, i: nat)
    requires FreshAll(cs, order) && i < |cs|
    ensures Fresh(cs[i], order) && SizeOf(cs[i]) > 0 && FreshAll(cs[..i], order)
    decreases |cs|
  {
    if i < |cs| - 1 {
      FreshAt(cs[..|cs| - 1], order, i);
      assert cs[..|cs| - 1][..i] == cs[..i];
    }
  }

  /** The loaded child is the awaited one, so neither the emptiness nor the box check refuses it. */
  lemma ChildMatches(pages: map<nat, Page>, pageCount: nat, src: map<nat, nat>, n: Object, c: Object, page: nat, order: nat,
                     visited: set<nat>, visited': set<nat>, next: nat, next': nat, ids: map<nat, nat>, ids': map<nat, nat>)
    requires Awaits(pages, pageCount, src, n, page, order, visited)
    requires Loaded(pages, c, page, order, visited, visited', next, next', ids, ids')
    ensures SizeOf(c) == SizeOf(n) && BoxOfObject(c) == BoxOfObject(n)
  {
    StoredUnique(pages, src, n, ids', c, order);
    if n.InternalObject? {
      ContentsAt(n.children);
      ContentsAt(c.children);
    }
  }

  lemma NextLoaded(pages: map<nat, Page>, cs: seq<Object>, refs: seq<(MBR, nat)>, i: nat, c: Object, order: nat,
                   v: set<nat>, v1: set<nat>, v2: set<nat>, next: nat, next1: nat, next2: nat, ids: map<nat, nat>, ids1: map<nat, nat>, ids2: map<nat, nat>)
    requires i < |refs| && LoadedAll(pages, cs, refs[..i], order, v, v1, next, next1, ids, ids1)
    requires Loaded(pages, c, refs[i].1, order, v1, v2, next1, next2, ids1, ids2)
    requires SizeOf(c) > 0 && refs[i].0 == BoxOfObject(c)
    ensures LoadedAll(pages, cs + [c], refs[..i + 1], order, v, v2, next, next2, ids, ids2)
  {
    hide Fresh, StoredTree, Separate, Ids;
    var all := cs + [c];
    assert all[..|all| - 1] == cs && all[|all| - 1] == c;
    IdAmong(c);
    RefsFrame(ids1, ids2, cs);
    StoredAllFrame(pages, ids1, pages, ids2, cs, order);
    assert refs[..i + 1] == refs[..i] + [refs[i]];
    PagesOfUnion(ids2, IdsOf(cs), Ids(c));
    assert PagesOf(ids2, IdsOf(cs)) == PagesOf(ids1, IdsOf(cs));
    AddedTwice(IdsOf(cs), Ids(c), v, v1, v2, next, next1, next2, ids, ids1, ids2);
  }

  lemma AddedTwice(s: set<nat>, t: set<nat>, v: set<nat>, v1: set<nat>, v2: set<nat>, next: nat, next1: nat, next2: nat,
                   ids: map<nat, nat>, ids1: map<nat, nat>, ids2: map<nat, nat>)
    requires Added(s, v, v1, next, next1, ids, ids1) && Added(t, v1, v2, next1, next2, ids1, ids2)
    ensures s !! t && Added(s + t, v, v2, next, next2, ids, ids2)
  {
    PagesOfUnion(ids2, s, t);
    assert PagesOf(ids2, s) == PagesOf(ids1, s);
  }

  lemma HeldAwaits(pages: map<nat, Page>, pageCount: nat, ids: map<nat, nat>, n: Object, page: nat, order: nat)
    requires Injective(ids) && InFile(ids, pageCount) && Separate(n) && Fresh(n, order)
    requires StoredTree(pages, ids, n, order) && ids[n.id] == page
    ensures 0 < page < pageCount && Awaits(pages, pageCount, ids, n, page, order, {})
  {
  }

  lemma NothingTracked(next: nat, pageCount: nat)
    ensures Tracked(map[], {}, next, pageCount)
  {
  }

  lemma WholeLoaded(pages: map<nat, Page>, n: Object, page: nat, order: nat, visited: set<nat>, next: nat, next': nat, ids: map<nat, nat>, pageCount: nat)
    requires Loaded(pages, n, page, order, {}, visited, next, next', map[], ids) && Tracked(ids, visited, next', pageCount)
    ensures next <= next' && Injective(ids) && InFile(ids, pageCount) && Separate(n) && Fresh(n, order) && StoredTree(pages, ids, n, order)
    ensures n.id in ids && ids[n.id] == page && Ids(n) == ids.Keys && forall a :: a in Ids(n) ==> next <= a < next'
  {
    IdAmong(n);
  }

  lemma HeldIsLoaded(pages: map<nat, Page>, pageCount: nat, src: map<nat, nat>, n: Object, c: Object, page: nat, order: nat,
                     visited: set<nat>, next: nat, next': nat, ids: map<nat, nat>)
    requires Awaits(pages, pageCount, src, n, page, order, {})
    requires Loaded(pages, c, page, order, {}, visited, next, next', map[], ids)
    ensures Contents(n) == Contents(c)
  {
    StoredUnique(pages, src, n, ids, c, order);
  }
}
