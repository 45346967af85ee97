/**
 Transactions over tables and their indexes: statements write storage first and indexes
 second and keep an undo journal; rollback plays the journal backwards
 (engine/transactions/session.py, engine/query/executor.py).

 An index may refuse a key. Then the row is stored and journaled, the indexes before the
 refusing one have it, that one and those behind it do not: a row reaches a prefix of the
 indexes. Rollback undoes the journal until an index refuses, and this file says when that is.
 */
module Session {
  import opened Common
  import opened RidSupply

  datatype Value = Null | Known(v: int)

  type Row = seq<Value>

  /** A record id of a table. */
  datatype Place = Place(table: nat, rid: RID)

  datatype Kind = Spatial | Hash | Tree

  datatype Ref = Ref(value: Value, rid: RID)

  /** The pages of an index as far as its entries do not determine them; a B+ tree may have separators. */
  datatype Layout = Layout(separators: bool, rest: int)

  datatype Index = Index(table: nat, column: nat, kind: Kind, entries: multiset<Ref>, layout: Layout)

  /**
   How the indexes behave beyond their entries: which keys a kind of index can encode, when one has
   no room for a key it could encode, whether it then keeps the entry all the same, and how its pages
   change.
   */
  datatype Behaviour = Behaviour(encodes: (Kind, Value) -> bool, full: (Index, Value) -> bool, keeps: (Index, Value) -> bool,
                                 grown: (Index, Ref) -> Layout, shrunk: (Index, Ref) -> Layout)

  /** No kind encodes NULL; separators never go, and a removal makes none. */
  ghost predicate Lawful(b: Behaviour) {
    && (forall kind :: !b.encodes(kind, Null))
    && (forall ix: Index, ref: Ref :: ix.layout.separators ==> b.grown(ix, ref).separators)
    && (forall ix: Index, ref: Ref :: b.shrunk(ix, ref).separators == ix.layout.separators)
  }

  datatype Undo = UndoInsert(at: Place) | UndoRemove(at: Place, row: Row)

  function Cell(row: Row, column: nat): Value {
    if column < |row| then row[column] else Null
  }

  /** Entering the row in this index raises. A spatial index skips NULL. */
  predicate Raises(b: Behaviour, ix: Index, t: nat, row: Row) {
    && ix.table == t
    && var key := Cell(row, ix.column);
       if key == Null then ix.kind != Spatial else !b.encodes(ix.kind, key) || b.full(ix, key)
  }

  /** The index raises but has the entry: a B+ tree that could cut the leaf but not an ancestor. */
  predicate KeepsThough(b: Behaviour, ix: Index, t: nat, row: Row) {
    ix.table == t && var key := Cell(row, ix.column); key != Null && b.encodes(ix.kind, key) && b.full(ix, key) && b.keeps(ix, key)
  }

  /** How many indexes take the row before one raises. */
  function FirstRefusal(b: Behaviour, indexes: seq<Index>, t: nat, row: Row): (n: nat)
    ensures n <= |indexes| && (forall i :: 0 <= i < n ==> !Raises(b, indexes[i], t, row))
    ensures n < |indexes| ==> Raises(b, indexes[n], t, row)
  {
    if indexes == [] || Raises(b, indexes[0], t, row) then 0 else 1 + FirstRefusal(b, indexes[1..], t, row)
  }

  /** How many indexes have the row afterwards. */
  function ReachOf(b: Behaviour, indexes: seq<Index>, t: nat, row: Row): nat {
    var n := FirstRefusal(b, indexes, t, row);
    if n < |indexes| && KeepsThough(b, indexes[n], t, row) then n + 1 else n
  }

  /**
   Taking the row out of this index raises: the hash encodes the key first; the tree compares
   it with whatever separators and entries there are, which fails for NULL.
   */
  predicate RaisesOnRemoval(b: Behaviour, ix: Index, t: nat, row: Row) {
    && ix.table == t
    && match ix.kind
       case Spatial => false
       case Hash => !b.encodes(Hash, Cell(row, ix.column))
       case Tree => Cell(row, ix.column) == Null && (ix.layout.separators || ix.entries != multiset{})
  }

  /** The index with the entry of a row of table t. */
  function WithEntry(b: Behaviour, ix: Index, t: nat, row: Row, rid: RID): Index {
    var ref := Ref(Cell(row, ix.column), rid);
    if ix.table == t && ref.value != Null then ix.(entries := ix.entries + multiset{ref}, layout := b.grown(ix, ref)) else ix
  }

  function WithoutEntry(b: Behaviour, ix: Index, t: nat, row: Row, rid: RID): Index {
    var ref := Ref(Cell(row, ix.column), rid);
    if ix.table == t && ref.value != Null then ix.(entries := ix.entries - multiset{ref}, layout := b.shrunk(ix, ref)) else ix
  }

  /**
   What the indexes of the row's table do with its value in their column, in terms of the row alone: an
   insert raises for NULL outside a spatial index, for a key that cannot be encoded and for want of room;
   a removal raises for what a hash cannot encode, and for NULL in a tree that has something to compare it with.
   */
  lemma IndexRules(b: Behaviour, ix: Index, row: Row, rid: RID)
    requires ix.column < |row|
    ensures Raises(b, ix, ix.table, row) <==>
            if row[ix.column] == Null then ix.kind == Hash || ix.kind == Tree
            else !b.encodes(ix.kind, row[ix.column]) || b.full(ix, row[ix.column])
    ensures RaisesOnRemoval(b, ix, ix.table, row) <==>
            || (ix.kind == Hash && !b.encodes(Hash, row[ix.column]))
            || (ix.kind == Tree && row[ix.column] == Null && (ix.layout.separators || ix.entries != multiset{}))
    ensures KeepsThough(b, ix, ix.table, row) <==>
            row[ix.column] != Null && b.encodes(ix.kind, row[ix.column]) && b.full(ix, row[ix.column]) && b.keeps(ix, row[ix.column])
    ensures row[ix.column] != Null ==>
            && WithEntry(b, ix, ix.table, row, rid).entries == ix.entries + multiset{Ref(row[ix.column], rid)}
            && WithoutEntry(b, ix, ix.table, row, rid).entries == ix.entries - multiset{Ref(row[ix.column], rid)}
            && WithEntry(b, ix, ix.table, row, rid).layout == b.grown(ix, Ref(row[ix.column], rid))
            && WithoutEntry(b, ix, ix.table, row, rid).layout == b.shrunk(ix, Ref(row[ix.column], rid))
    ensures row[ix.column] == Null ==> WithEntry(b, ix, ix.table, row, rid) == ix && WithoutEntry(b, ix, ix.table, row, rid) == ix
    ensures forall t :: t != ix.table ==>
              && !Raises(b, ix, t, row) && !RaisesOnRemoval(b, ix, t, row) && !KeepsThough(b, ix, t, row)
              && WithEntry(b, ix, t, row, rid) == ix && WithoutEntry(b, ix, t, row, rid) == ix
  {
    assert Cell(row, ix.column) == row[ix.column];
  }

  /** A row reaches the indexes before the first that raises, and that one too if it keeps the entry all the same. */
  lemma {:induction false} ReachIs(b: Behaviour, indexes: seq<Index>, t: nat, row: Row, n: nat)
    requires n <= |indexes| && (forall i :: 0 <= i < n ==> !Raises(b, indexes[i], t, row))
    requires n < |indexes| ==> Raises(b, indexes[n], t, row)
    ensures ReachOf(b, indexes, t, row) == if n < |indexes| && KeepsThough(b, indexes[n], t, row) then n + 1 else n
  {
    hide Raises, KeepsThough;
  }

  // ----- what the indexes hold -----

  /** The row has an entry in index i. */
  predicate Has(indexes: seq<Index>, i: nat, p: Place, row: Row, reach: nat)
    requires i < |indexes|
  {
    i < reach && indexes[i].table == p.table && Cell(row, indexes[i].column) != Null
  }

  function Expected(rows: map<Place, Row>, reach: map<Place, nat>, indexes: seq<Index>, i: nat, ref: Ref): nat
    requires i < |indexes|
  {
    var p := Place(indexes[i].table, ref.rid);
    if p in rows && p in reach && Has(indexes, i, p, rows[p], reach[p]) && Cell(rows[p], indexes[i].column) == ref.value then 1 else 0
  }

  ghost predicate IndexAgrees(rows: map<Place, Row>, reach: map<Place, nat>, indexes: seq<Index>, i: nat)
    requires i < |indexes|
  {
    forall ref {:trigger indexes[i].entries[ref]} :: indexes[i].entries[ref] == Expected(rows, reach, indexes, i, ref)
  }

  /** An index a row has passed could take its key. */
  predicate Passed(b: Behaviour, ix: Index, t: nat, row: Row) {
    ix.table == t ==> if Cell(row, ix.column) == Null then ix.kind == Spatial else b.encodes(ix.kind, Cell(row, ix.column))
  }

  ghost predicate ReachOk(b: Behaviour, rows: map<Place, Row>, reach: map<Place, nat>, indexes: seq<Index>) {
    && reach.Keys == rows.Keys
    && forall p :: p in rows ==> reach[p] <= |indexes| && forall i :: 0 <= i < reach[p] ==> Passed(b, indexes[i], p.table, rows[p])
  }

  /** Every index holds exactly (column value, RID) of the live rows that reached it. */
  ghost predicate Agrees(b: Behaviour, rows: map<Place, Row>, reach: map<Place, nat>, indexes: seq<Index>) {
    && ReachOk(b, rows, reach, indexes)
    && forall i {:trigger IndexAgrees(rows, reach, indexes, i)} :: 0 <= i < |indexes| ==> IndexAgrees(rows, reach, indexes, i)
  }

  /** Every live row reached all indexes. */
  ghost predicate Complete(rows: map<Place, Row>, reach: map<Place, nat>, n: nat) {
    forall p :: p in rows ==> p in reach && reach[p] == n
  }

  /** Then table and indexes say the same. */
  lemma CompleteAgrees(b: Behaviour, rows: map<Place, Row>, reach: map<Place, nat>, indexes: seq<Index>, i: nat, ref: Ref)
    requires Agrees(b, rows, reach, indexes) && Complete(rows, reach, |indexes|) && i < |indexes|
    ensures var p := Place(indexes[i].table, ref.rid);
            indexes[i].entries[ref] ==
              if p in rows && ref.value != Null && Cell(rows[p], indexes[i].column) == ref.value then 1 else 0
  {
    assert IndexAgrees(rows, reach, indexes, i);
  }

  ghost predicate SameIndexes(a: seq<Index>, b: seq<Index>) {
    |a| == |b| && forall i :: 0 <= i < |a| ==> a[i].table == b[i].table && a[i].column == b[i].column && a[i].kind == b[i].kind
  }

  /** Index i after one row was entered. */
  ghost predicate Entered(before: seq<Index>, after: seq<Index>, i: nat, t: nat, row: Row, rid: RID)
    requires i < |before| && i < |after|
  {
    after[i].entries ==
      if before[i].table == t && Cell(row, before[i].column) != Null
      then before[i].entries + multiset{Ref(Cell(row, before[i].column), rid)} else before[i].entries
  }

  /** Index i after one row was taken out. */
  ghost predicate Left(before: seq<Index>, after: seq<Index>, i: nat, t: nat, row: Row, rid: RID)
    requires i < |before| && i < |after|
  {
    after[i].entries ==
      if before[i].table == t && Cell(row, before[i].column) != Null
      then before[i].entries - multiset{Ref(Cell(row, before[i].column), rid)} else before[i].entries
  }

  /** A row that entered the first n indexes. */
  lemma AgreesAfterInsert(b: Behaviour, rows: map<Place, Row>, reach: map<Place, nat>, before: seq<Index>, p: Place, row: Row,
                          after: seq<Index>, n: nat)
    requires Agrees(b, rows, reach, before) && p !in rows && SameIndexes(before, after) && n <= |before|
    requires forall i :: 0 <= i < n ==> Entered(before, after, i, p.table, row, p.rid) && Passed(b, before[i], p.table, row)
    requires forall i :: n <= i < |before| ==> after[i] == before[i]
    ensures Agrees(b, rows[p := row], reach[p := n], after)
  {
    var rows', reach' := rows[p := row], reach[p := n];
    forall i | 0 <= i < |after|
      ensures IndexAgrees(rows', reach', after, i)
    {
      assert IndexAgrees(rows, reach, before, i);
      assert i < n ==> Entered(before, after, i, p.table, row, p.rid);
      forall ref
        ensures after[i].entries[ref] == Expected(rows', reach', after, i, ref)
      {
        assert before[i].entries[ref] == Expected(rows, reach, before, i, ref);
      }
    }
    forall q | q in rows'
      ensures reach'[q] <= |after| && forall i :: 0 <= i < reach'[q] ==> Passed(b, after[i], q.table, rows'[q])
    {
      assert forall i :: 0 <= i < reach'[q] ==> Passed(b, before[i], q.table, rows'[q]);
    }
  }

  /** A row that left the first n indexes, had not got farther, and goes. */
  lemma AgreesAfterRemove(b: Behaviour, rows: map<Place, Row>, reach: map<Place, nat>, before: seq<Index>, p: Place, after: seq<Index>, n: nat)
    requires Agrees(b, rows, reach, before) && p in rows && SameIndexes(before, after) && reach[p] <= n <= |before|
    requires forall i :: 0 <= i < n ==> Left(before, after, i, p.table, rows[p], p.rid)
    requires forall i :: n <= i < |before| ==> after[i] == before[i]
    ensures Agrees(b, rows - {p}, reach - {p}, after)
  {
    forall i | 0 <= i < |after|
      ensures IndexAgrees(rows - {p}, reach - {p}, after, i)
    {
      assert IndexAgrees(rows, reach, before, i);
      assert i < n ==> Left(before, after, i, p.table, rows[p], p.rid);
      forall ref
        ensures after[i].entries[ref] == Expected(rows - {p}, reach - {p}, after, i, ref)
      {
        assert before[i].entries[ref] == Expected(rows, reach, before, i, ref);
      }
    }
    forall q | q in rows
      ensures forall i :: 0 <= i < reach[q] ==> Passed(b, after[i], q.table, rows[q])
    {
      assert forall i :: 0 <= i < reach[q] ==> Passed(b, before[i], q.table, rows[q]);
    }
  }

  /** A row that left all indexes it had reached but stays in the table: no index knows it. */
  lemma AgreesWithout(b: Behaviour, rows: map<Place, Row>, reach: map<Place, nat>, indexes: seq<Index>, p: Place)
    requires p in rows && p in reach && Agrees(b, rows - {p}, reach - {p}, indexes)
    ensures Agrees(b, rows, reach[p := 0], indexes)
  {
    var reach' := reach[p := 0];
    assert reach'.Keys == (reach - {p}).Keys + {p};
    assert rows.Keys == (rows - {p}).Keys + {p};
    forall i | 0 <= i < |indexes|
      ensures IndexAgrees(rows, reach', indexes, i)
    {
      assert IndexAgrees(rows - {p}, reach - {p}, indexes, i);
      forall ref
        ensures indexes[i].entries[ref] == Expected(rows, reach', indexes, i, ref)
      {
        assert indexes[i].entries[ref] == Expected(rows - {p}, reach - {p}, indexes, i, ref);
      }
    }
    forall q | q in rows && q != p
      ensures reach'[q] <= |indexes| && forall i :: 0 <= i < reach'[q] ==> Passed(b, indexes[i], q.table, rows[q])
    {
      assert q in rows - {p};
    }
  }

  /** A row did not get past an index that refuses to let go of it. */
  lemma RefusedIsAbsent(b: Behaviour, rows: map<Place, Row>, reach: map<Place, nat>, indexes: seq<Index>, p: Place, n: nat)
    requires Lawful(b) && Agrees(b, rows, reach, indexes) && p in rows && n <= |indexes|
    requires n < |indexes| ==> RaisesOnRemoval(b, indexes[n], p.table, rows[p])
    ensures reach[p] <= n
  {
    assert forall i :: 0 <= i < reach[p] ==> Passed(b, indexes[i], p.table, rows[p]);
  }

  // ----- the transaction so far -----

  /** RIDs are slots of pages, given out once (RidSupply); each table has its slot counts. */
  function CountsOf(slots: map<nat, Counts>, t: nat): Counts {
    if t in slots then slots[t] else map[]
  }

  predicate Used(slots: map<nat, Counts>, p: Place) {
    Issued(CountsOf(slots, p.table), p.rid)
  }

  /**
   The rows the first k steps of the transaction left, read off backwards from the live rows.
   A row that the transaction inserted and later removed is not put back.
   */
  function Net(live: map<Place, Row>, journal: seq<Undo>, k: nat): map<Place, Row>
    decreases |journal| - k
  {
    if k >= |journal| then live
    else match journal[k]
      case UndoInsert(p) => Net(live, journal, k + 1) - {p}
      case UndoRemove(p, row) => if UndoInsert(p) in journal then Net(live, journal, k + 1) else Net(live, journal, k + 1)[p := row]
  }

  ghost predicate IsRemove(journal: seq<Undo>, k: nat, p: Place) {
    k < |journal| && journal[k].UndoRemove? && journal[k].at == p
  }

  /** No row of the start was inserted, none was inserted or removed twice, and none that was removed is there. */
  ghost predicate TxOk(start: map<Place, Row>, live: map<Place, Row>, journal: seq<Undo>) {
    && (forall p {:trigger UndoInsert(p)} :: UndoInsert(p) in journal ==> p !in start)
    && (forall i, j :: 0 <= i < j < |journal| && journal[i].UndoInsert? ==> journal[i] != journal[j])
    && (forall k: nat, p {:trigger IsRemove(journal, k, p)} :: IsRemove(journal, k, p) ==> p !in live)
    && (forall i: nat, j: nat, p {:trigger IsRemove(journal, i, p), IsRemove(journal, j, p)} :: IsRemove(journal, i, p) && IsRemove(journal, j, p) ==> i == j)
  }

  ghost predicate Mentions(journal: seq<Undo>, p: Place) {
    UndoInsert(p) in journal || exists k: nat :: IsRemove(journal, k, p)
  }

  lemma {:induction false} NetAfterInsert(live: map<Place, Row>, journal: seq<Undo>, p: Place, row: Row, k: nat)
    requires p !in live && !Mentions(journal, p) && k <= |journal|
    ensures Net(live[p := row], journal + [UndoInsert(p)], k) == Net(live, journal, k)
    decreases |journal| - k
  {
    var after := journal + [UndoInsert(p)];
    if k == |journal| {
      assert live[p := row] - {p} == live;
      assert Net(live[p := row], after, k + 1) == live[p := row];
    } else {
      NetAfterInsert(live, journal, p, row, k + 1);
      assert after[k] == journal[k];
      assert journal[k].UndoRemove? ==> IsRemove(journal, k, journal[k].at);
    }
  }

  lemma TxOkInsert(start: map<Place, Row>, live: map<Place, Row>, journal: seq<Undo>, p: Place, row: Row)
    requires TxOk(start, live, journal) && p !in live && p !in start && !Mentions(journal, p)
    ensures TxOk(start, live[p := row], journal + [UndoInsert(p)])
    ensures Net(live[p := row], journal + [UndoInsert(p)], 0) == Net(live, journal, 0)
  {
    NetAfterInsert(live, journal, p, row, 0);
    forall k: nat, q | IsRemove(journal + [UndoInsert(p)], k, q)
      ensures IsRemove(journal, k, q) && q != p
    {
      assert IsRemove(journal, k, q);
    }
  }

  /** Removing a row that the transaction had inserted. */
  lemma {:induction false} NetAfterOwnRemove(live: map<Place, Row>, journal: seq<Undo>, p: Place, row: Row, k: nat)
    requires UndoInsert(p) in journal && k <= |journal|
    requires forall i: nat :: !IsRemove(journal, i, p)
    ensures Net(live - {p}, journal + [UndoRemove(p, row)], k) == Net(live, journal, k) - {p}
    decreases |journal| - k
  {
    var after := journal + [UndoRemove(p, row)];
    if k == |journal| {
      assert Net(live - {p}, after, k + 1) == live - {p};
    } else {
      NetAfterOwnRemove(live, journal, p, row, k + 1);
      assert after[k] == journal[k];
      assert !IsRemove(journal, k, p);
    }
  }

  /** Removing a row that was there at the start. */
  lemma {:induction false} NetAfterRemove(live: map<Place, Row>, journal: seq<Undo>, p: Place, k: nat)
    requires UndoInsert(p) !in journal && p in live && k <= |journal|
    ensures Net(live - {p}, journal + [UndoRemove(p, live[p])], k) == Net(live, journal, k)
    decreases |journal| - k
  {
    var after := journal + [UndoRemove(p, live[p])];
    if k == |journal| {
      assert Net(live - {p}, after, k + 1) == live - {p};
      assert (live - {p})[p := live[p]] == live;
    } else {
      NetAfterRemove(live, journal, p, k + 1);
      assert after[k] == journal[k];
    }
  }

  lemma TxOkRemove(start: map<Place, Row>, live: map<Place, Row>, journal: seq<Undo>, p: Place)
    requires TxOk(start, live, journal) && p in live
    ensures TxOk(start, live - {p}, journal + [UndoRemove(p, live[p])])
    ensures Net(live, journal, 0) == start ==> Net(live - {p}, journal + [UndoRemove(p, live[p])], 0) == start
  {
    var after := journal + [UndoRemove(p, live[p])];
    assert forall i: nat :: !IsRemove(journal, i, p);
    if UndoInsert(p) in journal {
      NetAfterOwnRemove(live, journal, p, live[p], 0);
      assert p !in start ==> start - {p} == start;
    } else {
      NetAfterRemove(live, journal, p, 0);
    }
    forall k: nat, q | IsRemove(after, k, q)
      ensures if k < |journal| then IsRemove(journal, k, q) else k == |journal| && q == p
    {
    }
    forall i: nat, j: nat, q | IsRemove(after, i, q) && IsRemove(after, j, q)
      ensures i == j
    {
      if i < |journal| && j < |journal| {
        assert IsRemove(journal, i, q) && IsRemove(journal, j, q);
      }
    }
  }

  /** A row removed at step k, and not inserted by the transaction, is not among those left by later steps. */
  lemma {:induction false} NotInNet(live: map<Place, Row>, journal: seq<Undo>, p: Place, k: nat)
    requires p !in live && forall i: nat :: k <= i ==> !IsRemove(journal, i, p)
    ensures p !in Net(live, journal, k)
    decreases |journal| - k
  {
    if k < |journal| {
      NotInNet(live, journal, p, k + 1);
      assert !IsRemove(journal, k, p);
    }
  }

  /** A row that the transaction inserted is there until the undo comes to its insert, unless it was removed since. */
  lemma {:induction false} OwnRowInNet(live: map<Place, Row>, journal: seq<Undo>, p: Place, k: nat)
    requires UndoInsert(p) in journal && forall i :: k <= i < |journal| ==> journal[i] != UndoInsert(p)
    ensures p in Net(live, journal, k) <==> p in live
    ensures p in live ==> Net(live, journal, k)[p] == live[p]
    decreases |journal| - k
  {
    if k < |journal| {
      OwnRowInNet(live, journal, p, k + 1);
    }
  }

  // ----- the undo -----

  /** The rows are the same ones, each under its old or a new RID: f says where each went, g where it came from. */
  ghost predicate Moved(start: map<Place, Row>, rows: map<Place, Row>, f: map<Place, Place>, g: map<Place, Place>) {
    && f.Keys == start.Keys && g.Keys == rows.Keys
    && (forall p :: p in f ==> f[p] in g && g[f[p]] == p && rows[f[p]] == start[p] && f[p].table == p.table)
    && (forall x :: x in g ==> g[x] in f && f[g[x]] == x)
  }

  ghost predicate Restored(start: map<Place, Row>, rows: map<Place, Row>) {
    exists f, g :: Moved(start, rows, f, g)
  }

  function Compose(f: map<Place, Place>, g: map<Place, Place>): map<Place, Place> {
    map p | p in f && f[p] in g :: g[f[p]]
  }

  lemma MovedOn(a: map<Place, Row>, c: map<Place, Row>, d: map<Place, Row>, f: map<Place, Place>, g: map<Place, Place>,
                h: map<Place, Place>, l: map<Place, Place>)
    requires Moved(a, c, f, g) && Moved(c, d, h, l)
    ensures Moved(a, d, Compose(f, h), Compose(l, g))
  {
    var u, v := Compose(f, h), Compose(l, g);
    forall p | p in a
      ensures p in u && u[p] in v && v[u[p]] == p && d[u[p]] == a[p] && u[p].table == p.table
    {
      assert f[p] in c && h[f[p]] in d;
    }
    forall x | x in d
      ensures x in v && v[x] in u && u[v[x]] == x
    {
      assert l[x] in c && g[l[x]] in a;
    }
  }

  lemma MovedBack(a: map<Place, Row>, c: map<Place, Row>, f: map<Place, Place>, g: map<Place, Place>)
    requires Moved(a, c, f, g)
    ensures Moved(c, a, g, f)
  {
    forall x | x in g
      ensures a[g[x]] == c[x] && g[x].table == x.table
    {
      assert f[g[x]] == x;
    }
  }

  /** Tables that hold the same rows, RIDs aside, are restored or not together. */
  lemma RestoredTogether(start: map<Place, Row>, a: map<Place, Row>, c: map<Place, Row>)
    requires Restored(a, c)
    ensures Restored(start, c) <==> Restored(start, a)
  {
    hide Moved;
    var h, l :| Moved(a, c, h, l);
    if Restored(start, a) {
      var f, g :| Moved(start, a, f, g);
      MovedOn(start, a, c, f, g, h, l);
    }
    if Restored(start, c) {
      var f, g :| Moved(start, c, f, g);
      MovedBack(a, c, h, l);
      MovedOn(start, c, a, f, g, l, h);
    }
  }

  /** The tables hold the rows of net; those that were put back went to places never known before. */
  ghost predicate Undoing(net: map<Place, Row>, rows: map<Place, Row>, f: map<Place, Place>, g: map<Place, Place>, known: iset<Place>) {
    && Moved(net, rows, f, g)
    && forall p :: p in net ==> p in known && (f[p] == p || f[p] !in known)
  }

  /** The rows of net stand where they stood or, if they were not there, at places never used before. */
  ghost predicate Resettled(net: map<Place, Row>, live: map<Place, Row>, rows: map<Place, Row>, known: iset<Place>) {
    exists f, g :: Undoing(net, rows, f, g, known) && KeepsPlaces(net, live, f)
  }

  ghost predicate KeepsPlaces(net: map<Place, Row>, live: map<Place, Row>, f: map<Place, Place>) {
    forall p :: p in net ==> p in f && (f[p] == p <==> p in live)
  }

  function Identity(rows: map<Place, Row>): map<Place, Place> {
    map p | p in rows :: p
  }

  lemma UndoingStarts(live: map<Place, Row>, known: iset<Place>)
    requires forall p :: p in live ==> p in known
    ensures Undoing(live, live, Identity(live), Identity(live), known)
  {
  }

  /** A row that was not put back is where it was. */
  lemma InPlace(net: map<Place, Row>, rows: map<Place, Row>, f: map<Place, Place>, g: map<Place, Place>, known: iset<Place>, p: Place)
    requires Undoing(net, rows, f, g, known) && p in known && (p in net ==> f[p] == p)
    ensures p in rows <==> p in net
    ensures p in net ==> rows[p] == net[p]
  {
    if p in rows {
      assert f[g[p]] == p;
    }
  }

  lemma UndoInsertStep(net: map<Place, Row>, rows: map<Place, Row>, f: map<Place, Place>, g: map<Place, Place>, known: iset<Place>, p: Place)
    requires Undoing(net, rows, f, g, known) && p in known && (p in net ==> f[p] == p)
    ensures Undoing(net - {p}, rows - {p}, f - {p}, g - {p}, known)
  {
    InPlace(net, rows, f, g, known, p);
    assert p in g ==> g[p] == p;
    forall q | q in f && q != p
      ensures f[q] != p
    {
      assert g[f[q]] == q;
    }
    forall x | x in g && x != p
      ensures g[x] != p
    {
      assert f[g[x]] == x;
    }
  }

  lemma UndoRemoveStep(net: map<Place, Row>, rows: map<Place, Row>, f: map<Place, Place>, g: map<Place, Place>, known: iset<Place>,
                       p: Place, row: Row, q: Place)
    requires Undoing(net, rows, f, g, known) && p in known && p !in net && q !in known && q !in rows && q.table == p.table
    ensures Undoing(net[p := row], rows[q := row], f[p := q], g[q := p], known)
  {
  }

  lemma UndoingIsRestored(net: map<Place, Row>, rows: map<Place, Row>, f: map<Place, Place>, g: map<Place, Place>, known: iset<Place>)
    requires Undoing(net, rows, f, g, known)
    ensures Restored(net, rows)
  {
    assert Moved(net, rows, f, g);
  }

  // ----- when the undo meets a refusal, in terms of the state before it -----

  /** After undoing the journal down to k, the row that was at q has an entry in index i. */
  ghost predicate HeldThen(indexes: seq<Index>, reach: map<Place, nat>, live: map<Place, Row>, journal: seq<Undo>, i: nat, k: nat, q: Place)
    requires i < |indexes|
  {
    && q in Net(live, journal, k) && indexes[i].table == q.table && Cell(Net(live, journal, k)[q], indexes[i].column) != Null
    && (q in live ==> q in reach && i < reach[q])
  }

  /** After undoing the journal down to k, index i refuses to let go of the row. */
  ghost predicate RefusesThen(b: Behaviour, indexes: seq<Index>, reach: map<Place, nat>, live: map<Place, Row>, journal: seq<Undo>,
                              i: nat, k: nat, t: nat, row: Row)
    requires i < |indexes|
  {
    && indexes[i].table == t
    && match indexes[i].kind
       case Spatial => false
       case Hash => !b.encodes(Hash, Cell(row, indexes[i].column))
       case Tree =>
         && Cell(row, indexes[i].column) == Null
         && (indexes[i].layout.separators || exists q :: HeldThen(indexes, reach, live, journal, i, k, q))
  }

  /** After undoing the journal down to k, every index lets go of the row. */
  ghost predicate LetsGo(b: Behaviour, indexes: seq<Index>, reach: map<Place, nat>, live: map<Place, Row>, journal: seq<Undo>, k: nat, t: nat, row: Row) {
    forall i :: 0 <= i < |indexes| ==> !RefusesThen(b, indexes, reach, live, journal, i, k, t, row)
  }

  /** Nothing refuses the undo of step k. */
  ghost predicate StepFine(b: Behaviour, indexes: seq<Index>, reach: map<Place, nat>, live: map<Place, Row>, journal: seq<Undo>, k: nat)
    requires k < |journal|
  {
    match journal[k]
    case UndoInsert(p) =>
      p in live ==> LetsGo(b, indexes, reach, live, journal, k + 1, p.table, live[p])
    case UndoRemove(p, row) =>
      UndoInsert(p) !in journal ==> forall i :: 0 <= i < |indexes| ==> !Raises(b, indexes[i], p.table, row)
  }

  /** Nothing refuses the undo of any step. */
  ghost predicate AllFine(b: Behaviour, indexes: seq<Index>, reach: map<Place, nat>, live: map<Place, Row>, journal: seq<Undo>) {
    forall k :: 0 <= k < |journal| ==> StepFine(b, indexes, reach, live, journal, k)
  }

  /** Nothing refuses the undo of the steps from k on; for a row that comes back, as far as room does not matter. */
  ghost predicate FineFrom(b: Behaviour, indexes: seq<Index>, reach: map<Place, nat>, live: map<Place, Row>, journal: seq<Undo>, k: nat) {
    forall j :: k <= j < |journal| && (journal[j].UndoInsert? || ByKeyOnly(b)) ==> StepFine(b, indexes, reach, live, journal, j)
  }

  lemma NotAllFine(b: Behaviour, indexes: seq<Index>, reach: map<Place, nat>, live: map<Place, Row>, journal: seq<Undo>, k: nat)
    requires k < |journal| && !StepFine(b, indexes, reach, live, journal, k)
    ensures !AllFine(b, indexes, reach, live, journal)
  {
    hide StepFine;
  }

  /** Whether an index has room for a key does not depend on what is on its pages. */
  ghost predicate ByKeyOnly(b: Behaviour) {
    forall a: Index, c: Index, key {:trigger b.full(a, key), b.full(c, key)} ::
      a.table == c.table && a.column == c.column && a.kind == c.kind ==> b.full(a, key) == b.full(c, key)
  }

  /** What is still true of reach and separators part-way: rows put back reached every index. */
  ghost predicate Tracked(indexes: seq<Index>, reach: map<Place, nat>, live: map<Place, Row>, now: seq<Index>, reachNow: map<Place, nat>,
                          net: map<Place, Row>, f: map<Place, Place>) {
    && SameIndexes(indexes, now)
    && (forall p :: p in net ==> RowTracked(reach, live, reachNow, net, f, |indexes|, p))
    && (forall i :: 0 <= i < |indexes| ==> SeparatorsTracked(indexes, live, now, net, i))
  }

  ghost predicate RowTracked(reach: map<Place, nat>, live: map<Place, Row>, reachNow: map<Place, nat>, net: map<Place, Row>, f: map<Place, Place>, n: nat, p: Place)
    requires p in net
  {
    && p in f && f[p] in reachNow
    && (f[p] == p <==> p in live)
    && if p in live then p in reach && reachNow[p] == reach[p] && net[p] == live[p] else reachNow[f[p]] == n
  }

  /** Separators that were not there before come from a row that was put back. */
  ghost predicate SeparatorsTracked(indexes: seq<Index>, live: map<Place, Row>, now: seq<Index>, net: map<Place, Row>, i: nat)
    requires i < |indexes| && i < |now|
  {
    && (indexes[i].layout.separators ==> now[i].layout.separators)
    && (now[i].layout.separators ==> indexes[i].layout.separators || exists p :: PutBackInto(indexes, live, net, i, p))
  }

  ghost predicate SeparatorsFollow(indexes: seq<Index>, live: map<Place, Row>, now: seq<Index>, net: map<Place, Row>) {
    |now| == |indexes| && forall i :: 0 <= i < |indexes| ==> SeparatorsTracked(indexes, live, now, net, i)
  }

  ghost predicate PutBackInto(indexes: seq<Index>, live: map<Place, Row>, net: map<Place, Row>, i: nat, p: Place)
    requires i < |indexes|
  {
    p !in live && p in net && indexes[i].table == p.table && Cell(net[p], indexes[i].column) != Null
  }

  /** An entry part-way belongs to a row that then had one. */
  lemma EntryHeldThen(b: Behaviour, indexes: seq<Index>, reach: map<Place, nat>, live: map<Place, Row>, journal: seq<Undo>, k: nat,
                      now: seq<Index>, reachNow: map<Place, nat>, rows: map<Place, Row>, f: map<Place, Place>, g: map<Place, Place>,
                      known: iset<Place>, i: nat)
    requires Agrees(b, rows, reachNow, now) && Undoing(Net(live, journal, k), rows, f, g, known) && i < |indexes|
    requires Tracked(indexes, reach, live, now, reachNow, Net(live, journal, k), f) && now[i].entries != multiset{}
    ensures exists q :: HeldThen(indexes, reach, live, journal, i, k, q)
  {
    hide Net;
    var ref := MemberOf(now[i].entries);
    assert IndexAgrees(rows, reachNow, now, i);
    assert now[i].entries[ref] == Expected(rows, reachNow, now, i, ref);
    var p := Place(now[i].table, ref.rid);
    var q := g[p];
    assert RowTracked(reach, live, reachNow, Net(live, journal, k), f, |indexes|, q);
    assert HeldThen(indexes, reach, live, journal, i, k, q);
  }

  lemma HeldHasEntry(b: Behaviour, indexes: seq<Index>, reach: map<Place, nat>, live: map<Place, Row>, journal: seq<Undo>, k: nat,
                     now: seq<Index>, reachNow: map<Place, nat>, rows: map<Place, Row>, f: map<Place, Place>, g: map<Place, Place>,
                     known: iset<Place>, i: nat, q: Place)
    requires Agrees(b, rows, reachNow, now) && Undoing(Net(live, journal, k), rows, f, g, known) && i < |indexes|
    requires Tracked(indexes, reach, live, now, reachNow, Net(live, journal, k), f) && HeldThen(indexes, reach, live, journal, i, k, q)
    ensures now[i].entries != multiset{}
  {
    hide Net;
    var net := Net(live, journal, k);
    assert RowTracked(reach, live, reachNow, net, f, |indexes|, q);
    assert IndexAgrees(rows, reachNow, now, i);
    var ref := Ref(Cell(net[q], indexes[i].column), f[q].rid);
    assert Place(now[i].table, ref.rid) == f[q];
    assert now[i].entries[ref] == Expected(rows, reachNow, now, i, ref);
  }

  lemma MemberOf<T>(m: multiset<T>) returns (x: T)
    requires m != multiset{}
    ensures m[x] > 0
  {
    x :| x in m;
  }

  /** The refusal met part-way is the one foreseen from the state before the undo. */
  lemma RefusalForeseen(b: Behaviour, indexes: seq<Index>, reach: map<Place, nat>, live: map<Place, Row>, journal: seq<Undo>, k: nat,
                        now: seq<Index>, reachNow: map<Place, nat>, rows: map<Place, Row>, f: map<Place, Place>, g: map<Place, Place>,
                        known: iset<Place>, i: nat, t: nat, row: Row)
    requires Agrees(b, rows, reachNow, now) && Undoing(Net(live, journal, k), rows, f, g, known) && i < |indexes|
    requires Tracked(indexes, reach, live, now, reachNow, Net(live, journal, k), f)
    ensures RaisesOnRemoval(b, now[i], t, row) <==> RefusesThen(b, indexes, reach, live, journal, i, k, t, row)
  {
    hide Net, Agrees, Undoing;
    assert SeparatorsTracked(indexes, live, now, Net(live, journal, k), i);
    if now[i].entries != multiset{} {
      EntryHeldThen(b, indexes, reach, live, journal, k, now, reachNow, rows, f, g, known, i);
    }
    if q :| HeldThen(indexes, reach, live, journal, i, k, q) {
      HeldHasEntry(b, indexes, reach, live, journal, k, now, reachNow, rows, f, g, known, i, q);
    }
    if p :| PutBackInto(indexes, live, Net(live, journal, k), i, p) {
      assert HeldThen(indexes, reach, live, journal, i, k, p);
    }
  }

  lemma LetsGoForeseen(b: Behaviour, indexes: seq<Index>, reach: map<Place, nat>, live: map<Place, Row>, journal: seq<Undo>, k: nat,
                       now: seq<Index>, reachNow: map<Place, nat>, rows: map<Place, Row>, f: map<Place, Place>, g: map<Place, Place>,
                       known: iset<Place>, t: nat, row: Row)
    requires Agrees(b, rows, reachNow, now) && Undoing(Net(live, journal, k), rows, f, g, known)
    requires Tracked(indexes, reach, live, now, reachNow, Net(live, journal, k), f)
    ensures LetsGo(b, indexes, reach, live, journal, k, t, row) <==> forall i :: 0 <= i < |now| ==> !RaisesOnRemoval(b, now[i], t, row)
  {
    assert |now| == |indexes|;
    hide Net, Agrees, Undoing, Tracked, RaisesOnRemoval, RefusesThen;
    forall i | 0 <= i < |indexes|
      ensures !RaisesOnRemoval(b, now[i], t, row) <==> !RefusesThen(b, indexes, reach, live, journal, i, k, t, row)
    {
      RefusalForeseen(b, indexes, reach, live, journal, k, now, reachNow, rows, f, g, known, i, t, row);
    }
    if forall i :: 0 <= i < |now| ==> !RaisesOnRemoval(b, now[i], t, row) {
      forall i | 0 <= i < |indexes|
        ensures !RefusesThen(b, indexes, reach, live, journal, i, k, t, row)
      {
        assert !RaisesOnRemoval(b, now[i], t, row);
      }
    }
  }

  /** A failed statement of a transaction of its own is undone, or stays open where the undo is refused. */
  datatype Result = Done | Failed | RolledBack | LeftOpen

  datatype Request = BeginTransaction | EndTransaction | UndoTransaction | Run(statement: Statement)

  datatype Statement = Insert(table: nat, values: seq<Row>) | Delete(rows: seq<Place>)

  // ----- what a request means -----

  /** What a session is between two requests: tables, indexes and the transaction. */
  datatype Shot = Shot(rows: map<Place, Row>, indexes: seq<Index>, reach: map<Place, nat>, journal: seq<Undo>, open: bool, start: map<Place, Row>)

  /** The journal, played back over the rows, leads to those of the start. */
  ghost predicate LeadsBack(s: Shot) {
    Net(s.rows, s.journal, 0) == s.start
  }

  /** One row was entered in the indexes, as far as they have it afterwards. */
  ghost predicate RowEnters(b: Behaviour, before: seq<Index>, after: seq<Index>, t: nat, row: Row, rid: RID) {
    && |after| == |before|
    && forall i :: 0 <= i < |before| ==> after[i] == if i < ReachOf(b, before, t, row) then WithEntry(b, before[i], t, row, rid) else before[i]
  }

  ghost predicate AllTake(b: Behaviour, indexes: seq<Index>, t: nat, row: Row) {
    forall i :: 0 <= i < |indexes| ==> !Raises(b, indexes[i], t, row)
  }

  /** One row was taken out of the first n indexes, the next of which, if any, raises. */
  ghost predicate RowLeaves(b: Behaviour, before: seq<Index>, after: seq<Index>, t: nat, row: Row, rid: RID, n: nat) {
    && |after| == |before| && n <= |before|
    && (forall i :: 0 <= i < n ==> !RaisesOnRemoval(b, before[i], t, row) && after[i] == WithoutEntry(b, before[i], t, row, rid))
    && (forall i :: n <= i < |before| ==> after[i] == before[i])
    && (n < |before| ==> RaisesOnRemoval(b, before[n], t, row))
  }

  /** Row k of an INSERT: an index raised for the last row of a failed statement and for no other. */
  ghost predicate InsertStep(b: Behaviour, t: nat, values: seq<Row>, places: seq<Place>, ixs: seq<seq<Index>>, ok: bool, k: nat)
    requires k < |places| <= |values| && |ixs| == |places| + 1
  {
    && RowEnters(b, ixs[k], ixs[k + 1], t, values[k], places[k].rid)
    && (AllTake(b, ixs[k], t, values[k]) <==> ok || k + 1 < |places|)
  }

  /** An INSERT, row by row, with the indexes in between. */
  ghost predicate InsertRuns(b: Behaviour, t: nat, values: seq<Row>, places: seq<Place>, ixs: seq<seq<Index>>, ok: bool) {
    && |places| <= |values| && |ixs| == |places| + 1
    && forall k {:trigger InsertStep(b, t, values, places, ixs, ok, k)} :: 0 <= k < |places| ==> InsertStep(b, t, values, places, ixs, ok, k)
  }

  lemma InsertNothing(b: Behaviour, t: nat, values: seq<Row>, indexes: seq<Index>)
    ensures InsertRuns(b, t, values, [], [indexes], true)
  {
  }

  lemma InsertMore(b: Behaviour, t: nat, values: seq<Row>, places: seq<Place>, ixs: seq<seq<Index>>, p: Place, next: seq<Index>, ok: bool)
    requires InsertRuns(b, t, values, places, ixs, true) && |places| < |values|
    requires RowEnters(b, ixs[|places|], next, t, values[|places|], p.rid) && (AllTake(b, ixs[|places|], t, values[|places|]) <==> ok)
    ensures InsertRuns(b, t, values, places + [p], ixs + [next], ok)
  {
    hide RowEnters, AllTake;
    var places', ixs' := places + [p], ixs + [next];
    forall k: nat | k < |places'|
      ensures InsertStep(b, t, values, places', ixs', ok, k)
    {
      if k < |places| {
        assert InsertStep(b, t, values, places, ixs, true, k);
      }
    }
  }

  function Among(gone: seq<Place>, k: nat): set<Place>
    requires k <= |gone|
  {
    set p | p in gone[..k]
  }

  /** Row k of a DELETE: skipped when it is gone already, else it leaves the indexes; the last row of a failed statement is held by one. */
  ghost predicate DeleteStep(b: Behaviour, rows: map<Place, Row>, p: Place, before: seq<Index>, after: seq<Index>, ok: bool) {
    if p in rows then exists n: nat :: RowLeaves(b, before, after, p.table, rows[p], p.rid, n) && (ok <==> n == |before|)
    else after == before && ok
  }

  ghost predicate DeleteStepAt(b: Behaviour, rows: map<Place, Row>, gone: seq<Place>, n: nat, ixs: seq<seq<Index>>, ok: bool, k: nat)
    requires k < n <= |gone| && |ixs| == n + 1
  {
    DeleteStep(b, rows - Among(gone, k), gone[k], ixs[k], ixs[k + 1], ok || k + 1 < n)
  }

  /** A DELETE of the first n of these rows, with the indexes in between. */
  ghost predicate DeleteRuns(b: Behaviour, rows: map<Place, Row>, gone: seq<Place>, n: nat, ixs: seq<seq<Index>>, ok: bool) {
    && n <= |gone| && |ixs| == n + 1
    && forall k {:trigger DeleteStepAt(b, rows, gone, n, ixs, ok, k)} :: 0 <= k < n ==> DeleteStepAt(b, rows, gone, n, ixs, ok, k)
  }

  lemma DeleteNothing(b: Behaviour, rows: map<Place, Row>, gone: seq<Place>, indexes: seq<Index>)
    ensures DeleteRuns(b, rows, gone, 0, [indexes], true) && rows - Among(gone, 0) == rows && Removals(rows, gone[..0]) == []
  {
  }

  lemma DeleteMore(b: Behaviour, rows: map<Place, Row>, gone: seq<Place>, n: nat, ixs: seq<seq<Index>>, next: seq<Index>, ok: bool)
    requires DeleteRuns(b, rows, gone, n, ixs, true) && n < |gone|
    requires DeleteStep(b, rows - Among(gone, n), gone[n], ixs[n], next, ok)
    ensures DeleteRuns(b, rows, gone, n + 1, ixs + [next], ok)
  {
    hide DeleteStep, Among;
    var m, ixs' := n + 1, ixs + [next];
    forall k: nat | k < m
      ensures DeleteStepAt(b, rows, gone, m, ixs', ok, k)
    {
      if k < n {
        assert DeleteStepAt(b, rows, gone, n, ixs, true, k);
      }
    }
  }

  /** What removing these rows, one after the other, adds to the journal. */
  function Removals(rows: map<Place, Row>, gone: seq<Place>): seq<Undo> {
    if gone == [] then []
    else
      var n := |gone| - 1;
      Removals(rows, gone[..n]) + if gone[n] in rows && gone[n] !in gone[..n] then [UndoRemove(gone[n], rows[gone[n]])] else []
  }

  lemma RemovalsOneMore(rows: map<Place, Row>, gone: seq<Place>, k: nat)
    requires k < |gone|
    ensures Removals(rows, gone[..k + 1]) ==
            Removals(rows, gone[..k]) + if gone[k] in rows - Among(gone, k) then [UndoRemove(gone[k], rows[gone[k]])] else []
    ensures rows - Among(gone, k + 1) == (rows - Among(gone, k)) - {gone[k]}
  {
    assert gone[..k + 1][..k] == gone[..k] && gone[..k + 1] == gone[..k] + [gone[k]];
  }

  /** A statement ran: all of it, or up to a row for which an index raised. */
  ghost predicate InsertRan(b: Behaviour, t: nat, values: seq<Row>, places: seq<Place>, ixs: seq<seq<Index>>, ok: bool, s: Shot, s': Shot) {
    && InsertRuns(b, t, values, places, ixs, ok) && (if ok then |places| == |values| else places != [])
    && ixs[0] == s.indexes && ixs[|places|] == s'.indexes
    && Added(s.rows, s'.rows, t, places, values) && s'.journal == s.journal + Inserts(places)
  }

  ghost predicate DeleteRan(b: Behaviour, gone: seq<Place>, n: nat, ixs: seq<seq<Index>>, ok: bool, s: Shot, s': Shot) {
    && DeleteRuns(b, s.rows, gone, n, ixs, ok) && (if ok then n == |gone| else n > 0)
    && ixs[0] == s.indexes && ixs[n] == s'.indexes
    && s'.rows == s.rows - Among(gone, n) && s'.journal == s.journal + Removals(s.rows, gone[..n])
  }

  ghost predicate Ran(b: Behaviour, statement: Statement, s: Shot, s': Shot, ok: bool) {
    && s'.open == s.open && s'.start == s.start && (LeadsBack(s) ==> LeadsBack(s'))
    && match statement
       case Insert(t, values) => exists places: seq<Place>, ixs: seq<seq<Index>> :: InsertRan(b, t, values, places, ixs, ok, s, s')
       case Delete(gone) => exists n: nat, ixs: seq<seq<Index>> :: DeleteRan(b, gone, n, ixs, ok, s, s')
  }

  /** A rollback, down to the steps still in effect; one that is refused leaves the transaction open with its journal. */
  ghost predicate Undone(b: Behaviour, s: Shot, s': Shot, done: bool, held: nat) {
    && held <= |s.journal| && (done ==> held == 0)
    && s'.open == !done && s'.journal == (if done then [] else s.journal) && s'.start == (if done then s'.rows else s.start)
    && Restored(Net(s.rows, s.journal, held), s'.rows)
    && (Restored(s.start, s'.rows) <==> Restored(s.start, Net(s.rows, s.journal, held)))
    && (done && LeadsBack(s) ==> Restored(s.start, s'.rows))
    && (ByKeyOnly(b) ==> (done <==> AllFine(b, s.indexes, s.reach, s.rows, s.journal)))
  }

  ghost predicate UndoneSomehow(b: Behaviour, s: Shot, s': Shot, done: bool) {
    exists held: nat :: Undone(b, s, s', done, held)
  }

  /** A statement outside a transaction: it ran, then it was committed, or undone as far as that goes. */
  ghost predicate RanAlone(b: Behaviour, statement: Statement, s: Shot, mid: Shot, s': Shot, result: Result) {
    && Ran(b, statement, s.(journal := [], open := true, start := s.rows), mid, result == Done)
    && match result
       case Done => s' == mid.(journal := [], open := false, start := mid.rows)
       case RolledBack => UndoneSomehow(b, mid, s', true)
       case LeftOpen => UndoneSomehow(b, mid, s', false)
       case Failed => false
  }

  /** What a request does, and what it answers. */
  ghost predicate Handled(b: Behaviour, request: Request, result: Result, s: Shot, s': Shot) {
    match request
    case BeginTransaction => if s.open then s' == s && result == Failed else s' == s.(journal := [], open := true, start := s.rows) && result == Done
    case EndTransaction => if s.open then s' == s.(journal := [], open := false, start := s.rows) && result == Done else s' == s && result == Failed
    case UndoTransaction =>
      if s.open
      then (result == RolledBack || result == LeftOpen) && UndoneSomehow(b, s, s', result == RolledBack)
      else s' == s && result == Failed
    case Run(statement) =>
      if s.open then (result == Done || result == Failed) && Ran(b, statement, s, s', result == Done)
      else exists mid: Shot :: RanAlone(b, statement, s, mid, s', result)
  }

  /** The rows after these places took these values, in order. */
  ghost predicate Added(before: map<Place, Row>, after: map<Place, Row>, t: nat, places: seq<Place>, values: seq<Row>) {
    && |places| <= |values| && (forall i, j :: 0 <= i < j < |places| ==> places[i] != places[j])
    && (forall i :: 0 <= i < |places| ==> places[i] !in before && places[i] in after && after[places[i]] == values[i] && places[i].table == t)
    && (forall p :: p in after <==> p in before || p in places)
    && (forall p :: p in before ==> p in after && after[p] == before[p])
  }

  /** Rows that were there have reached the same indexes as before. */
  ghost predicate SameReach(rows: map<Place, Row>, reach: map<Place, nat>, before: map<Place, nat>) {
    forall p :: p in rows && p in before ==> p in reach && reach[p] == before[p]
  }

  lemma SameOnwards(a: seq<Index>, b: seq<Index>, c: seq<Index>)
    requires SameIndexes(a, b) && SameIndexes(b, c)
    ensures SameIndexes(a, c) && |a| == |b| == |c|
  {
  }

  lemma SameAtFirst(indexes: seq<Index>, rows: map<Place, Row>, reach: map<Place, nat>)
    ensures SameIndexes(indexes, indexes) && SameReach(rows, reach, reach)
  {
  }

  /** A statement adds one row. */
  lemma RowAdded(rows0: map<Place, Row>, reach0: map<Place, nat>, rows1: map<Place, Row>, reach1: map<Place, nat>, t: nat,
                 places: seq<Place>, values: seq<Row>, p: Place, row: Row, rows: map<Place, Row>, reach: map<Place, nat>, n: nat)
    requires reach0.Keys == rows0.Keys && Added(rows0, rows1, t, places, values) && SameReach(rows1, reach1, reach0)
    requires p !in rows1 && rows == rows1[p := row] && p in reach && reach == reach1[p := reach[p]]
    ensures SameReach(rows, reach, reach0)
    ensures Complete(rows1, reach1, n) && reach[p] == n ==> Complete(rows, reach, n)
  {
  }

  /** A statement removes one row. */
  lemma RowRemoved(rows1: map<Place, Row>, reach1: map<Place, nat>, reach0: map<Place, nat>, p: Place, rows: map<Place, Row>,
                   reach: map<Place, nat>, n: nat)
    requires SameReach(rows1, reach1, reach0) && rows == rows1 - {p} && reach == reach1 - {p}
    ensures SameReach(rows, reach, reach0)
    ensures Complete(rows1, reach1, n) ==> Complete(rows, reach, n)
  {
  }

  /** The rows a failed statement left, undone: those of the start, each indexed as before or anew. */
  lemma AllBack(rows0: map<Place, Row>, reach0: map<Place, nat>, rows1: map<Place, Row>, reach1: map<Place, nat>,
                rows: map<Place, Row>, reach: map<Place, nat>, n: nat)
    requires Complete(rows0, reach0, n) && SameReach(rows1, reach1, reach0)
    requires forall p :: p in rows ==> p in reach && reach[p] == if p in rows1 then (if p in reach1 then reach1[p] else 0) else n
    requires forall p :: p in rows && p in rows1 ==> p in rows0
    ensures Complete(rows, reach, n)
  {
  }

  /** Rows that all reached every index, or came back to do so. */
  lemma StillIndexed(rows1: map<Place, Row>, reach1: map<Place, nat>, rows: map<Place, Row>, reach: map<Place, nat>, n: nat)
    requires Complete(rows1, reach1, n)
    requires forall p :: p in rows ==> p in reach && reach[p] == if p in rows1 then (if p in reach1 then reach1[p] else 0) else n
    ensures Complete(rows, reach, n)
  {
  }

  function Inserts(places: seq<Place>): seq<Undo> {
    seq(|places|, i requires 0 <= i < |places| => UndoInsert(places[i]))
  }

  lemma InsertsOne(places: seq<Place>, p: Place)
    ensures Inserts(places + [p]) == Inserts(places) + [UndoInsert(p)]
  {
  }

  lemma AddedNothing(rows: map<Place, Row>, t: nat, values: seq<Row>)
    ensures Added(rows, rows, t, [], values) && Inserts([]) == []
  {
  }

  lemma InsertsMany(journal: seq<Undo>, places: seq<Place>)
    requires places != []
    ensures journal + Inserts(places) != []
  {
    assert |journal + Inserts(places)| > 0;
  }

  lemma AddedOne(before: map<Place, Row>, was: map<Place, Row>, after: map<Place, Row>, t: nat, places: seq<Place>, values: seq<Row>, p: Place)
    requires Added(before, was, t, places, values) && |places| < |values| && p !in was && p.table == t && after == was[p := values[|places|]]
    ensures Added(before, after, t, places + [p], values)
  {
    assert forall q :: q in places + [p] <==> q in places || q == p;
  }

  lemma RowEntersIs(b: Behaviour, before: seq<Index>, after: seq<Index>, t: nat, row: Row, rid: RID, reached: nat, ok: bool)
    requires SameIndexes(before, after) && reached == ReachOf(b, before, t, row)
    requires forall i :: 0 <= i < |after| ==> after[i] == if i < reached then WithEntry(b, before[i], t, row, rid) else before[i]
    requires ok <==> forall i :: 0 <= i < |before| ==> !Raises(b, before[i], t, row)
    ensures RowEnters(b, before, after, t, row, rid) && (AllTake(b, before, t, row) <==> ok)
  {
    hide Raises, WithEntry, ReachOf;
  }

  lemma DeleteStepIs(b: Behaviour, rows: map<Place, Row>, p: Place, before: seq<Index>, after: seq<Index>, removed: bool, ok: bool)
    requires removed <==> p in rows
    requires removed ==> exists n: nat :: RowLeaves(b, before, after, p.table, rows[p], p.rid, n)
    requires removed ==> (ok <==> forall i :: 0 <= i < |before| ==> !RaisesOnRemoval(b, before[i], p.table, rows[p]))
    requires !removed ==> ok && after == before
    ensures DeleteStep(b, rows, p, before, after, ok)
  {
    hide RaisesOnRemoval, WithoutEntry;
    if removed {
      var n: nat :| RowLeaves(b, before, after, p.table, rows[p], p.rid, n);
      assert ok <==> n == |before|;
    }
  }

  lemma RanInsert(b: Behaviour, t: nat, values: seq<Row>, places: seq<Place>, ixs: seq<seq<Index>>, ok: bool, s: Shot, s': Shot)
    requires InsertRan(b, t, values, places, ixs, ok, s, s') && s'.open == s.open && s'.start == s.start && (LeadsBack(s) ==> LeadsBack(s'))
    ensures Ran(b, Insert(t, values), s, s', ok) && (!ok ==> places != [])
    ensures s'.journal == s.journal + Inserts(places)
  {
    hide InsertRuns, Added, LeadsBack, Inserts;
  }

  lemma RanDelete(b: Behaviour, gone: seq<Place>, n: nat, ixs: seq<seq<Index>>, ok: bool, s: Shot, s': Shot)
    requires DeleteRan(b, gone, n, ixs, ok, s, s') && s'.open == s.open && s'.start == s.start && (LeadsBack(s) ==> LeadsBack(s'))
    ensures Ran(b, Delete(gone), s, s', ok)
  {
    hide DeleteRuns, LeadsBack, Among, Removals;
  }

  /** What a rollback ensures is what Undone says. */
  lemma UndoneIs(b: Behaviour, s: Shot, s': Shot, done: bool, held: nat)
    requires held <= |s.journal| && (done ==> held == 0)
    requires s'.open == !done && s'.journal == (if done then [] else s.journal) && s'.start == (if done then s'.rows else s.start)
    requires exists known :: Resettled(Net(s.rows, s.journal, held), s.rows, s'.rows, known)
    requires Restored(s.start, s'.rows) <==> Restored(s.start, Net(s.rows, s.journal, held))
    requires done && LeadsBack(s) ==> Restored(s.start, s'.rows)
    requires ByKeyOnly(b) ==> (done <==> AllFine(b, s.indexes, s.reach, s.rows, s.journal))
    ensures Undone(b, s, s', done, held) && UndoneSomehow(b, s, s', done)
  {
    hide Restored, AllFine, ByKeyOnly, Net, LeadsBack, Undoing, KeepsPlaces;
    var known :| Resettled(Net(s.rows, s.journal, held), s.rows, s'.rows, known);
    var f, g :| Undoing(Net(s.rows, s.journal, held), s'.rows, f, g, known) && KeepsPlaces(Net(s.rows, s.journal, held), s.rows, f);
    UndoingIsRestored(Net(s.rows, s.journal, held), s'.rows, f, g, known);
  }

  lemma RanAloneIs(b: Behaviour, statement: Statement, s: Shot, begun: Shot, mid: Shot, s': Shot, result: Result)
    requires begun == s.(journal := [], open := true, start := s.rows) && Ran(b, statement, begun, mid, result == Done)
    requires match result
             case Done => s' == mid.(journal := [], open := false, start := mid.rows)
             case RolledBack => UndoneSomehow(b, mid, s', true)
             case LeftOpen => UndoneSomehow(b, mid, s', false)
             case Failed => false
    ensures RanAlone(b, statement, s, mid, s', result)
  {
    hide Ran, UndoneSomehow;
  }

  lemma BeginIs(b: Behaviour, s: Shot, s': Shot, result: Result)
    requires if s.open then s' == s && result == Failed else s' == s.(journal := [], open := true, start := s.rows) && result == Done
    ensures Handled(b, BeginTransaction, result, s, s')
  {
  }

  lemma EndIs(b: Behaviour, s: Shot, s': Shot, result: Result)
    requires if s.open then s' == s.(journal := [], open := false, start := s.rows) && result == Done else s' == s && result == Failed
    ensures Handled(b, EndTransaction, result, s, s')
  {
  }

  lemma NotOpenIs(b: Behaviour, s: Shot)
    requires !s.open
    ensures Handled(b, UndoTransaction, Failed, s, s)
  {
  }

  lemma UndoIs(b: Behaviour, s: Shot, s': Shot, result: Result)
    requires s.open && (result == RolledBack || result == LeftOpen) && UndoneSomehow(b, s, s', result == RolledBack)
    ensures Handled(b, UndoTransaction, result, s, s')
  {
    hide UndoneSomehow;
  }

  lemma RunIs(b: Behaviour, statement: Statement, s: Shot, mid: Shot, s': Shot, result: Result)
    requires if s.open then (result == Done || result == Failed) && Ran(b, statement, s, s', result == Done) else RanAlone(b, statement, s, mid, s', result)
    ensures Handled(b, Run(statement), result, s, s')
    ensures statement.Insert? && result == Done ==>
              exists places: seq<Place> :: |places| == |statement.values| && Added(s.rows, s'.rows, statement.table, places, statement.values)
    ensures statement.Delete? && result == Done ==> s'.rows == s.rows - (set p | p in statement.rows)
  {
    hide LeadsBack, InsertRuns, DeleteRuns, Added, Removals, Inserts, UndoneSomehow;
    if statement.Delete? && result == Done {
      assert statement.rows[..|statement.rows|] == statement.rows;
    }
  }

  class TransactionalSession {
    const b: Behaviour
    /** The page the n-th stored record goes to; the files choose it (HeapFile, SequentialFile). */
    const pageOf: nat -> nat
    var rows: map<Place, Row>
    var slots: map<nat, Counts>
    var stored: nat
    var indexes: seq<Index>
    /** A transaction is active. */
    var open: bool
    var journal: seq<Undo>
    ghost var start: map<Place, Row>
    ghost var reach: map<Place, nat>

    /** The indexes hold what the rows reached, and live rows have issued RIDs. */
    ghost predicate Consistent()
      reads `rows, `slots, `indexes, `reach
    {
      && Lawful(b) && Agrees(b, rows, reach, indexes)
      && forall p :: p in rows ==> Used(slots, p)
    }

    ghost predicate Valid()
      reads this
    {
      && Consistent() && TxOk(start, rows, journal) && (!open ==> journal == [] && start == rows)
      && forall p {:trigger Used(slots, p)} {:trigger Mentions(journal, p)} :: p in start || Mentions(journal, p) ==> Used(slots, p)
    }

    /** The journal leads back to the rows of the start. A rollback that was refused part-way can end that. */
    ghost predicate FromStart()
      reads this
    {
      Net(rows, journal, 0) == start
    }

    ghost function Now(): Shot
      reads this
    {
      Shot(rows, indexes, reach, journal, open, start)
    }

    lemma NowIs()
      ensures Now() == Shot(rows, indexes, reach, journal, open, start) && (FromStart() <==> LeadsBack(Now()))
    {
    }

    /** Table and indexes say the same. */
    ghost predicate AllIndexed()
      reads this
    {
      Complete(rows, reach, |indexes|)
    }

    /** Empty tables with their indexes. */
    constructor (b: Behaviour, pageOf: nat -> nat, indexes: seq<Index>)
      requires Lawful(b) && forall i :: 0 <= i < |indexes| ==> indexes[i].entries == multiset{}
      ensures Valid() && !open && rows == map[] && this.indexes == indexes && this.b == b && reach == map[]
    {
      this.b, this.pageOf, this.indexes := b, pageOf, indexes;
      rows, slots, stored, open, journal := map[], map[], 0, false, [];
      start, reach := map[], map[];
      new;
      NothingMentioned();
    }

    /** Start a transaction; an error while one is active. */
    method Begin() returns (ok: bool)
      requires Valid()
      modifies this`open
      ensures ok <==> !old(open)
      ensures Valid() && open
      ensures ok ==> journal == [] && start == rows && FromStart()
    {
      if open {
        return false;
      }
      open := true;
      return true;
    }

    /** End the transaction; whatever its statements left, refused rows included, stays. An error when none is active. */
    method Commit() returns (ok: bool)
      requires Valid()
      modifies this`open, this`journal, this`start
      ensures ok <==> old(open)
      ensures Valid() && !open && journal == [] && start == rows
      ensures !ok ==> journal == old(journal) && start == old(start)
    {
      if !open {
        return false;
      }
      open, journal, start := false, [], rows;
      NothingMentioned();
      return true;
    }

    /** A record takes the next slot of some page of its table. */
    method StoreRecord(t: nat) returns (rid: RID)
      modifies this`slots, this`stored
      ensures StoresAt(CountsOf(old(slots), t), CountsOf(slots, t), rid)
      ensures forall u: nat :: u != t ==> CountsOf(slots, u) == CountsOf(old(slots), u)
      ensures rid.pageId == pageOf(old(stored)) && stored == old(stored) + 1
    {
      var page := pageOf(stored);
      var counts := CountsOf(slots, t);
      rid := RID(page, Count(counts, page));
      stored := stored + 1;
      slots := slots[t := counts[page := rid.slot + 1]];
    }

    /** Enter the row in one index after the other, until one raises. */
    method IndexRow(t: nat, row: Row, rid: RID) returns (done: bool, ghost reached: nat)
      requires Lawful(b)
      modifies this`indexes
      ensures SameIndexes(old(indexes), indexes) && reached == ReachOf(b, old(indexes), t, row) <= |indexes|
      ensures forall i :: 0 <= i < |indexes| ==> indexes[i] == if i < reached then WithEntry(b, old(indexes)[i], t, row, rid) else old(indexes)[i]
      ensures forall i :: 0 <= i < reached ==> Entered(old(indexes), indexes, i, t, row, rid) && Passed(b, old(indexes)[i], t, row)
      ensures done <==> forall i :: 0 <= i < |old(indexes)| ==> !Raises(b, old(indexes)[i], t, row)
      ensures done <==> FirstRefusal(b, old(indexes), t, row) == |indexes|
      ensures forall i :: 0 <= i < |indexes| ==> SeparatorsGrow(old(indexes)[i], indexes[i], t, row)
    {
      hide Raises, FirstRefusal, ReachOf, WithEntry, KeepsThough, Entered, Passed, SeparatorsGrow, Lawful;
      ghost var before := indexes;
      EntriesMean(b, before, t, row, rid);
      for i := 0 to |indexes|
        invariant |indexes| == |before|
        invariant forall q :: 0 <= q < i ==> !Raises(b, before[q], t, row) && indexes[q] == WithEntry(b, before[q], t, row, rid)
        invariant forall q :: i <= q < |indexes| ==> indexes[q] == before[q]
      {
        if Raises(b, indexes[i], t, row) {
          RefusalIs(b, before, t, row, i);
          if KeepsThough(b, indexes[i], t, row) {
            indexes := indexes[i := WithEntry(b, indexes[i], t, row, rid)];
            PrefixEntered(b, before, indexes, t, row, rid, i + 1);
            return false, i + 1;
          }
          PrefixEntered(b, before, indexes, t, row, rid, i);
          return false, i;
        }
        indexes := indexes[i := WithEntry(b, indexes[i], t, row, rid)];
      }
      RefusalIs(b, before, t, row, |before|);
      PrefixEntered(b, before, indexes, t, row, rid, |before|);
      return true, |indexes|;
    }

    /** Take the row out of one index after the other, until one raises. */
    method UnindexRow(t: nat, row: Row, rid: RID) returns (done: bool, ghost reached: nat)
      requires Lawful(b)
      modifies this`indexes
      ensures SameIndexes(old(indexes), indexes) && reached <= |indexes|
      ensures RowLeaves(b, old(indexes), indexes, t, row, rid, reached)
      ensures forall i :: 0 <= i < reached ==> Left(old(indexes), indexes, i, t, row, rid) && !RaisesOnRemoval(b, old(indexes)[i], t, row)
      ensures forall i :: reached <= i < |indexes| ==> indexes[i] == old(indexes)[i]
      ensures done <==> reached == |indexes|
      ensures !done ==> RaisesOnRemoval(b, old(indexes)[reached], t, row)
      ensures forall i :: 0 <= i < |indexes| ==> indexes[i].layout.separators == old(indexes)[i].layout.separators
    {
      ghost var before := indexes;
      for i := 0 to |indexes|
        invariant |indexes| == |before|
        invariant forall q :: 0 <= q < i ==> !RaisesOnRemoval(b, before[q], t, row) && indexes[q] == WithoutEntry(b, before[q], t, row, rid)
        invariant forall q :: i <= q < |indexes| ==> indexes[q] == before[q]
      {
        if RaisesOnRemoval(b, indexes[i], t, row) {
          return false, i;
        }
        indexes := indexes[i := WithoutEntry(b, indexes[i], t, row, rid)];
      }
      return true, |indexes|;
    }

    /** Store a row under a new RID, note it in the journal, then index it as far as the indexes take it. */
    method InsertRow(t: nat, row: Row) returns (done: bool, p: Place)
      requires Valid() && open
      modifies this`rows, this`slots, this`stored, this`indexes, this`journal, this`reach
      ensures Valid() && SameIndexes(old(indexes), indexes) && (old(FromStart()) ==> FromStart())
      ensures p !in old(rows) && p !in start && p.table == t && !Used(old(slots), p)
      ensures rows == old(rows)[p := row] && journal == old(journal) + [UndoInsert(p)]
      ensures reach == old(reach)[p := ReachOf(b, old(indexes), t, row)] && reach[p] <= |indexes|
      ensures done <==> forall i :: 0 <= i < |old(indexes)| ==> !Raises(b, old(indexes)[i], t, row)
      ensures done ==> reach[p] == |indexes|
      ensures forall i :: 0 <= i < |indexes| ==>
                indexes[i] == if i < reach[p] then WithEntry(b, old(indexes)[i], t, row, p.rid) else old(indexes)[i]
      ensures forall q {:trigger Used(slots, q)} {:trigger Used(old(slots), q)} :: Used(old(slots), q) ==> Used(slots, q)
    {
      hide TxOk, Agrees, Used, Passed, Raises, Net, ReachOf, FirstRefusal;
      ghost var before, ixs, was := rows, indexes, slots;
      var rid := StoreRecord(t);
      p := Place(t, rid);
      NextIsUnused(was, slots, p);
      TxOkInsert(start, rows, journal, p, row);
      rows := rows[Place(t, rid) := row];
      MentionsOneMore(journal, UndoInsert(p));
      journal := journal + [UndoInsert(Place(t, rid))];
      ghost var reached;
      done, reached := IndexRow(t, row, rid);
      AllReachedWhenDone(b, ixs, t, row);
      AgreesAfterInsert(b, before, reach, ixs, p, row, indexes, reached);
      reach := reach[p := reached];
    }

    /** Remove a row, note it in the journal, then take it out of the indexes. */
    method RemoveRow(p: Place) returns (removed: bool, done: bool)
      requires Valid() && open
      modifies this`rows, this`indexes, this`journal, this`reach
      ensures Valid() && SameIndexes(old(indexes), indexes) && (old(FromStart()) ==> FromStart())
      ensures removed <==> p in old(rows)
      ensures rows == old(rows) - {p} && reach == old(reach) - {p}
      ensures removed ==> journal == old(journal) + [UndoRemove(p, old(rows)[p])]
      ensures removed ==> (done <==> forall i :: 0 <= i < |old(indexes)| ==> !RaisesOnRemoval(b, old(indexes)[i], p.table, old(rows)[p]))
      ensures !removed ==> done && journal == old(journal) && indexes == old(indexes)
      ensures removed ==> exists n: nat :: RowLeaves(b, old(indexes), indexes, p.table, old(rows)[p], p.rid, n)
      ensures forall i :: 0 <= i < |indexes| ==> indexes[i].layout.separators == old(indexes)[i].layout.separators
    {
      hide TxOk, Used, RaisesOnRemoval, IndexAgrees, Net;
      if p !in rows {
        assert rows - {p} == rows && reach - {p} == reach;
        return false, true;
      }
      ghost var before, ixs := rows, indexes;
      var row := rows[p];
      TxOkRemove(start, rows, journal, p);
      rows := rows - {p};
      MentionsOneMore(journal, UndoRemove(p, row));
      journal := journal + [UndoRemove(p, row)];
      removed := true;
      ghost var reached;
      done, reached := UnindexRow(p.table, row, p.rid);
      RefusedIsAbsent(b, before, reach, ixs, p, reached);
      AgreesAfterRemove(b, before, reach, ixs, p, indexes, reached);
      reach := reach - {p};
    }

    /** Undo an insert: the row leaves the indexes, then the table; a row that is gone already is skipped. */
    method TakeBack(p: Place) returns (done: bool)
      requires Lawful(b) && Agrees(b, rows, reach, indexes)
      modifies this`rows, this`indexes, this`reach
      ensures SameIndexes(old(indexes), indexes) && Agrees(b, rows, reach, indexes)
      ensures done <==> (p in old(rows) ==> forall i :: 0 <= i < |old(indexes)| ==> !RaisesOnRemoval(b, old(indexes)[i], p.table, old(rows)[p]))
      ensures rows == if done then old(rows) - {p} else old(rows)
      ensures reach == if done then old(reach) - {p} else old(reach)[p := 0]
      ensures forall i :: 0 <= i < |indexes| ==> indexes[i].layout.separators == old(indexes)[i].layout.separators
    {
      hide RaisesOnRemoval, IndexAgrees;
      if p !in rows {
        assert rows - {p} == rows && reach - {p} == reach;
        return true;
      }
      ghost var ixs := indexes;
      ghost var reached;
      done, reached := UnindexRow(p.table, rows[p], p.rid);
      RefusedIsAbsent(b, rows, reach, ixs, p, reached);
      AgreesAfterRemove(b, rows, reach, ixs, p, indexes, reached);
      if done {
        rows, reach := rows - {p}, reach - {p};
      } else {
        AgreesWithout(b, rows, reach, indexes, p);
        reach := reach[p := 0];
      }
    }

    /** Undo a removal: the row comes back under a new RID and is indexed under it, unless an index refuses it. */
    method PutBack(t: nat, row: Row) returns (done: bool, ghost q: Place)
      requires Consistent()
      modifies this`rows, this`slots, this`stored, this`indexes, this`reach
      ensures Consistent() && SameIndexes(old(indexes), indexes)
      ensures q.table == t && q !in old(rows) && !Used(old(slots), q)
      ensures forall p {:trigger Used(slots, p)} :: Used(old(slots), p) ==> Used(slots, p)
      ensures rows == old(rows)[q := row] && reach == old(reach)[q := ReachOf(b, old(indexes), t, row)]
      ensures done <==> forall i :: 0 <= i < |old(indexes)| ==> !Raises(b, old(indexes)[i], t, row)
      ensures done ==> reach[q] == |indexes|
      ensures forall i :: 0 <= i < |indexes| ==> SeparatorsGrow(old(indexes)[i], indexes[i], t, row)
    {
      hide Agrees, Used, Passed, Raises, ReachOf, FirstRefusal;
      ghost var before, ixs, was := rows, indexes, slots;
      var rid := StoreRecord(t);
      q := Place(t, rid);
      NextIsUnused(was, slots, q);
      rows := rows[Place(t, rid) := row];
      ghost var reached;
      done, reached := IndexRow(t, row, rid);
      AllReachedWhenDone(b, ixs, t, row);
      AgreesAfterInsert(b, before, reach, ixs, q, row, indexes, reached);
      reach := reach[q := reached];
    }

    /** The journal is undone down to step k; before that the rows, indexes and reach were these. */
    ghost predicate UndoneTo(live: map<Place, Row>, ixs0: seq<Index>, reach0: map<Place, nat>, known: iset<Place>,
                             f: map<Place, Place>, g: map<Place, Place>, k: nat)
      reads this
    {
      && k <= |journal| && open && Consistent() && SameIndexes(ixs0, indexes) && TxOk(start, live, journal)
      && Undoing(Net(live, journal, k), rows, f, g, known) && KeepsPlaces(Net(live, journal, k), live, f)
      && Tracked(ixs0, reach0, live, indexes, reach, Net(live, journal, k), f) && RemovedStayAway(journal, rows)
      && (forall p {:trigger Used(slots, p)} :: p in known ==> Used(slots, p))
      && (forall p :: Mentions(journal, p) ==> p in known) && (forall p :: p in live ==> p in known && p in reach0)
      && (forall p :: p in start ==> p in known)
      && FineFrom(b, ixs0, reach0, live, journal, k)
    }

    lemma UndoStarts(known: iset<Place>)
      requires Valid() && open && known == UsedPlaces()
      ensures UndoneTo(rows, indexes, reach, known, Identity(rows), Identity(rows), |journal|)
    {
      hide Lawful, TxOk, Agrees, Used, Undoing, Tracked, StepFine, Net, KeepsPlaces, RemovedStayAway, Mentions;
      KnownIsUsed();
      RollbackStarts(b, indexes, reach, rows, journal, known, start);
    }

    /** Undo one step. */
    method UndoStep(k: nat, ghost live: map<Place, Row>, ghost ixs0: seq<Index>, ghost reach0: map<Place, nat>, ghost known: iset<Place>,
                    ghost f: map<Place, Place>, ghost g: map<Place, Place>)
      returns (done: bool, ghost f': map<Place, Place>, ghost g': map<Place, Place>)
      requires k < |journal| && UndoneTo(live, ixs0, reach0, known, f, g, k + 1)
      modifies this`rows, this`slots, this`stored, this`indexes, this`reach
      ensures done ==> UndoneTo(live, ixs0, reach0, known, f', g', k)
      ensures !done ==> Valid() && open && SameIndexes(ixs0, indexes)
      ensures !done ==>
                var net := Net(live, journal, if journal[k].UndoInsert? then k + 1 else k);
                Undoing(net, rows, f', g', known) && KeepsPlaces(net, live, f') && SeparatorsFollow(ixs0, live, indexes, net)
      ensures !done && (journal[k].UndoInsert? || ByKeyOnly(b)) ==> !StepFine(b, ixs0, reach0, live, journal, k)
    {
      hide Lawful, TxOk, Agrees, Used, Undoing, Tracked, StepFine, Raises, RaisesOnRemoval, Net, ReachOf, KeepsPlaces, SeparatorsFollow, SeparatorsGrow;
      f', g' := f, g;
      ghost var rows1, ixs1, reach1 := rows, indexes, reach;
      match journal[k] {
        case UndoInsert(p) =>
          assert Mentions(journal, p);
          hide Mentions, IsRemove;
          done := TakeBack(p);
          TakenBack(b, ixs0, reach0, live, journal, k, ixs1, reach1, rows1, f, g, known, p, start, indexes, done);
          if done {
            f', g' := f - {p}, g - {p};
          }
          StillOpen(start, live, rows, journal);
        case UndoRemove(p, row) =>
          RemoveHere(journal, k, p, row);
          assert Mentions(journal, p);
          hide Mentions, IsRemove;
          if UndoInsert(p) in journal {
            SkippedOwn(b, ixs0, reach0, live, journal, k, p, row);
            done := true;
          } else {
            hide RemovedStayAway;
            ghost var q;
            done, q := PutBack(p.table, row);
            PutBackThere(b, ixs0, reach0, live, journal, k, ixs1, reach1, rows1, f, g, known, p, row, q, start, indexes, done, reach);
            f', g' := f[p := q], g[q := p];
            StillOpen(start, live, rows, journal);
          }
      }
    }

    lemma FineSoFar(live: map<Place, Row>, ixs0: seq<Index>, reach0: map<Place, nat>, known: iset<Place>,
                    f: map<Place, Place>, g: map<Place, Place>, k: nat)
      requires UndoneTo(live, ixs0, reach0, known, f, g, k)
      ensures forall j :: k <= j < |journal| && (journal[j].UndoInsert? || ByKeyOnly(b)) ==> StepFine(b, ixs0, reach0, live, journal, j)
    {
      hide Lawful, TxOk, Agrees, Used, Undoing, Tracked, StepFine, Net, KeepsPlaces, RemovedStayAway, Mentions;
    }

    lemma AllUndone(live: map<Place, Row>, ixs0: seq<Index>, reach0: map<Place, nat>, known: iset<Place>,
                    f: map<Place, Place>, g: map<Place, Place>)
      requires UndoneTo(live, ixs0, reach0, known, f, g, 0)
      ensures Consistent() && SameIndexes(ixs0, indexes) && open
      ensures Undoing(Net(live, journal, 0), rows, f, g, known) && KeepsPlaces(Net(live, journal, 0), live, f)
      ensures SeparatorsFollow(ixs0, live, indexes, Net(live, journal, 0))
      ensures forall p :: p in rows ==> p in reach && reach[p] == if p in live then reach0[p] else |indexes|
      ensures forall p :: p in rows && p in live ==> p in Net(live, journal, 0)
      ensures ByKeyOnly(b) ==> AllFine(b, ixs0, reach0, live, journal)
    {
      hide Lawful, TxOk, Agrees, Used, Undoing, Tracked, StepFine, Net, KeepsPlaces, RemovedStayAway, Mentions, SeparatorsFollow;
      WhereRowsAre(ixs0, reach0, live, indexes, reach, Net(live, journal, 0), rows, f, g, known);
      AllTracked(ixs0, reach0, live, indexes, reach, Net(live, journal, 0), f);
    }

    /** Without a transaction the journal is empty. */
    lemma ClosedIsValid()
      requires Consistent() && !open && journal == [] && start == rows
      ensures Valid()
    {
      hide Lawful, Agrees, Used;
      Closed(rows, slots);
    }

    /**
     Play the journal backwards until an index refuses; `at` is the step whose undo was refused. Then the
     transaction stays open with its whole journal, and may go on, commit or try again.
     `held` says how many steps are still in effect in the tables: none when all went well; when
     taking back an insert was refused, that step and all before it; when a row that came back was
     refused by an index, the steps before that one, the row being back.

     The refused step is known beforehand: the last one that is not fine. Only for a row that
     comes back it may depend on the room an index has by then.
     */
    method Rollback() returns (done: bool, ghost at: nat, ghost held: nat)
      requires Valid() && open
      modifies this`rows, this`slots, this`stored, this`indexes, this`reach, this`open, this`journal, this`start
      ensures Valid() && SameIndexes(old(indexes), indexes) && (open <==> !done)
      ensures if done then journal == [] && start == rows else journal == old(journal) && start == old(start)
      ensures if done then held == 0 else at < |journal| && held == if journal[at].UndoInsert? then at + 1 else at
      ensures ByKeyOnly(b) ==> (done <==> AllFine(b, old(indexes), old(reach), old(rows), old(journal)))
      ensures forall j :: (if done then 0 else at + 1) <= j < |old(journal)| && (old(journal)[j].UndoInsert? || ByKeyOnly(b)) ==>
                StepFine(b, old(indexes), old(reach), old(rows), old(journal), j)
      ensures !done && (journal[at].UndoInsert? || ByKeyOnly(b)) ==> !StepFine(b, old(indexes), old(reach), old(rows), old(journal), at)
      ensures Resettled(Net(old(rows), old(journal), held), old(rows), rows, old(UsedPlaces()))
      ensures Restored(old(start), rows) <==> Restored(old(start), Net(old(rows), old(journal), held))
      ensures done && old(FromStart()) ==> Restored(old(start), rows)
      ensures done ==> forall p :: p in rows ==> p in reach && reach[p] == if p in old(rows) then old(reach)[p] else |indexes|
      ensures done ==> forall p :: p in rows && p in old(rows) ==> p in Net(old(rows), old(journal), 0)
      ensures SeparatorsFollow(old(indexes), old(rows), indexes, Net(old(rows), old(journal), held))
    {
      hide *;
      ghost var live, ixs0, reach0 := rows, indexes, reach;
      ghost var known := UsedPlaces();
      ghost var f, g := Identity(rows), Identity(rows);
      var k: nat := |journal|;
      UndoStarts(known);
      FromStartMeans();
      at, held := 0, 0;
      while k > 0
        invariant k <= |journal| && open && journal == old(journal) && start == old(start)
        invariant UndoneTo(live, ixs0, reach0, known, f, g, k)
      {
        k := k - 1;
        FineSoFar(live, ixs0, reach0, known, f, g, k + 1);
        done, f, g := UndoStep(k, live, ixs0, reach0, known, f, g);
        if !done {
          at, held := k, if journal[k].UndoInsert? then k + 1 else k;
          if journal[k].UndoInsert? || ByKeyOnly(b) {
            NotAllFine(b, ixs0, reach0, live, journal, k);
          }
          Reached(start, live, journal, held, rows, f, g, known);
          return;
        }
      }
      done := true;
      FineSoFar(live, ixs0, reach0, known, f, g, 0);
      AllUndone(live, ixs0, reach0, known, f, g);
      Reached(start, live, journal, 0, rows, f, g, known);
      NetIsStart(start);
      open, journal, start := false, [], rows;
      ClosedIsValid();
    }

    /** INSERT: one row after the other, until an index raises. */
    method InsertValues(t: nat, values: seq<Row>) returns (ok: bool, ghost places: seq<Place>, ghost ixs: seq<seq<Index>>)
      requires Valid() && open
      modifies this`rows, this`slots, this`stored, this`indexes, this`journal, this`reach
      ensures Valid() && SameIndexes(old(indexes), indexes) && (old(FromStart()) ==> FromStart())
      ensures SameReach(rows, reach, old(reach))
      ensures InsertRan(b, t, values, places, ixs, ok, old(Now()), Now())
      ensures ok && Complete(old(rows), old(reach), |old(indexes)|) ==> Complete(rows, reach, |indexes|)
    {
      hide *;
      ok, places := true, [];
      NowIs();
      ghost var s0 := Now();
      ghost var rows0, ixs0, journal0, reach0 := rows, indexes, journal, reach;
      ixs := [indexes];
      ReachHere();
      SameAtFirst(indexes, rows, reach);
      AddedNothing(rows, t, values);
      InsertNothing(b, t, values, indexes);
      for i := 0 to |values|
        invariant Valid() && SameIndexes(ixs0, indexes) && (old(FromStart()) ==> FromStart()) && |places| == i && ok
        invariant Added(rows0, rows, t, places, values) && journal == journal0 + Inserts(places) && SameReach(rows, reach, reach0)
        invariant InsertRuns(b, t, values, places, ixs, true) && |ixs| == i + 1 && ixs[0] == ixs0 && ixs[i] == indexes
        invariant |indexes| == |ixs0| && (Complete(rows0, reach0, |ixs0|) ==> Complete(rows, reach, |ixs0|))
      {
        ghost var rows1, ixs1, reach1 := rows, indexes, reach;
        var p;
        ok, p := InsertRow(t, values[i]);
        SameOnwards(ixs0, ixs1, indexes);
        RowAdded(rows0, reach0, rows1, reach1, t, places, values, p, values[i], rows, reach, |ixs0|);
        AddedOne(rows0, rows1, rows, t, places, values, p);
        InsertsOne(places, p);
        RowEntersIs(b, ixs1, indexes, t, values[i], p.rid, reach[p], ok);
        InsertMore(b, t, values, places, ixs, p, indexes, ok);
        places, ixs := places + [p], ixs + [indexes];
        if !ok {
          InsertRanIs(s0, places, ixs, t, values, ok);
          return;
        }
      }
      InsertRanIs(s0, places, ixs, t, values, ok);
    }

    lemma InsertRanIs(s: Shot, places: seq<Place>, ixs: seq<seq<Index>>, t: nat, values: seq<Row>, ok: bool)
      requires InsertRuns(b, t, values, places, ixs, ok) && (if ok then |places| == |values| else places != [])
      requires |ixs| == |places| + 1 && ixs[0] == s.indexes && ixs[|places|] == indexes
      requires Added(s.rows, rows, t, places, values) && journal == s.journal + Inserts(places)
      ensures InsertRan(b, t, values, places, ixs, ok, s, Now())
    {
    }

    lemma ReachHere()
      requires Valid()
      ensures reach.Keys == rows.Keys
    {
    }

    /** DELETE: one row after the other, until an index raises; a row already gone is skipped. */
    method DeleteRows(gone: seq<Place>) returns (ok: bool, ghost n: nat, ghost ixs: seq<seq<Index>>)
      requires Valid() && open
      modifies this`rows, this`indexes, this`journal, this`reach
      ensures Valid() && SameIndexes(old(indexes), indexes) && (old(FromStart()) ==> FromStart())
      ensures SameReach(rows, reach, old(reach))
      ensures DeleteRan(b, gone, n, ixs, ok, old(Now()), Now())
      ensures !ok ==> |journal| > |old(journal)|
      ensures ok && Complete(old(rows), old(reach), |old(indexes)|) ==> Complete(rows, reach, |indexes|)
    {
      hide *;
      ok, n := true, 0;
      NowIs();
      ghost var s0 := Now();
      ghost var rows0, ixs0, reach0 := rows, indexes, reach;
      ixs := [indexes];
      SameAtFirst(indexes, rows, reach);
      DeleteNothing(b, rows, gone, indexes);
      for i := 0 to |gone|
        invariant Valid() && SameIndexes(ixs0, indexes) && (old(FromStart()) ==> FromStart()) && n == i && ok
        invariant rows == rows0 - Among(gone, i) && SameReach(rows, reach, reach0)
        invariant journal == old(journal) + Removals(rows0, gone[..i])
        invariant DeleteRuns(b, rows0, gone, i, ixs, true) && |ixs| == i + 1 && ixs[0] == ixs0 && ixs[i] == indexes
        invariant |indexes| == |ixs0| && (Complete(rows0, reach0, |ixs0|) ==> Complete(rows, reach, |ixs0|))
      {
        ghost var rows1, ixs1, reach1, journal1 := rows, indexes, reach, journal;
        var removed;
        removed, ok := RemoveRow(gone[i]);
        SameOnwards(ixs0, ixs1, indexes);
        RowRemoved(rows1, reach1, reach0, gone[i], rows, reach, |ixs0|);
        RemovalsOneMore(rows0, gone, i);
        DeleteStepIs(b, rows1, gone[i], ixs1, indexes, removed, ok);
        DeleteMore(b, rows0, gone, i, ixs, indexes, ok);
        n, ixs := i + 1, ixs + [indexes];
        if !ok {
          DeleteRanIs(s0, gone, n, ixs, ok);
          return;
        }
      }
      DeleteRanIs(s0, gone, n, ixs, ok);
    }

    lemma DeleteRanIs(s: Shot, gone: seq<Place>, n: nat, ixs: seq<seq<Index>>, ok: bool)
      requires DeleteRuns(b, s.rows, gone, n, ixs, ok) && (if ok then n == |gone| else n > 0)
      requires n <= |gone| && |ixs| == n + 1 && ixs[0] == s.indexes && ixs[n] == indexes
      requires rows == s.rows - Among(gone, n) && journal == s.journal + Removals(s.rows, gone[..n])
      ensures DeleteRan(b, gone, n, ixs, ok, s, Now())
    {
    }

    method RunStatement(statement: Statement) returns (ok: bool)
      requires Valid() && open
      modifies this`rows, this`slots, this`stored, this`indexes, this`journal, this`reach
      ensures Valid() && SameIndexes(old(indexes), indexes) && (old(FromStart()) ==> FromStart())
      ensures Ran(b, statement, old(Now()), Now(), ok)
      ensures SameReach(rows, reach, old(reach))
      ensures ok && Complete(old(rows), old(reach), |old(indexes)|) ==> Complete(rows, reach, |indexes|)
      ensures !ok ==> journal != []
    {
      hide *;
      ghost var places, ixs, n, journal0 := [], [], 0, journal;
      NowIs();
      match statement {
        case Insert(t, values) =>
          ok, places, ixs := InsertValues(t, values);
          NowIs();
          RanInsert(b, t, values, places, ixs, ok, old(Now()), Now());
          if !ok {
            InsertsMany(journal0, places);
          }
        case Delete(gone) =>
          ok, n, ixs := DeleteRows(gone);
          NowIs();
          RanDelete(b, gone, n, ixs, ok, old(Now()), Now());
      }
    }

    /** A statement outside a transaction runs in one of its own, which ends with it unless an error cannot be undone. */
    method Execute(statement: Statement) returns (result: Result, ghost mid: Shot)
      requires Valid()
      modifies this`rows, this`slots, this`stored, this`indexes, this`journal, this`reach, this`open, this`start
      ensures Valid() && SameIndexes(old(indexes), indexes)
      ensures old(open) ==> open && (result == Done || result == Failed) && start == old(start)
      ensures old(open) ==> Ran(b, statement, old(Now()), Now(), result == Done)
      ensures !old(open) ==> result != Failed && (open <==> result == LeftOpen)
      ensures !old(open) ==> RanAlone(b, statement, old(Now()), mid, Now(), result)
      ensures result == RolledBack ==> Restored(old(rows), rows)
      ensures result == LeftOpen ==> start == old(rows) && journal != []
      ensures (result == Done || result == RolledBack) && Complete(old(rows), old(reach), |old(indexes)|) ==> Complete(rows, reach, |indexes|)
    {
      hide *;
      var ok;
      NowIs();
      mid := Now();
      if open {
        ok := RunStatement(statement);
        return if ok then Done else Failed, mid;
      }
      ghost var rows0, ixs0, reach0 := rows, indexes, reach;
      ok := Begin();
      NowIs();
      ghost var begun := Now();
      ok := RunStatement(statement);
      mid := Now();
      NowIs();
      if ok {
        ok := Commit();
        NowIs();
        RanAloneIs(b, statement, old(Now()), begun, mid, Now(), Done);
        return Done, mid;
      }
      ghost var rows1, ixs1, reach1, at, held := rows, indexes, reach, 0, 0;
      ReachHere();
      FromStartMeans();
      ok, at, held := Rollback();
      NowIs();
      SameOnwards(ixs0, ixs1, indexes);
      if ok {
        if Complete(rows0, reach0, |ixs0|) {
          AllBack(rows0, reach0, rows1, reach1, rows, reach, |ixs0|);
        }
        UndoneIs(b, mid, Now(), ok, held);
        RanAloneIs(b, statement, old(Now()), begun, mid, Now(), RolledBack);
        return RolledBack, mid;
      }
      UndoneIs(b, mid, Now(), ok, held);
      RanAloneIs(b, statement, old(Now()), begun, mid, Now(), LeftOpen);
      result := LeftOpen;
    }

    /** What a caller can ask for. `held` says how many steps of the journal a rollback left in effect. */
    method Handle(request: Request) returns (result: Result, ghost held: nat)
      requires Valid()
      modifies this`rows, this`slots, this`stored, this`indexes, this`journal, this`reach, this`open, this`start
      ensures Valid()
      ensures Handled(b, request, result, old(Now()), Now())
      ensures request.BeginTransaction? || request.EndTransaction? ==> rows == old(rows)
      ensures request.UndoTransaction? && old(open) ==>
                && Undone(b, old(Now()), Now(), result == RolledBack, held)
                && (Restored(old(start), rows) <==> Restored(old(start), Net(old(rows), old(journal), held)))
      ensures request.UndoTransaction? && result == RolledBack && old(FromStart()) ==> Restored(old(start), rows)
      ensures request.Run? && request.statement.Insert? && result == Done ==>
                exists places: seq<Place> :: |places| == |request.statement.values|
                  && Added(old(rows), rows, request.statement.table, places, request.statement.values)
      ensures request.Run? && request.statement.Delete? && result == Done ==>
                rows == old(rows) - (set p | p in request.statement.rows)
      ensures (result == Done || result == RolledBack) && Complete(old(rows), old(reach), |old(indexes)|) ==> Complete(rows, reach, |indexes|)
      ensures match request
              case BeginTransaction => result == (if old(open) then Failed else Done) && open
              case EndTransaction => result == (if old(open) then Done else Failed) && !open
              case UndoTransaction => if old(open) then (result == RolledBack || result == LeftOpen) && (open <==> result == LeftOpen) else result == Failed && !open
              case Run(_) => open <==> old(open) || result == LeftOpen
    {
      hide *;
      var ok;
      ghost var rows1, ixs1, reach1, at := rows, indexes, reach, 0;
      held := 0;
      NowIs();
      match request {
        case BeginTransaction =>
          ok := Begin();
          NowIs();
          result := if ok then Done else Failed;
          BeginIs(b, old(Now()), Now(), result);
        case EndTransaction =>
          ok := Commit();
          NowIs();
          result := if ok then Done else Failed;
          EndIs(b, old(Now()), Now(), result);
        case UndoTransaction =>
          if !open {
            NotOpenIs(b, Now());
            return Failed, held;
          }
          ReachHere();
          FromStartMeans();
          ok, at, held := Rollback();
          NowIs();
          SameOnwards(ixs1, ixs1, indexes) by { SameAtFirst(ixs1, rows, reach); }
          if ok && Complete(rows1, reach1, |ixs1|) {
            StillIndexed(rows1, reach1, rows, reach, |ixs1|);
          }
          UndoneIs(b, old(Now()), Now(), ok, held);
          result := if ok then RolledBack else LeftOpen;
          UndoIs(b, old(Now()), Now(), result);
        case Run(statement) =>
          ghost var mid;
          result, mid := Execute(statement);
          NowIs();
          SameOnwards(ixs1, ixs1, indexes) by { SameAtFirst(ixs1, rows, reach); }
          RunIs(b, statement, old(Now()), mid, Now(), result);
      }
    }

    lemma FromStartMeans()
      ensures FromStart() <==> Net(rows, journal, 0) == start
    {
    }

    ghost function UsedPlaces(): iset<Place>
      reads this
    {
      iset p | Used(slots, p)
    }

    lemma KnownIsUsed()
      requires Valid()
      ensures forall p :: p in UsedPlaces() <==> Used(slots, p)
      ensures forall p :: p in rows ==> p in UsedPlaces()
    {
    }
  }

  lemma RefusalIs(b: Behaviour, indexes: seq<Index>, t: nat, row: Row, n: nat)
    requires n <= |indexes| && (forall i :: 0 <= i < n ==> !Raises(b, indexes[i], t, row))
    requires n < |indexes| ==> Raises(b, indexes[n], t, row)
    ensures FirstRefusal(b, indexes, t, row) == n
    ensures ReachOf(b, indexes, t, row) == if n < |indexes| && KeepsThough(b, indexes[n], t, row) then n + 1 else n
    ensures n == |indexes| <==> forall i :: 0 <= i < |indexes| ==> !Raises(b, indexes[i], t, row)
  {
    hide Raises, KeepsThough;
  }

  /** What one entry more means for an index, however far its insert got. */
  lemma EntriesMean(b: Behaviour, before: seq<Index>, t: nat, row: Row, rid: RID)
    requires Lawful(b)
    ensures forall i :: 0 <= i < |before| ==> SeparatorsGrow(before[i], before[i], t, row)
    ensures forall i :: 0 <= i < |before| ==> EntryMeans(b, before[i], t, row, rid)
  {
  }

  ghost predicate EntryMeans(b: Behaviour, ix: Index, t: nat, row: Row, rid: RID) {
    && SameIndexes([ix], [WithEntry(b, ix, t, row, rid)]) && SeparatorsGrow(ix, WithEntry(b, ix, t, row, rid), t, row)
    && (!Raises(b, ix, t, row) || KeepsThough(b, ix, t, row) ==> Passed(b, ix, t, row))
  }

  /** The indexes after the row entered the first n of them. */
  lemma PrefixEntered(b: Behaviour, before: seq<Index>, after: seq<Index>, t: nat, row: Row, rid: RID, n: nat)
    requires |after| == |before| && n <= |before| && forall i :: 0 <= i < |before| ==> EntryMeans(b, before[i], t, row, rid)
    requires forall i :: 0 <= i < |before| ==> SeparatorsGrow(before[i], before[i], t, row)
    requires forall i :: 0 <= i < |before| ==> after[i] == if i < n then WithEntry(b, before[i], t, row, rid) else before[i]
    requires forall i :: 0 <= i < n ==> !Raises(b, before[i], t, row) || KeepsThough(b, before[i], t, row)
    ensures SameIndexes(before, after)
    ensures forall i :: 0 <= i < n ==> Entered(before, after, i, t, row, rid) && Passed(b, before[i], t, row)
    ensures forall i :: 0 <= i < |before| ==> SeparatorsGrow(before[i], after[i], t, row)
  {
    hide Raises, KeepsThough, Passed, SeparatorsGrow;
    forall i | 0 <= i < |before|
      ensures after[i].table == before[i].table && after[i].column == before[i].column && after[i].kind == before[i].kind
      ensures i < n ==> Entered(before, after, i, t, row, rid) && Passed(b, before[i], t, row)
      ensures SeparatorsGrow(before[i], after[i], t, row)
    {
      assert EntryMeans(b, before[i], t, row, rid);
      assert [before[i]][0] == before[i];
    }
  }

  /** Entering a row may make separators, in an index that gets an entry of it. */
  ghost predicate SeparatorsGrow(before: Index, after: Index, t: nat, row: Row) {
    && (before.layout.separators ==> after.layout.separators)
    && (after.layout.separators && !before.layout.separators ==> before.table == t && Cell(row, before.column) != Null)
  }

  lemma NothingMentioned()
    ensures forall p :: !Mentions([], p)
  {
  }

  lemma MentionsOneMore(journal: seq<Undo>, e: Undo)
    ensures forall p {:trigger Mentions(journal + [e], p)} :: Mentions(journal + [e], p) ==> Mentions(journal, p) || p == e.at
  {
    forall p | Mentions(journal + [e], p) && p != e.at
      ensures Mentions(journal, p)
    {
      if UndoInsert(p) !in journal {
        var k: nat :| IsRemove(journal + [e], k, p);
        assert IsRemove(journal, k, p);
      }
    }
  }

  /** The next slot of a page was never used; everything used stays used. */
  lemma NextIsUnused(before: map<nat, Counts>, after: map<nat, Counts>, p: Place)
    requires StoresAt(CountsOf(before, p.table), CountsOf(after, p.table), p.rid)
    requires forall u: nat :: u != p.table ==> CountsOf(after, u) == CountsOf(before, u)
    ensures !Used(before, p) && Used(after, p)
    ensures forall q {:trigger Used(before, q)} {:trigger Used(after, q)} :: Used(before, q) ==> Used(after, q)
    ensures forall q {:trigger Used(after, q)} :: Used(after, q) ==> Used(before, q) || q == p
  {
    StoredIsFresh(CountsOf(before, p.table), CountsOf(after, p.table), p.rid);
    forall q
      ensures Used(after, q) <==> Used(before, q) || q == p
    {
      assert q.table == p.table ==> (q == p <==> q.rid == p.rid);
    }
  }

  // ----- the steps of the rollback -----

  /** Places whose rows the transaction removed have no row. */
  ghost predicate RemovedStayAway(journal: seq<Undo>, rows: map<Place, Row>) {
    forall k: nat, p {:trigger IsRemove(journal, k, p)} :: IsRemove(journal, k, p) ==> p !in rows
  }

  lemma RollbackStarts(b: Behaviour, indexes: seq<Index>, reach: map<Place, nat>, live: map<Place, Row>, journal: seq<Undo>,
                       known: iset<Place>, start: map<Place, Row>)
    requires Agrees(b, live, reach, indexes) && TxOk(start, live, journal) && forall p :: p in live ==> p in known
    ensures Undoing(Net(live, journal, |journal|), live, Identity(live), Identity(live), known)
    ensures KeepsPlaces(Net(live, journal, |journal|), live, Identity(live))
    ensures Tracked(indexes, reach, live, indexes, reach, Net(live, journal, |journal|), Identity(live))
    ensures RemovedStayAway(journal, live)
    ensures forall p :: p in live ==> p in reach
  {
    UndoingStarts(live, known);
  }

  lemma Reached(start: map<Place, Row>, live: map<Place, Row>, journal: seq<Undo>, held: nat, rows: map<Place, Row>,
                f: map<Place, Place>, g: map<Place, Place>, known: iset<Place>)
    requires Undoing(Net(live, journal, held), rows, f, g, known) && KeepsPlaces(Net(live, journal, held), live, f)
    ensures Resettled(Net(live, journal, held), live, rows, known)
    ensures Restored(start, rows) <==> Restored(start, Net(live, journal, held))
  {
    hide Undoing, Restored, Net, KeepsPlaces;
    UndoingIsRestored(Net(live, journal, held), rows, f, g, known);
    RestoredTogether(start, Net(live, journal, held), rows);
  }

  /** After a refused undo the journal still belongs to the transaction. */
  lemma StillOpen(start: map<Place, Row>, live: map<Place, Row>, rows: map<Place, Row>, journal: seq<Undo>)
    requires TxOk(start, live, journal) && RemovedStayAway(journal, rows)
    ensures TxOk(start, rows, journal)
  {
  }

  lemma Closed(rows: map<Place, Row>, slots: map<nat, Counts>)
    ensures TxOk(rows, rows, []) && forall p :: !Mentions([], p)
  {
    NothingMentioned();
  }

  lemma RemoveHere(journal: seq<Undo>, k: nat, p: Place, row: Row)
    requires k < |journal| && journal[k] == UndoRemove(p, row)
    ensures IsRemove(journal, k, p)
  {
  }

  lemma AllTracked(indexes: seq<Index>, reach: map<Place, nat>, live: map<Place, Row>, now: seq<Index>, reachNow: map<Place, nat>,
                   net: map<Place, Row>, f: map<Place, Place>)
    requires Tracked(indexes, reach, live, now, reachNow, net, f)
    ensures SeparatorsFollow(indexes, live, now, net)
  {
  }

  lemma NetIsStart(start: map<Place, Row>)
    ensures Restored(start, start)
  {
    assert Moved(start, start, Identity(start), Identity(start));
  }

  lemma AllReachedWhenDone(b: Behaviour, indexes: seq<Index>, t: nat, row: Row)
    ensures ReachOf(b, indexes, t, row) <= |indexes|
    ensures FirstRefusal(b, indexes, t, row) == |indexes| ==> ReachOf(b, indexes, t, row) == |indexes|
  {
  }

  lemma WhereRowsAre(indexes: seq<Index>, reach: map<Place, nat>, live: map<Place, Row>, now: seq<Index>, reachNow: map<Place, nat>,
                     net: map<Place, Row>, rows: map<Place, Row>, f: map<Place, Place>, g: map<Place, Place>, known: iset<Place>)
    requires Undoing(net, rows, f, g, known) && Tracked(indexes, reach, live, now, reachNow, net, f)
    requires forall p :: p in live ==> p in known && p in reach
    ensures forall p :: p in rows ==> p in reachNow && reachNow[p] == if p in live then reach[p] else |now|
    ensures forall p :: p in rows && p in live ==> p in net
  {
    forall p | p in rows
      ensures p in reachNow && reachNow[p] == if p in live then reach[p] else |now|
      ensures p in live ==> p in net
    {
      assert f[g[p]] == p;
      assert RowTracked(reach, live, reachNow, net, f, |indexes|, g[p]);
    }
  }

  /** Step k took an insert back, or was refused as foreseen. */
  lemma TakenBack(b: Behaviour, indexes: seq<Index>, reach: map<Place, nat>, live: map<Place, Row>, journal: seq<Undo>, k: nat,
                  now: seq<Index>, reachNow: map<Place, nat>, rows: map<Place, Row>, f: map<Place, Place>, g: map<Place, Place>,
                  known: iset<Place>, p: Place, start: map<Place, Row>, next: seq<Index>, done: bool)
    requires TxOk(start, live, journal) && k < |journal| && journal[k] == UndoInsert(p) && p in known
    requires Agrees(b, rows, reachNow, now) && Undoing(Net(live, journal, k + 1), rows, f, g, known)
    requires Tracked(indexes, reach, live, now, reachNow, Net(live, journal, k + 1), f)
    requires done <==> (p in rows ==> forall i :: 0 <= i < |now| ==> !RaisesOnRemoval(b, now[i], p.table, rows[p]))
    requires SameIndexes(now, next) && forall i :: 0 <= i < |now| ==> next[i].layout.separators == now[i].layout.separators
    ensures done <==> StepFine(b, indexes, reach, live, journal, k)
    requires KeepsPlaces(Net(live, journal, k + 1), live, f)
    ensures done ==> Undoing(Net(live, journal, k), rows - {p}, f - {p}, g - {p}, known)
    ensures done ==> Tracked(indexes, reach, live, next, reachNow - {p}, Net(live, journal, k), f - {p})
    ensures done ==> KeepsPlaces(Net(live, journal, k), live, f - {p})
    ensures SeparatorsFollow(indexes, live, next, Net(live, journal, k + 1))
  {
    hide Undoing, Tracked, Agrees, RaisesOnRemoval, RefusesThen;
    SeparatorsStay(indexes, reach, live, now, reachNow, Net(live, journal, k + 1), f, next);
    var net := Net(live, journal, k + 1);
    OwnRowInNet(live, journal, p, k + 1) by {
      assert forall j :: k < j < |journal| ==> journal[j] != journal[k];
    }
    OwnInPlace(indexes, reach, live, now, reachNow, net, rows, f, g, known, p);
    UndoInsertStep(net, rows, f, g, known, p);
    if p in live {
      LetsGoForeseen(b, indexes, reach, live, journal, k + 1, now, reachNow, rows, f, g, known, p.table, live[p]);
    }
    if done {
      TrackedWithout(indexes, reach, live, now, reachNow, net, rows, f, g, known, p, next);
    }
  }

  lemma SeparatorsStay(indexes: seq<Index>, reach: map<Place, nat>, live: map<Place, Row>, now: seq<Index>, reachNow: map<Place, nat>,
                       net: map<Place, Row>, f: map<Place, Place>, next: seq<Index>)
    requires Tracked(indexes, reach, live, now, reachNow, net, f)
    requires SameIndexes(now, next) && forall i :: 0 <= i < |now| ==> next[i].layout.separators == now[i].layout.separators
    ensures SeparatorsFollow(indexes, live, next, net)
  {
    forall i | 0 <= i < |indexes|
      ensures SeparatorsTracked(indexes, live, next, net, i)
    {
      assert SeparatorsTracked(indexes, live, now, net, i);
    }
  }

  lemma OwnInPlace(indexes: seq<Index>, reach: map<Place, nat>, live: map<Place, Row>, now: seq<Index>, reachNow: map<Place, nat>,
                   net: map<Place, Row>, rows: map<Place, Row>, f: map<Place, Place>, g: map<Place, Place>, known: iset<Place>, p: Place)
    requires Undoing(net, rows, f, g, known) && Tracked(indexes, reach, live, now, reachNow, net, f) && p in known
    requires p in net ==> p in live && net[p] == live[p]
    ensures |now| == |indexes|
    ensures p in net ==> p in f && f[p] == p
    ensures p in rows <==> p in net
    ensures p in net ==> rows[p] == live[p]
  {
    assert p in net ==> RowTracked(reach, live, reachNow, net, f, |indexes|, p);
    InPlace(net, rows, f, g, known, p);
  }

  lemma TrackedWithout(indexes: seq<Index>, reach: map<Place, nat>, live: map<Place, Row>, now: seq<Index>, reachNow: map<Place, nat>,
                       net: map<Place, Row>, rows: map<Place, Row>, f: map<Place, Place>, g: map<Place, Place>, known: iset<Place>,
                       p: Place, next: seq<Index>)
    requires Undoing(net, rows, f, g, known) && Tracked(indexes, reach, live, now, reachNow, net, f) && (p in net ==> f[p] == p)
    requires p in net ==> p in live
    requires p in rows ==> p in net
    requires SameIndexes(now, next) && forall i :: 0 <= i < |now| ==> next[i].layout.separators == now[i].layout.separators
    ensures Tracked(indexes, reach, live, next, reachNow - {p}, net - {p}, f - {p})
  {
    var net', f', reach' := net - {p}, f - {p}, reachNow - {p};
    forall q | q in net'
      ensures RowTracked(reach, live, reach', net', f', |indexes|, q)
    {
      assert RowTracked(reach, live, reachNow, net, f, |indexes|, q);
      assert g[f[q]] == q && (p in net ==> g[p] == p);
    }
    forall i | 0 <= i < |indexes|
      ensures SeparatorsTracked(indexes, live, next, net', i)
    {
      assert SeparatorsTracked(indexes, live, now, net, i);
      if q :| PutBackInto(indexes, live, net, i, q) {
        assert PutBackInto(indexes, live, net', i, q);
      }
    }
  }

  /** A row that the transaction both inserted and removed is not put back. */
  lemma SkippedOwn(b: Behaviour, indexes: seq<Index>, reach: map<Place, nat>, live: map<Place, Row>, journal: seq<Undo>, k: nat, p: Place, row: Row)
    requires k < |journal| && journal[k] == UndoRemove(p, row) && UndoInsert(p) in journal
    ensures Net(live, journal, k) == Net(live, journal, k + 1)
    ensures StepFine(b, indexes, reach, live, journal, k)
  {
  }

  /** Step k put a row back; whether every index took it is foreseen when room does not matter. */
  lemma PutBackThere(b: Behaviour, indexes: seq<Index>, reach: map<Place, nat>, live: map<Place, Row>, journal: seq<Undo>, k: nat,
                     now: seq<Index>, reachNow: map<Place, nat>, rows: map<Place, Row>, f: map<Place, Place>, g: map<Place, Place>,
                     known: iset<Place>, p: Place, row: Row, q: Place, start: map<Place, Row>, next: seq<Index>, done: bool, reachNext: map<Place, nat>)
    requires TxOk(start, live, journal) && k < |journal| && journal[k] == UndoRemove(p, row) && UndoInsert(p) !in journal
    requires p in known && q !in known && q !in rows && q.table == p.table
    requires Undoing(Net(live, journal, k + 1), rows, f, g, known)
    requires Tracked(indexes, reach, live, now, reachNow, Net(live, journal, k + 1), f)
    requires done <==> forall i :: 0 <= i < |now| ==> !Raises(b, now[i], p.table, row)
    requires SameIndexes(now, next) && forall i :: 0 <= i < |now| ==> SeparatorsGrow(now[i], next[i], p.table, row)
    requires q in reachNext && reachNext == reachNow[q := reachNext[q]] && (done ==> reachNext[q] == |next|)
    requires KeepsPlaces(Net(live, journal, k + 1), live, f) && RemovedStayAway(journal, rows)
    requires forall x :: Mentions(journal, x) ==> x in known
    requires forall x :: x in live ==> x in known
    ensures KeepsPlaces(Net(live, journal, k), live, f[p := q]) && RemovedStayAway(journal, rows[q := row])
    ensures SeparatorsFollow(indexes, live, next, Net(live, journal, k))
    ensures ByKeyOnly(b) ==> (done <==> StepFine(b, indexes, reach, live, journal, k))
    ensures Undoing(Net(live, journal, k), rows[q := row], f[p := q], g[q := p], known)
    ensures done ==> Tracked(indexes, reach, live, next, reachNext, Net(live, journal, k), f[p := q])
  {
    hide Undoing, Tracked, Raises, SeparatorsTracked, SeparatorsGrow;
    var net := Net(live, journal, k + 1);
    assert IsRemove(journal, k, p);
    NotInNet(live, journal, p, k + 1);
    NewPlaceStaysAway(journal, rows, known, q, row);
    SeparatorsWith(indexes, reach, live, now, reachNow, net, f, p, row, next);
    UndoRemoveStep(net, rows, f, g, known, p, row, q);
    SameDefinitions(indexes, reach, live, now, reachNow, net, f);
    if ByKeyOnly(b) {
      forall i | 0 <= i < |now|
        ensures Raises(b, now[i], p.table, row) <==> Raises(b, indexes[i], p.table, row)
      {
        RaisesByKey(b, now[i], indexes[i], p.table, row);
      }
    }
    if done {
      TrackedWith(indexes, reach, live, now, reachNow, net, rows, f, g, known, p, row, q, next, reachNext);
    }
  }

  lemma SameDefinitions(indexes: seq<Index>, reach: map<Place, nat>, live: map<Place, Row>, now: seq<Index>, reachNow: map<Place, nat>,
                        net: map<Place, Row>, f: map<Place, Place>)
    requires Tracked(indexes, reach, live, now, reachNow, net, f)
    ensures SameIndexes(indexes, now)
  {
  }

  lemma RaisesByKey(b: Behaviour, a: Index, c: Index, t: nat, row: Row)
    requires ByKeyOnly(b) && a.table == c.table && a.column == c.column && a.kind == c.kind
    ensures Raises(b, a, t, row) <==> Raises(b, c, t, row)
  {
    assert b.full(a, Cell(row, a.column)) == b.full(c, Cell(row, c.column));
  }

  lemma TrackedWith(indexes: seq<Index>, reach: map<Place, nat>, live: map<Place, Row>, now: seq<Index>, reachNow: map<Place, nat>,
                    net: map<Place, Row>, rows: map<Place, Row>, f: map<Place, Place>, g: map<Place, Place>, known: iset<Place>,
                    p: Place, row: Row, q: Place, next: seq<Index>, reachNext: map<Place, nat>)
    requires Undoing(net, rows, f, g, known) && Tracked(indexes, reach, live, now, reachNow, net, f)
    requires p !in live && p !in net && p in known && q !in known && q !in rows
    requires SameIndexes(now, next) && forall i :: 0 <= i < |now| ==> SeparatorsGrow(now[i], next[i], p.table, row)
    requires q in reachNext && reachNext == reachNow[q := |next|]
    ensures Tracked(indexes, reach, live, next, reachNext, net[p := row], f[p := q])
  {
    var net', f' := net[p := row], f[p := q];
    forall x | x in net'
      ensures RowTracked(reach, live, reachNext, net', f', |indexes|, x)
    {
      if x != p {
        assert RowTracked(reach, live, reachNow, net, f, |indexes|, x);
        assert f[x] in g;
      }
    }
    SeparatorsWith(indexes, reach, live, now, reachNow, net, f, p, row, next);
  }

  /** Separators come with a row that is put back, if at all. */
  lemma SeparatorsWith(indexes: seq<Index>, reach: map<Place, nat>, live: map<Place, Row>, now: seq<Index>, reachNow: map<Place, nat>,
                       net: map<Place, Row>, f: map<Place, Place>, p: Place, row: Row, next: seq<Index>)
    requires Tracked(indexes, reach, live, now, reachNow, net, f) && p !in live && p !in net
    requires SameIndexes(now, next) && forall i :: 0 <= i < |now| ==> SeparatorsGrow(now[i], next[i], p.table, row)
    ensures SeparatorsFollow(indexes, live, next, net[p := row])
  {
    var net' := net[p := row];
    forall i | 0 <= i < |indexes|
      ensures SeparatorsTracked(indexes, live, next, net', i)
    {
      assert SeparatorsTracked(indexes, live, now, net, i) && SeparatorsGrow(now[i], next[i], p.table, row);
      if x :| PutBackInto(indexes, live, net, i, x) {
        assert PutBackInto(indexes, live, net', i, x);
      }
      if next[i].layout.separators && !now[i].layout.separators {
        assert PutBackInto(indexes, live, net', i, p);
      }
    }
  }

  lemma NewPlaceStaysAway(journal: seq<Undo>, rows: map<Place, Row>, known: iset<Place>, q: Place, row: Row)
    requires RemovedStayAway(journal, rows) && q !in known && forall x :: Mentions(journal, x) ==> x in known
    ensures RemovedStayAway(journal, rows[q := row])
  {
    forall k: nat, x | IsRemove(journal, k, x)
      ensures x !in rows[q := row]
    {
      assert Mentions(journal, x);
    }
  }

  // ----- whole runs -----

  /** Every request of a run does what Handled says, with these answers and what the session is in between. */
  ghost predicate Traced(b: Behaviour, requests: seq<Request>, results: seq<Result>, trace: seq<Shot>) {
    && |results| <= |requests| && |trace| == |results| + 1
    && forall i {:trigger results[i]} :: 0 <= i < |results| ==> Handled(b, requests[i], results[i], trace[i], trace[i + 1])
  }

  lemma TracedMore(b: Behaviour, requests: seq<Request>, results: seq<Result>, trace: seq<Shot>, result: Result, next: Shot)
    requires Traced(b, requests, results, trace) && |results| < |requests|
    requires Handled(b, requests[|results|], result, trace[|results|], next)
    ensures Traced(b, requests, results + [result], trace + [next])
  {
    hide Handled;
  }

  /**
   Any run of BEGIN, END, rollback, INSERT and DELETE: every request does what it means, from the rows
   before it to those after it. The indexes always hold exactly the entries of the rows that reached
   them. If that was every live row in every index it stays so, as long as no statement of an open
   transaction fails and no undo is refused.
   */
  method Replay(session: TransactionalSession, requests: seq<Request>) returns (results: seq<Result>, ghost trace: seq<Shot>)
    requires session.Valid()
    modifies session
    ensures session.Valid() && |results| == |requests|
    ensures Traced(session.b, requests, results, trace) && |trace| == |requests| + 1
    ensures trace[0] == old(session.Now()) && trace[|requests|] == session.Now()
    ensures old(session.AllIndexed()) && Failed !in results && LeftOpen !in results ==> session.AllIndexed()
  {
    results, trace := [], [session.Now()];
    for i := 0 to |requests|
      invariant session.Valid() && |results| == i
      invariant Traced(session.b, requests, results, trace) && |trace| == i + 1 && trace[0] == old(session.Now()) && trace[i] == session.Now()
      invariant old(session.AllIndexed()) && Failed !in results && LeftOpen !in results ==> session.AllIndexed()
    {
      hide Complete, Agrees, TxOk, Used, Lawful, Handled, Undone, Restored, Net, Added, Traced;
      var result, _ := session.Handle(requests[i]);
      TracedMore(session.b, requests, results, trace, result, session.Now());
      var more := results + [result];
      assert forall x :: x in results ==> x in more;
      assert more[i] == result;
      results, trace := more, trace + [session.Now()];
    }
  }

  /** BEGIN, any statements, rollback: if the rollback goes through, the rows are those of the BEGIN, RIDs aside. */
  lemma RollbackGoesBack(b: Behaviour, requests: seq<Request>, results: seq<Result>, trace: seq<Shot>, i: nat, j: nat)
    requires Traced(b, requests, results, trace) && i < j < |results|
    requires requests[i] == BeginTransaction && results[i] == Done && requests[j] == UndoTransaction && results[j] == RolledBack
    requires forall k :: i < k < j ==> requests[k].Run?
    ensures Restored(trace[i].rows, trace[j + 1].rows)
  {
    hide Restored, Ran, LeadsBack, Undone;
    assert Handled(b, requests[i], results[i], trace[i], trace[i + 1]);
    assert LeadsBack(trace[i + 1]) by { BegunLeadsBack(trace[i]); }
    StaysOpen(b, requests, results, trace, i + 1, j);
    assert Handled(b, requests[j], results[j], trace[j], trace[j + 1]);
    var held: nat :| Undone(b, trace[j], trace[j + 1], true, held);
    UndoneMeans(b, trace[j], trace[j + 1], held);
  }

  lemma BegunLeadsBack(s: Shot)
    ensures LeadsBack(s.(journal := [], open := true, start := s.rows))
  {
  }

  lemma UndoneMeans(b: Behaviour, s: Shot, s': Shot, held: nat)
    requires Undone(b, s, s', true, held) && LeadsBack(s)
    ensures Restored(s.start, s'.rows)
  {
    hide Restored, AllFine, ByKeyOnly, Net, LeadsBack;
  }

  /** Statements in an open transaction leave it open and its journal leading back. */
  lemma {:induction false} StaysOpen(b: Behaviour, requests: seq<Request>, results: seq<Result>, trace: seq<Shot>, i: nat, j: nat)
    requires Traced(b, requests, results, trace) && i <= j < |results|
    requires trace[i].open && LeadsBack(trace[i]) && forall k :: i <= k < j ==> requests[k].Run?
    ensures trace[j].open && LeadsBack(trace[j]) && trace[j].start == trace[i].start
    decreases j - i
  {
    if i < j {
      hide LeadsBack, InsertRan, DeleteRan;
      assert Handled(b, requests[i], results[i], trace[i], trace[i + 1]);
      StaysOpen(b, requests, results, trace, i + 1, j);
    }
  }

  // ----- runs that end in a refusal -----

  /** Indexes that take every key but NULL and whose pages never change. */
  function Plain(): Behaviour {
    Behaviour((kind, v) => v != Null, (ix, v) => false, (ix, v) => false, (ix: Index, ref) => ix.layout, (ix: Index, ref) => ix.layout)
  }

  function EmptyIndex(kind: Kind): Index {
    Index(0, 0, kind, multiset{}, Layout(false, 0))
  }

  lemma PlainIsLawful()
    ensures Lawful(Plain()) && ByKeyOnly(Plain())
  {
  }

  lemma NothingRestores(rows: map<Place, Row>, p: Place)
    requires p in rows
    ensures !Restored(map[], rows)
  {
  }

  /** Undoing the insert of a row with NULL, the only step, is refused by a hash index. */
  lemma NullStaysInHash(b: Behaviour, ix: Index, reach: map<Place, nat>, p: Place)
    requires Lawful(b) && ix.kind == Hash && ix.table == p.table && ix.column == 0
    ensures !StepFine(b, [ix], reach, map[p := [Null]], [UndoInsert(p)], 0)
    ensures Net(map[p := [Null]], [UndoInsert(p)], 1) == map[p := [Null]]
  {
    assert RefusesThen(b, [ix], reach, map[p := [Null]], [UndoInsert(p)], 0, 1, p.table, [Null]);
  }

  /** Putting back a row with NULL, the only step, is refused by a hash index. */
  lemma NullComesNotBack(b: Behaviour, ix: Index, reach: map<Place, nat>, p: Place)
    requires ix.kind == Hash && ix.table == p.table && ix.column == 0
    ensures !StepFine(b, [ix], reach, map[], [UndoRemove(p, [Null])], 0)
  {
    assert Raises(b, [ix][0], p.table, [Null]);
  }

  /** An INSERT of NULL into a column with a hash index raises, its row stays, and rollback cannot take it back. */
  method NullInsertStopsRollback(pageOf: nat -> nat) returns (inserted: bool, undone: bool, session: TransactionalSession)
    ensures !inserted && !undone && session.open && session.start == map[] && !Restored(session.start, session.rows)
  {
    hide Restored, Agrees, TxOk, Used, Lawful, StepFine, Net, ByKeyOnly, Resettled, SeparatorsFollow, FirstRefusal;
    PlainIsLawful();
    session := new TransactionalSession(Plain(), pageOf, [EmptyIndex(Hash)]);
    var _ := session.Begin();
    var p;
    inserted, p := session.InsertRow(0, [Null]);
    assert Raises(session.b, [EmptyIndex(Hash)][0], 0, [Null]);
    assert session.journal == [UndoInsert(p)] && session.rows == map[p := [Null]] && session.indexes == [session.indexes[0]];
    NullStaysInHash(session.b, session.indexes[0], session.reach, p);
    ghost var live := session.rows;
    NothingRestores(live, p);
    ghost var at, held;
    undone, at, held := session.Rollback();
  }

  /** The same row committed: a later transaction that removes it and rolls back has it back, yet rollback raises. */
  method CommittedNullStopsRollback(pageOf: nat -> nat) returns (undone: bool, session: TransactionalSession)
    ensures !undone && session.open && session.start != map[] && Restored(session.start, session.rows)
  {
    hide Restored, Agrees, TxOk, Used, Lawful, StepFine, Net, ByKeyOnly, Resettled, SeparatorsFollow, FirstRefusal;
    PlainIsLawful();
    session := new TransactionalSession(Plain(), pageOf, [EmptyIndex(Hash)]);
    var _ := session.Begin();
    var _, p := session.InsertRow(0, [Null]);
    var _ := session.Commit();
    var _ := session.Begin();
    assert p in session.start;
    assert session.rows == map[p := [Null]];
    var _, _ := session.RemoveRow(p);
    assert session.journal == [UndoRemove(p, [Null])] && session.rows == map[] && session.indexes == [session.indexes[0]];
    NullComesNotBack(session.b, session.indexes[0], session.reach, p);
    NetIsStart(session.start);
    ghost var at, held;
    undone, at, held := session.Rollback();
  }

  /** A tree refuses to let go of NULL only while it has something to compare it with: here the last statement is undone first. */
  method TreeRefusesInOneOrder(pageOf: nat -> nat, nullFirst: bool) returns (undone: bool, session: TransactionalSession)
    ensures undone <==> nullFirst
  {
    hide Restored, Agrees, TxOk, Used, Lawful, StepFine, Net, ByKeyOnly, Resettled, SeparatorsFollow, FirstRefusal, ReachOf;
    PlainIsLawful();
    var p, q;
    session, p, q := InsertTwo(pageOf, if nullFirst then [Null] else [Known(1)], if nullFirst then [Known(1)] else [Null]);
    assert session.indexes == [session.indexes[0]];
    if nullFirst {
      NullFirstIsFine(session.b, session.indexes[0], session.reach, p, q);
    } else {
      NullLastIsRefused(session.b, session.indexes[0], session.reach, p, q);
    }
    ghost var at, held;
    undone, at, held := session.Rollback();
  }

  method InsertTwo(pageOf: nat -> nat, first: Row, second: Row) returns (session: TransactionalSession, p: Place, q: Place)
    ensures fresh(session) && session.Valid() && session.open && session.b == Plain() && p != q && p.table == 0 && q.table == 0
    ensures session.journal == [UndoInsert(p), UndoInsert(q)] && session.rows == map[p := first, q := second]
    ensures |session.indexes| == 1 && session.indexes[0].table == 0 && session.indexes[0].column == 0 && session.indexes[0].kind == Tree
    ensures !session.indexes[0].layout.separators && p in session.reach
    ensures !Raises(Plain(), EmptyIndex(Tree), 0, first) ==> session.reach[p] == 1
  {
    hide Restored, Agrees, TxOk, Used, Lawful, StepFine, Net, ByKeyOnly, Resettled, SeparatorsFollow, FirstRefusal, ReachOf, Raises;
    PlainIsLawful();
    session := new TransactionalSession(Plain(), pageOf, [EmptyIndex(Tree)]);
    var _ := session.Begin();
    var taken;
    taken, p := session.InsertRow(0, first);
    taken, q := session.InsertRow(0, second);
  }

  lemma NullFirstIsFine(b: Behaviour, ix: Index, reach: map<Place, nat>, p: Place, q: Place)
    requires ix.kind == Tree && ix.table == 0 && ix.column == 0 && !ix.layout.separators && p != q
    ensures var live, journal := map[p := [Null], q := [Known(1)]], [UndoInsert(p), UndoInsert(q)];
            StepFine(b, [ix], reach, live, journal, 0) && StepFine(b, [ix], reach, live, journal, 1)
  {
    var live, journal := map[p := [Null], q := [Known(1)]], [UndoInsert(p), UndoInsert(q)];
    assert Net(live, journal, 2) == live;
    assert Net(live, journal, 1) == map[p := [Null]];
    forall x
      ensures !HeldThen([ix], reach, live, journal, 0, 1, x)
    {
    }
  }

  lemma NullLastIsRefused(b: Behaviour, ix: Index, reach: map<Place, nat>, p: Place, q: Place)
    requires ix.kind == Tree && ix.table == 0 && ix.column == 0 && p != q && p.table == 0 && q.table == 0
    requires p in reach && reach[p] == 1
    ensures !StepFine(b, [ix], reach, map[p := [Known(1)], q := [Null]], [UndoInsert(p), UndoInsert(q)], 1)
  {
    var live, journal := map[p := [Known(1)], q := [Null]], [UndoInsert(p), UndoInsert(q)];
    assert Net(live, journal, 2) == live;
    assert HeldThen([ix], reach, live, journal, 0, 2, p);
    assert RefusesThen(b, [ix], reach, live, journal, 0, 2, 0, live[q]);
  }

  // ----- a rollback tried again -----

  /** The state of the run below: two rows of table 0, the second with NULL, and the row of table 1 as r or again as q. */
  datatype Retry = Retry(p: Place, n: Place, r: Place, q: Place, x: Row) {
    ghost predicate Ok() {
      && p.table == 0 && n.table == 0 && r.table == 1 && q.table == 1 && p != n && r != q
    }

    function Journal(): seq<Undo> {
      [UndoInsert(p), UndoInsert(n), UndoRemove(r, x)]
    }

    function Longer(): seq<Undo> {
      Journal() + [UndoRemove(p, [Known(1)])]
    }

    function Before(): map<Place, Row> {
      map[p := [Known(1)], n := [Null]]
    }

    function Between(): map<Place, Row> {
      map[p := [Known(1)], n := [Null], q := x]
    }

    function After(): map<Place, Row> {
      map[n := [Null], q := x]
    }

    lemma Mentioned()
      ensures Mentions(Journal(), p) && Mentions(Journal(), n) && Mentions(Journal(), r)
    {
      assert Journal()[0] == UndoInsert(p) && Journal()[1] == UndoInsert(n);
      assert IsRemove(Journal(), 2, r);
    }

    /** The removal can be undone; NULL is refused while the tree holds 1. */
    lemma FirstTime(ix: Index, reach: map<Place, nat>)
      requires Ok() && ix.table == 0 && ix.column == 0 && ix.kind == Tree && p in reach && reach[p] == 1
      ensures StepFine(Plain(), [ix], reach, Before(), Journal(), 2) && !StepFine(Plain(), [ix], reach, Before(), Journal(), 1)
      ensures Net(Before(), Journal(), 2) == map[p := [Known(1)], n := [Null], r := x]
      ensures Net(Before(), Journal(), 0) == map[r := x]
    {
      assert Net(Before(), Journal(), 3) == Before();
      assert HeldThen([ix], reach, Before(), Journal(), 0, 2, p);
      assert RefusesThen(Plain(), [ix], reach, Before(), Journal(), 0, 2, 0, [Null]);
    }

    /** Once the row with 1 is deleted, nothing is refused any more; but r is put back a second time. */
    lemma SecondTime(ix: Index, reach: map<Place, nat>)
      requires Ok() && ix.table == 0 && ix.column == 0 && ix.kind == Tree && !ix.layout.separators
      ensures forall k :: 0 <= k < 4 ==> StepFine(Plain(), [ix], reach, After(), Longer(), k)
      ensures Net(After(), Longer(), 0) == map[q := x, r := x]
    {
      var j := Longer();
      assert |j| == 4 && j[0] == UndoInsert(p) && j[1] == UndoInsert(n) && j[2] == UndoRemove(r, x) && j[3] == UndoRemove(p, [Known(1)]);
      assert UndoInsert(p) in j;
      assert UndoInsert(r) !in j;
      assert Net(After(), j, 4) == After() && Net(After(), j, 3) == After();
      assert Net(After(), j, 2) == map[n := [Null], q := x, r := x];
      assert Net(After(), j, 1) == map[q := x, r := x];
      forall y
        ensures !HeldThen([ix], reach, After(), j, 0, 2, y)
      {
      }
      assert !RefusesThen(Plain(), [ix], reach, After(), j, 0, 2, 0, [Null]);
    }
  }

  /** Moved rows, three of them. */
  lemma Images(net: map<Place, Row>, rows: map<Place, Row>, f: map<Place, Place>, g: map<Place, Place>, a: Place, b: Place, c: Place)
    requires Moved(net, rows, f, g) && net.Keys == {a, b, c}
    ensures a in f && b in f && c in f && rows.Keys == {f[a], f[b], f[c]}
    ensures rows[f[a]] == net[a] && rows[f[b]] == net[b] && rows[f[c]] == net[c]
    ensures forall y, z :: y in net && z in net && y in f && z in f && f[y] == f[z] ==> y == z
    ensures forall y :: y in net && y in f ==> f[y].table == y.table
  {
    assert a in net && b in net && c in net;
    forall y | y in rows
      ensures y == f[a] || y == f[b] || y == f[c]
    {
      assert g[y] in f && f[g[y]] == y;
    }
    forall y, z | y in net && z in net && f[y] == f[z]
      ensures y == z
    {
      assert g[f[y]] == y && g[f[z]] == z;
    }
  }

  lemma UndoingMoves(net: map<Place, Row>, live: map<Place, Row>, rows: map<Place, Row>, f: map<Place, Place>, g: map<Place, Place>,
                     known: iset<Place>)
    requires Undoing(net, rows, f, g, known) && KeepsPlaces(net, live, f)
    ensures Moved(net, rows, f, g) && f.Keys == net.Keys
    ensures forall y :: y in net ==> (f[y] == y <==> y in live)
  {
  }

  /** After the first rollback the rows are those before it and r at a new place. */
  lemma OneBack(t: Retry, rows: map<Place, Row>, known: iset<Place>) returns (q: Place)
    requires t.Ok() && Resettled(map[t.p := [Known(1)], t.n := [Null], t.r := t.x], t.Before(), rows, known)
    ensures q.table == 1 && q != t.r && rows == t.(q := q).Between()
  {
    hide Undoing, KeepsPlaces, Moved;
    var net := map[t.p := [Known(1)], t.n := [Null], t.r := t.x];
    var f, g :| Undoing(net, rows, f, g, known) && KeepsPlaces(net, t.Before(), f);
    UndoingMoves(net, t.Before(), rows, f, g, known);
    q := MovedOne(t, net, rows, f, g);
  }

  lemma MovedOne(t: Retry, net: map<Place, Row>, rows: map<Place, Row>, f: map<Place, Place>, g: map<Place, Place>) returns (q: Place)
    requires t.Ok() && net == map[t.p := [Known(1)], t.n := [Null], t.r := t.x]
    requires Moved(net, rows, f, g) && f.Keys == net.Keys && forall y :: y in net ==> (f[y] == y <==> y in t.Before())
    ensures q.table == 1 && q != t.r && rows == t.(q := q).Between()
  {
    hide Moved;
    assert net.Keys == {t.p, t.n, t.r};
    assert t.p in net && t.n in net && t.r in net;
    Images(net, rows, f, g, t.p, t.n, t.r);
    q := f[t.r];
    assert rows.Keys == t.(q := q).Between().Keys;
  }

  /** After the second, r is there twice. */
  lemma TwiceBack(t: Retry, rows: map<Place, Row>, known: iset<Place>)
    requires t.Ok() && Resettled(map[t.q := t.x, t.r := t.x], t.After(), rows, known)
    ensures !Restored(map[t.r := t.x], rows)
    ensures exists y, z :: y != z && y in rows && z in rows && rows[y] == t.x && rows[z] == t.x
  {
    hide Undoing, KeepsPlaces, Moved, Restored;
    var net := map[t.q := t.x, t.r := t.x];
    var f, g :| Undoing(net, rows, f, g, known) && KeepsPlaces(net, t.After(), f);
    UndoingMoves(net, t.After(), rows, f, g, known);
    MovedTwo(t, net, rows, f, g);
  }

  lemma MovedTwo(t: Retry, net: map<Place, Row>, rows: map<Place, Row>, f: map<Place, Place>, g: map<Place, Place>)
    requires t.Ok() && net == map[t.q := t.x, t.r := t.x] && Moved(net, rows, f, g)
    ensures !Restored(map[t.r := t.x], rows)
    ensures exists y, z :: y != z && y in rows && z in rows && rows[y] == t.x && rows[z] == t.x
  {
    hide Moved, Restored;
    assert net.Keys == {t.q, t.r, t.r};
    assert t.q in net && t.r in net;
    Images(net, rows, f, g, t.q, t.r, t.r);
    var y, z := f[t.q], f[t.r];
    assert y != z && y in rows && z in rows && rows[y] == t.x && rows[z] == t.x;
    if Restored(map[t.r := t.x], rows) {
      assert (map[t.r := t.x]).Keys == {t.r};
      OneComesOnce(map[t.r := t.x], t.r, rows, y, z);
      assert false;
    }
  }

  lemma OneComesOnce(start: map<Place, Row>, r: Place, rows: map<Place, Row>, y: Place, z: Place)
    requires Restored(start, rows) && start.Keys == {r} && y in rows && z in rows
    ensures y == z
  {
    hide Moved;
    var h, l :| Moved(start, rows, h, l);
    CameFrom(start, rows, h, l, y);
    CameFrom(start, rows, h, l, z);
    assert l[y] in start.Keys && l[z] in start.Keys;
  }

  lemma CameFrom(start: map<Place, Row>, rows: map<Place, Row>, f: map<Place, Place>, g: map<Place, Place>, y: Place)
    requires Moved(start, rows, f, g) && y in rows
    ensures y in g && g[y] in start && g[y] in f && f[g[y]] == y
  {
  }

  /**
   Table 0 has a tree on its column, table 1 holds one committed row. A transaction inserts 1 and NULL,
   which the tree refuses, and deletes the row of table 1. Its rollback puts that row back and is then
   refused. The transaction deletes the row with 1 and rolls back again: this time nothing is refused,
   and the row of table 1 is put back once more.
   */
  method RetriedRollbackRepeats(pageOf: nat -> nat)
    returns (first: bool, second: bool, ghost before: map<Place, Row>, session: TransactionalSession)
    ensures !first && second && !session.open
    ensures !Restored(before, session.rows) && |before| == 1
    ensures exists y, z :: y != z && y in session.rows && z in session.rows && session.rows[y] == session.rows[z] == [Known(7)]
  {
    hide Restored, Agrees, TxOk, Used, Lawful, StepFine, AllFine, Net, ByKeyOnly, Resettled, SeparatorsFollow, FirstRefusal, ReachOf, IsRemove, RowLeaves;
    var p;
    ghost var t, q;
    session, p, t := RetryStart(pageOf);
    before := session.start;
    first, q := RetryFirst(session, t);
    t := t.(q := q);
    var _, _ := session.RemoveRow(p);
    assert session.rows == t.After() && session.journal == t.Longer();
    second := RetrySecond(session, t);
  }

  method RetryStart(pageOf: nat -> nat) returns (session: TransactionalSession, p: Place, ghost t: Retry)
    ensures fresh(session) && session.Valid() && session.open && session.b == Plain() && t.Ok() && p == t.p && t.x == [Known(7)]
    ensures session.rows == t.Before() && session.journal == t.Journal() && session.start == map[t.r := t.x]
    ensures |session.indexes| == 1 && session.indexes[0].table == 0 && session.indexes[0].column == 0 && session.indexes[0].kind == Tree
    ensures !session.indexes[0].layout.separators && t.p in session.reach && session.reach[t.p] == 1
  {
    hide Restored, Agrees, TxOk, Used, Lawful, StepFine, AllFine, Net, ByKeyOnly, Resettled, SeparatorsFollow, FirstRefusal, ReachOf, IsRemove, RowLeaves;
    var r;
    session, r := OneCommitted(pageOf);
    var taken, n;
    taken, p := session.InsertRow(0, [Known(1)]);
    assert taken && session.reach[p] == 1;
    taken, n := session.InsertRow(0, [Null]);
    var _, _ := session.RemoveRow(r);
    t := Retry(p, n, r, Place(1, RID(r.rid.pageId, r.rid.slot + 1)), [Known(7)]);
    assert session.rows == t.Before();
  }

  method OneCommitted(pageOf: nat -> nat) returns (session: TransactionalSession, r: Place)
    ensures fresh(session) && session.Valid() && session.open && session.b == Plain() && r.table == 1
    ensures session.rows == map[r := [Known(7)]] && session.journal == [] && session.start == map[r := [Known(7)]]
    ensures session.indexes == [EmptyIndex(Tree)]
  {
    hide Restored, Agrees, TxOk, Used, Lawful, StepFine, AllFine, Net, ByKeyOnly, Resettled, SeparatorsFollow, FirstRefusal, ReachOf, IsRemove, RowLeaves;
    PlainIsLawful();
    session := new TransactionalSession(Plain(), pageOf, [EmptyIndex(Tree)]);
    var _ := session.Begin();
    var taken;
    taken, r := session.InsertRow(1, [Known(7)]);
    assert session.indexes[0] == EmptyIndex(Tree);
    var _ := session.Commit();
    var _ := session.Begin();
  }

  method RetryFirst(session: TransactionalSession, ghost t: Retry) returns (done: bool, ghost q: Place)
    requires session.Valid() && session.open && session.b == Plain() && t.Ok()
    requires session.rows == t.Before() && session.journal == t.Journal()
    requires |session.indexes| == 1 && session.indexes[0].table == 0 && session.indexes[0].column == 0 && session.indexes[0].kind == Tree
    requires !session.indexes[0].layout.separators && t.p in session.reach && session.reach[t.p] == 1
    modifies session
    ensures !done && session.Valid() && session.open && session.journal == t.Journal() && session.start == old(session.start)
    ensures q.table == 1 && q != t.r && session.rows == t.(q := q).Between()
    ensures |session.indexes| == 1 && session.indexes[0].table == 0 && session.indexes[0].column == 0 && session.indexes[0].kind == Tree
    ensures !session.indexes[0].layout.separators
  {
    hide Restored, Agrees, TxOk, Used, Lawful, StepFine, AllFine, Net, ByKeyOnly, Resettled, SeparatorsFollow, FirstRefusal, ReachOf, IsRemove, RowLeaves;
    ghost var ix, known := session.indexes[0], session.UsedPlaces();
    PlainIsLawful();
    t.Mentioned();
    t.FirstTime(ix, session.reach);
    assert session.indexes == [ix];
    ghost var at, held;
    done, at, held := session.Rollback();
    assert at == 1 && held == 2;
    NoSeparators(t, ix, session.indexes);
    q := OneBack(t, session.rows, known);
  }

  method RetrySecond(session: TransactionalSession, ghost t: Retry) returns (done: bool)
    requires session.Valid() && session.open && session.b == Plain() && t.Ok()
    requires session.rows == t.After() && session.journal == t.Longer()
    requires |session.indexes| == 1 && session.indexes[0].table == 0 && session.indexes[0].column == 0 && session.indexes[0].kind == Tree
    requires !session.indexes[0].layout.separators
    modifies session
    ensures done && !session.open && !Restored(map[t.r := t.x], session.rows)
    ensures exists y, z :: y != z && y in session.rows && z in session.rows && session.rows[y] == session.rows[z] == t.x
  {
    hide Restored, Agrees, TxOk, Used, Lawful, StepFine, AllFine, Net, ByKeyOnly, Resettled, SeparatorsFollow, FirstRefusal, ReachOf, IsRemove, RowLeaves;
    ghost var ix, known := session.indexes[0], session.UsedPlaces();
    PlainIsLawful();
    t.SecondTime(ix, session.reach);
    assert session.indexes == [ix];
    ghost var at, held;
    done, at, held := session.Rollback();
    TwiceBack(t, session.rows, known);
  }

  lemma NoSeparators(t: Retry, ix: Index, now: seq<Index>)
    requires t.Ok() && ix.table == 0 && !ix.layout.separators
    requires SeparatorsFollow([ix], t.Before(), now, map[t.p := [Known(1)], t.n := [Null], t.r := t.x])
    ensures |now| == 1 && !now[0].layout.separators
  {
    assert SeparatorsTracked([ix], t.Before(), now, map[t.p := [Known(1)], t.n := [Null], t.r := t.x], 0);
  }
}
