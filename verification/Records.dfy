/** Records of a paged file: what a RID fetches, what storing a record does, and what a run of requests means. */
module Records {
  import opened Common
  import opened SlottedPages
  import opened RidSupply

  datatype Stored = Stored(rid: RID, data: seq<Byte>)

  function RecordAt(pages: map<nat, Page>, rid: RID): Option<seq<Byte>> {
    if rid.pageId >= 0 && rid.pageId in pages then Read(pages[rid.pageId], rid.slot) else None
  }

  function SlotCounts(pages: map<nat, Page>): Counts {
    map p | p in pages :: |pages[p].slots|
  }

  /** The record is there now, in the next slot of its page; nothing else changed. */
  ghost predicate Placed(before: map<nat, Page>, after: map<nat, Page>, rid: RID, data: seq<Byte>) {
    && RecordAt(before, rid) == None && RecordAt(after, rid) == Some(data)
    && (forall other :: other != rid ==> RecordAt(after, other) == RecordAt(before, other))
    && StoresAt(SlotCounts(before), SlotCounts(after), rid)
  }

  function SlotsOn(pages: map<nat, Page>, page: nat): seq<Option<seq<Byte>>> {
    if page in pages then pages[page].slots else []
  }

  /** One more slot on one page, which may be new. */
  lemma PlacedThere(before: map<nat, Page>, after: map<nat, Page>, page: nat, data: seq<Byte>)
    requires after.Keys == before.Keys + {page}
    requires forall p: nat :: SlotsOn(after, p) == SlotsOn(before, p) + if p == page then [Some(data)] else []
    ensures Placed(before, after, RID(page, |SlotsOn(before, page)|), data)
  {
    forall other: RID | other != RID(page, |SlotsOn(before, page)|)
      ensures RecordAt(after, other) == RecordAt(before, other)
    {
      if other.pageId >= 0 {
        assert SlotsOn(after, other.pageId) == SlotsOn(before, other.pageId) + if other.pageId == page then [Some(data)] else [];
      }
    }
    forall p: nat
      ensures Count(SlotCounts(after), p) == Count(SlotCounts(before), p) + if p == page then 1 else 0
    {
      assert |SlotsOn(after, p)| == |SlotsOn(before, p)| + if p == page then 1 else 0;
    }
  }

  predicate RidBefore(a: RID, b: RID) {
    a.pageId < b.pageId || (a.pageId == b.pageId && a.slot < b.slot)
  }

  // ----- runs -----

  /** What a caller asks of a file over time. */
  datatype Request = Store(data: seq<Byte>) | Drop(rid: RID)

  /** The records of the pages, by RID. */
  ghost predicate Holds(pages: map<nat, Page>, records: map<RID, seq<Byte>>) {
    forall rid {:trigger RecordAt(pages, rid)} ::
      RecordAt(pages, rid) == if rid in records then Some(records[rid]) else None
  }

  function RecordsOf(pages: map<nat, Page>): (records: map<RID, seq<Byte>>)
    ensures Holds(pages, records)
  {
    var live := set p: nat, s: nat | p in pages && s < |pages[p].slots| && pages[p].slots[s].Some? :: RID(p, s);
    LiveIs(pages, live);
    map rid | rid in live :: RecordAt(pages, rid).value
  }

  lemma LiveIs(pages: map<nat, Page>, live: set<RID>)
    requires live == set p: nat, s: nat | p in pages && s < |pages[p].slots| && pages[p].slots[s].Some? :: RID(p, s)
    ensures forall rid :: rid in live <==> RecordAt(pages, rid).Some?
  {
    forall rid | RecordAt(pages, rid).Some?
      ensures rid in live
    {
      var p: nat, s: nat := rid.pageId, rid.slot;
      assert p in pages && s < |pages[p].slots| && pages[p].slots[s].Some? && RID(p, s) == rid;
    }
  }

  /** Each record exactly once. */
  ghost predicate Lists(found: seq<Stored>, records: map<RID, seq<Byte>>) {
    && (forall x :: x in found <==> x.rid in records && x.data == records[x.rid])
    && (forall i, j :: 0 <= i < j < |found| ==> found[i].rid != found[j].rid)
  }

  /** What becomes of the records when a run of requests gets these answers. */
  function After(records: map<RID, seq<Byte>>, requests: seq<Request>, given: seq<Option<RID>>): map<RID, seq<Byte>>
    requires |given| == |requests|
  {
    if requests == [] then records else
      var n := |requests| - 1;
      var before := After(records, requests[..n], given[..n]);
      match requests[n]
      case Store(data) => if given[n].Some? then before[given[n].value := data] else before
      case Drop(rid) => before - {rid}
  }

  /** A request is answered: a record is stored or refused, or what is under a RID is removed. */
  ghost predicate Answered(before: map<nat, Page>, after: map<nat, Page>, request: Request, given: Option<RID>) {
    match request
    case Store(data) => if given.Some? then Placed(before, after, given.value, data) else after == before
    case Drop(gone) =>
      && given.None? && RecordAt(after, gone) == None && SlotCounts(after) == SlotCounts(before)
      && forall other :: other != gone ==> RecordAt(after, other) == RecordAt(before, other)
  }

  ghost predicate AnsweredAt(states: seq<map<nat, Page>>, requests: seq<Request>, given: seq<Option<RID>>, i: nat)
    requires |states| == |given| + 1 == |requests| + 1 && i < |given|
  {
    Answered(states[i], states[i + 1], requests[i], given[i])
  }

  /** The states of the pages between the requests of a run. */
  ghost predicate Runs(states: seq<map<nat, Page>>, requests: seq<Request>, given: seq<Option<RID>>) {
    && |states| == |given| + 1 == |requests| + 1
    && forall i {:trigger AnsweredAt(states, requests, given, i)} :: 0 <= i < |given| ==> AnsweredAt(states, requests, given, i)
  }

  lemma RunGrows(states: seq<map<nat, Page>>, requests: seq<Request>, given: seq<Option<RID>>,
                 next: map<nat, Page>, request: Request, answer: Option<RID>)
    requires Runs(states, requests, given) && Answered(states[|given|], next, request, answer)
    ensures Runs(states + [next], requests + [request], given + [answer])
  {
    hide Answered;
    var states', requests', given' := states + [next], requests + [request], given + [answer];
    forall i | 0 <= i < |given'|
      ensures AnsweredAt(states', requests', given', i)
    {
      if i < |given| {
        assert AnsweredAt(states, requests, given, i);
      }
    }
  }

  lemma AnswerMeans(before: map<nat, Page>, after: map<nat, Page>, request: Request, given: Option<RID>, records: map<RID, seq<Byte>>)
    requires Holds(before, records) && Answered(before, after, request, given)
    ensures Holds(after, After(records, [request], [given]))
  {
    hide RecordAt, StoresAt, SlotCounts;
    assert After(records, [], []) == records && [request][..0] == [] && [given][..0] == [];
  }

  lemma AfterOne(records: map<RID, seq<Byte>>, requests: seq<Request>, given: seq<Option<RID>>, n: nat)
    requires |given| == |requests| == n + 1
    ensures After(records, requests, given) == After(After(records, requests[..n], given[..n]), [requests[n]], [given[n]])
  {
    var before := After(records, requests[..n], given[..n]);
    assert After(before, [], []) == before && [requests[n]][..0] == [] && [given[n]][..0] == [];
  }

  /** At the end of a run the pages hold what the run means. */
  lemma {:induction false} RunMeans(states: seq<map<nat, Page>>, requests: seq<Request>, given: seq<Option<RID>>, records: map<RID, seq<Byte>>)
    requires Runs(states, requests, given) && Holds(states[0], records)
    ensures Holds(states[|given|], After(records, requests, given))
    decreases |given|
  {
    hide Holds, Answered;
    if given != [] {
      var n := |given| - 1;
      assert AnsweredAt(states, requests, given, n);
      RunPrefix(states, requests, given, n);
      RunMeans(states[..n + 1], requests[..n], given[..n], records);
      AnswerMeans(states[n], states[n + 1], requests[n], given[n], After(records, requests[..n], given[..n]));
      AfterOne(records, requests, given, n);
    }
  }

  lemma RunPrefix(states: seq<map<nat, Page>>, requests: seq<Request>, given: seq<Option<RID>>, n: nat)
    requires Runs(states, requests, given) && n <= |given|
    ensures Runs(states[..n + 1], requests[..n], given[..n])
  {
    hide Answered;
    var states', requests', given' := states[..n + 1], requests[..n], given[..n];
    forall i | 0 <= i < |given'|
      ensures AnsweredAt(states', requests', given', i)
    {
      assert AnsweredAt(states, requests, given, i);
    }
  }

  function CountsOf(states: seq<map<nat, Page>>): (counts: seq<Counts>)
    ensures |counts| == |states| && forall i :: 0 <= i < |states| ==> counts[i] == SlotCounts(states[i])
  {
    seq(|states|, i requires 0 <= i < |states| => SlotCounts(states[i]))
  }

  lemma RunSupplies(states: seq<map<nat, Page>>, requests: seq<Request>, given: seq<Option<RID>>)
    requires Runs(states, requests, given)
    ensures IsRun(CountsOf(states), given)
  {
    hide RecordAt, StoresAt, SlotCounts;
    forall i | 0 <= i < |given|
      ensures if given[i].Some? then StoresAt(SlotCounts(states[i]), SlotCounts(states[i + 1]), given[i].value)
              else Grows(SlotCounts(states[i]), SlotCounts(states[i + 1]))
    {
      assert AnsweredAt(states, requests, given, i);
    }
  }

  /** In a run no RID is handed out twice, and none that existed at the start. */
  lemma RunGivesNew(states: seq<map<nat, Page>>, requests: seq<Request>, given: seq<Option<RID>>)
    requires Runs(states, requests, given)
    ensures forall i, j :: 0 <= i < j < |given| && given[i].Some? && given[j].Some? ==> given[i] != given[j]
    ensures forall j :: 0 <= j < |given| && given[j].Some? ==> !Issued(SlotCounts(states[0]), given[j].value)
  {
    hide *;
    RunSupplies(states, requests, given);
    RunShape(states, requests, given);
    forall i, j | 0 <= i < j < |given| && given[i].Some? && given[j].Some?
      ensures given[i] != given[j]
    {
      NeverGivenTwice(CountsOf(states), given, i, j);
    }
    forall j | 0 <= j < |given| && given[j].Some?
      ensures !Issued(SlotCounts(states[0]), given[j].value)
    {
      GivenIsNew(CountsOf(states), given, j);
    }
  }

  lemma RunShape(states: seq<map<nat, Page>>, requests: seq<Request>, given: seq<Option<RID>>)
    requires Runs(states, requests, given)
    ensures |states| == |given| + 1 == |requests| + 1
  {
  }

  /** A listing of the records the pages hold is a listing of what they mean. */
  lemma ListsHeld(found: seq<Stored>, pages: map<nat, Page>, records: map<RID, seq<Byte>>)
    requires Holds(pages, records)
    requires forall x :: x in found <==> RecordAt(pages, x.rid) == Some(x.data)
    requires forall i, j :: 0 <= i < j < |found| ==> found[i].rid != found[j].rid
    ensures Lists(found, records)
  {
    hide RecordAt;
  }
}
