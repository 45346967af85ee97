/**
 Record identifiers are given out once: a record takes the next slot of its page and no
 operation ever takes a slot away (engine/storage/_slotted_page.py).
 */
module RidSupply {
  import opened Common

  /** How many slots each page has, live ones and tombstones. */
  type Counts = map<nat, nat>

  function Count(c: Counts, page: int): nat {
    if page >= 0 && page in c then c[page] else 0
  }

  /** The RID names a slot that exists, whether a record is there or was removed. */
  predicate Issued(c: Counts, rid: RID) {
    rid.pageId >= 0 && 0 <= rid.slot < Count(c, rid.pageId)
  }

  ghost predicate Grows(c: Counts, d: Counts) {
    forall page: nat :: Count(c, page) <= Count(d, page)
  }

  /** A record was stored in the next slot of a page; no other slot appeared, none went. */
  ghost predicate StoresAt(c: Counts, d: Counts, rid: RID) {
    && rid.pageId >= 0 && rid.slot == Count(c, rid.pageId)
    && forall page: nat :: Count(d, page) == Count(c, page) + if page == rid.pageId then 1 else 0
  }

  lemma StoredIsFresh(c: Counts, d: Counts, rid: RID)
    requires StoresAt(c, d, rid)
    ensures !Issued(c, rid) && Issued(d, rid) && Grows(c, d)
    ensures forall other :: Issued(d, other) <==> Issued(c, other) || other == rid
  {
  }

  lemma IssuedForever(c: Counts, d: Counts, rid: RID)
    requires Grows(c, d) && Issued(c, rid)
    ensures Issued(d, rid)
  {
  }

  /** A run of a file: an operation gives out a RID or none; slots are only ever added. */
  ghost predicate IsRun(states: seq<Counts>, given: seq<Option<RID>>) {
    && |states| == |given| + 1
    && forall i {:trigger given[i]} :: 0 <= i < |given| ==>
         if given[i].Some? then StoresAt(states[i], states[i + 1], given[i].value) else Grows(states[i], states[i + 1])
  }

  /** What was issued at some point of a run is issued at all later points. */
  lemma {:induction false} IssuedLater(states: seq<Counts>, given: seq<Option<RID>>, i: nat, j: nat, rid: RID)
    requires IsRun(states, given) && i <= j < |states| && Issued(states[i], rid)
    ensures Issued(states[j], rid)
    decreases j - i
  {
    if i < j {
      if given[i].Some? {
        StoredIsFresh(states[i], states[i + 1], given[i].value);
      }
      IssuedForever(states[i], states[i + 1], rid);
      IssuedLater(states, given, i + 1, j, rid);
    }
  }

  /** A RID that is given out did not exist at the start. */
  lemma GivenIsNew(states: seq<Counts>, given: seq<Option<RID>>, j: nat)
    requires IsRun(states, given) && j < |given| && given[j].Some?
    ensures !Issued(states[0], given[j].value)
  {
    StoredIsFresh(states[j], states[j + 1], given[j].value);
    if Issued(states[0], given[j].value) {
      IssuedLater(states, given, 0, j, given[j].value);
    }
  }

  /** In no run is a RID given out twice, whatever was removed in between. */
  lemma NeverGivenTwice(states: seq<Counts>, given: seq<Option<RID>>, i: nat, j: nat)
    requires IsRun(states, given) && i < j < |given| && given[i].Some? && given[j].Some?
    ensures given[i] != given[j]
  {
    StoredIsFresh(states[i], states[i + 1], given[i].value);
    StoredIsFresh(states[j], states[j + 1], given[j].value);
    IssuedLater(states, given, i + 1, j, given[i].value);
  }
}
