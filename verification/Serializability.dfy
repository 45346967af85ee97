/**
 Runs of many transactions over the lock table: every access is made under a held lock,
 locks are given back only when a transaction finishes. Such runs are serializable in the
 order in which the transactions finish.
 */
module Serializability {
  import opened LockTable

  datatype Event = Access(tx: Tx, resource: Resource, isWrite: bool) | Finish(tx: Tx)

  datatype State = State(grants: Grants, waiting: map<Tx, Resource>, active: set<Tx>, nextId: Tx, history: seq<Event>)

  datatype Step =
    | Begin
    | Acquire(tx: Tx, resource: Resource, mode: Mode)
    | GiveUp(tx: Tx)
    | Use(tx: Tx, resource: Resource, isWrite: bool)
    | End(tx: Tx)

  const Init := State(map[], map[], {}, 1, [])

  /** tx holds a lock that covers this access: any mode for a read, exclusive for a write. */
  predicate Covers(g: Grants, tx: Tx, r: Resource, isWrite: bool) {
    tx in Holders(g, r) && (isWrite ==> Holders(g, r)[tx].mode == Exclusive)
  }

  /** One step of the system; a refused acquire only records what the transaction waits for. */
  predicate Next(s: State, step: Step, s': State) {
    match step
    case Begin => s' == s.(active := s.active + {s.nextId}, nextId := s.nextId + 1)
    case Acquire(tx, r, mode) =>
      && tx in s.active
      && s' == if TryGrant(s.grants, tx, r, mode)
               then s.(grants := Granted(s.grants, tx, r, mode), waiting := s.waiting - {tx})
               else s.(waiting := s.waiting[tx := r])
    case GiveUp(tx) => tx in s.active && s' == s.(waiting := s.waiting - {tx})
    case Use(tx, r, isWrite) =>
      && tx in s.active && Covers(s.grants, tx, r, isWrite)
      && s' == s.(history := s.history + [Access(tx, r, isWrite)])
    case End(tx) =>
      && tx in s.active
      && s' == s.(grants := ReleasedAll(s.grants, tx), waiting := s.waiting - {tx},
                  active := s.active - {tx}, history := s.history + [Finish(tx)])
  }

  ghost predicate IsRun(states: seq<State>, steps: seq<Step>) {
    && |states| == |steps| + 1 && states[0] == Init
    && forall i :: 0 <= i < |steps| ==> Next(states[i], steps[i], states[i + 1])
  }

  // ----- history -----

  /** Two accesses of different transactions to one resource, at least one of them a write. */
  predicate Conflict(h: seq<Event>, p: nat, q: nat) {
    && p < |h| && q < |h| && h[p].Access? && h[q].Access?
    && h[p].tx != h[q].tx && h[p].resource == h[q].resource && (h[p].isWrite || h[q].isWrite)
  }

  /** When tx finished; the length of the history if it has not. */
  function FinishedAt(h: seq<Event>, tx: Tx): nat {
    if h == [] then 0
    else if FinishedAt(h[..|h| - 1], tx) < |h| - 1 then FinishedAt(h[..|h| - 1], tx)
    else if h[|h| - 1] == Finish(tx) then |h| - 1
    else |h|
  }

  lemma {:induction false} FinishedAtIs(h: seq<Event>, tx: Tx)
    ensures FinishedAt(h, tx) <= |h|
    ensures FinishedAt(h, tx) < |h| ==> h[FinishedAt(h, tx)] == Finish(tx)
    ensures FinishedAt(h, tx) == |h| ==> Finish(tx) !in h
  {
    if h != [] {
      FinishedAtIs(h[..|h| - 1], tx);
      assert h == h[..|h| - 1] + [h[|h| - 1]];
    }
  }

  lemma FinishedAtAppend(h: seq<Event>, e: Event, tx: Tx)
    ensures FinishedAt(h + [e], tx) ==
      if FinishedAt(h, tx) < |h| then FinishedAt(h, tx)
      else if e == Finish(tx) then |h| else |h| + 1
  {
    assert (h + [e])[..|h|] == h;
    FinishedAtIs(h, tx);
  }

  /** An access at p happened before its transaction finished. */
  ghost predicate BeforeFinish(h: seq<Event>, p: nat)
    requires p < |h|
  {
    h[p].Access? ==> p < FinishedAt(h, h[p].tx)
  }

  /** Of two conflicting accesses the first one's transaction finished in between. */
  ghost predicate FinishedBetween(h: seq<Event>, p: nat, q: nat)
    requires p < |h|
  {
    p < FinishedAt(h, h[p].tx) < q
  }

  ghost predicate HistoryOk(h: seq<Event>) {
    && (forall p {:trigger BeforeFinish(h, p)} :: 0 <= p < |h| ==> BeforeFinish(h, p))
    && (forall p, q {:trigger Conflict(h, p, q)} :: 0 <= p < q < |h| && Conflict(h, p, q) ==> FinishedBetween(h, p, q))
  }

  // ----- the invariant of every run -----

  /** An unfinished transaction still holds a lock for each of its accesses. */
  ghost predicate StillLocked(s: State, p: nat)
    requires p < |s.history|
  {
    s.history[p].Access? && s.history[p].tx in s.active ==>
      Covers(s.grants, s.history[p].tx, s.history[p].resource, s.history[p].isWrite)
  }

  ghost predicate Inv(s: State) {
    && WellFormed(s.grants)
    && (forall r, tx :: tx in Holders(s.grants, r) ==> tx in s.active)
    && (forall tx :: tx in s.active ==> tx < s.nextId && FinishedAt(s.history, tx) == |s.history|)
    && (forall p :: 0 <= p < |s.history| ==> s.history[p].tx < s.nextId)
    && (forall p :: 0 <= p < |s.history| && s.history[p].tx !in s.active ==> FinishedAt(s.history, s.history[p].tx) < |s.history|)
    && (forall p {:trigger StillLocked(s, p)} :: 0 <= p < |s.history| ==> StillLocked(s, p))
    && HistoryOk(s.history)
  }

  lemma InvInit()
    ensures Inv(Init)
  {
  }

  lemma InvNext(s: State, step: Step, s': State)
    requires Inv(s) && Next(s, step, s')
    ensures Inv(s')
  {
    match step {
      case Begin => InvBegin(s, s');
      case Acquire(tx, r, mode) => InvAcquire(s, tx, r, mode, s');
      case GiveUp(tx) =>
        forall p | 0 <= p < |s'.history|
          ensures StillLocked(s', p)
        {
          assert StillLocked(s, p);
        }
      case Use(tx, r, isWrite) => InvUse(s, tx, r, isWrite, s');
      case End(tx) => InvEnd(s, tx, s');
    }
  }

  lemma InvBegin(s: State, s': State)
    requires Inv(s) && Next(s, Begin, s')
    ensures Inv(s')
  {
    assert Finish(s.nextId) !in s.history;
    FinishedAtIs(s.history, s.nextId);
    forall p | 0 <= p < |s'.history|
      ensures StillLocked(s', p)
    {
      assert StillLocked(s, p);
    }
  }

  /** A grant takes no lock away and weakens none. */
  lemma GrantKeepsCovers(g: Grants, tx: Tx, r: Resource, mode: Mode)
    ensures forall t, q, w :: Covers(g, t, q, w) ==> Covers(Granted(g, tx, r, mode), t, q, w)
    ensures forall t, q :: t in Holders(Granted(g, tx, r, mode), q) <==> t in Holders(g, q) || (t == tx && q == r)
  {
  }

  lemma InvAcquire(s: State, tx: Tx, r: Resource, mode: Mode, s': State)
    requires Inv(s) && Next(s, Acquire(tx, r, mode), s')
    ensures Inv(s')
  {
    if TryGrant(s.grants, tx, r, mode) {
      GrantKeepsWellFormed(s.grants, tx, r, mode);
      GrantKeepsCovers(s.grants, tx, r, mode);
    }
    forall p | 0 <= p < |s'.history|
      ensures StillLocked(s', p)
    {
      assert StillLocked(s, p);
    }
  }

  lemma InvUse(s: State, tx: Tx, r: Resource, isWrite: bool, s': State)
    requires Inv(s) && Next(s, Use(tx, r, isWrite), s')
    ensures Inv(s')
  {
    var h, e := s.history, Access(tx, r, isWrite);
    var h' := h + [e];
    forall t
      ensures FinishedAt(h', t) == if FinishedAt(h, t) < |h| then FinishedAt(h, t) else |h| + 1
    {
      FinishedAtAppend(h, e, t);
      FinishedAtIs(h, t);
    }
    forall p | 0 <= p < |h'|
      ensures StillLocked(s', p) && BeforeFinish(h', p)
    {
      if p < |h| {
        assert StillLocked(s, p) && BeforeFinish(h, p);
      }
    }
    forall p, q | 0 <= p < q < |h'| && Conflict(h', p, q)
      ensures FinishedBetween(h', p, q)
    {
      assert BeforeFinish(h, p) && StillLocked(s, p);
      if q < |h| {
        assert Conflict(h, p, q);
      } else {
        LocksExclude(s.grants, h[p].tx, h[p].isWrite, tx, isWrite, r);
      }
    }
  }

  /** Two transactions never both hold locks covering conflicting accesses. */
  lemma LocksExclude(g: Grants, a: Tx, aWrites: bool, b: Tx, bWrites: bool, r: Resource)
    requires WellFormed(g) && a != b && (aWrites || bWrites)
    ensures !(Covers(g, a, r, aWrites) && Covers(g, b, r, bWrites))
  {
    if a in Holders(g, r) && b in Holders(g, r) {
      assert Compatible(g[r][a].mode, g[r][b].mode) && Compatible(g[r][b].mode, g[r][a].mode);
    }
  }

  lemma InvEnd(s: State, tx: Tx, s': State)
    requires Inv(s) && Next(s, End(tx), s')
    ensures Inv(s')
  {
    var h, e := s.history, Finish(tx);
    var h' := h + [e];
    ReleaseKeepsWellFormed(s.grants, tx);
    forall t
      ensures FinishedAt(h', t) == if FinishedAt(h, t) < |h| then FinishedAt(h, t) else if t == tx then |h| else |h| + 1
    {
      FinishedAtAppend(h, e, t);
      FinishedAtIs(h, t);
    }
    forall p | 0 <= p < |h'|
      ensures StillLocked(s', p) && BeforeFinish(h', p)
    {
      if p < |h| {
        assert StillLocked(s, p) && BeforeFinish(h, p);
      }
    }
    forall p, q | 0 <= p < q < |h'| && Conflict(h', p, q)
      ensures FinishedBetween(h', p, q)
    {
      assert Conflict(h, p, q);
    }
  }

  /** Every reachable state satisfies the invariant: locks compatible, conflicts in finish order. */
  lemma {:induction false} RunInv(states: seq<State>, steps: seq<Step>, i: nat)
    requires IsRun(states, steps) && i < |states|
    ensures Inv(states[i])
  {
    if i == 0 {
      InvInit();
    } else {
      RunInv(states, steps, i - 1);
      InvNext(states[i - 1], steps[i - 1], states[i]);
    }
  }

  // ----- serializability -----

  /** a precedes b in the conflict graph. */
  ghost predicate Edge(h: seq<Event>, a: Tx, b: Tx) {
    exists p, q :: 0 <= p < q < |h| && Conflict(h, p, q) && h[p].tx == a && h[q].tx == b
  }

  ghost predicate Path(h: seq<Event>, txs: seq<Tx>) {
    |txs| >= 2 && forall i :: 0 <= i < |txs| - 1 ==> Edge(h, txs[i], txs[i + 1])
  }

  lemma EdgeFollowsFinish(h: seq<Event>, a: Tx, b: Tx)
    requires HistoryOk(h) && Edge(h, a, b)
    ensures FinishedAt(h, a) < FinishedAt(h, b)
  {
    var p, q :| 0 <= p < q < |h| && Conflict(h, p, q) && h[p].tx == a && h[q].tx == b;
    assert FinishedBetween(h, p, q) && BeforeFinish(h, q);
  }

  lemma {:induction false} PathFollowsFinish(h: seq<Event>, txs: seq<Tx>)
    requires HistoryOk(h) && Path(h, txs)
    ensures FinishedAt(h, txs[0]) < FinishedAt(h, txs[|txs| - 1])
  {
    var n := |txs| - 1;
    assert Edge(h, txs[n - 1], txs[n]);
    EdgeFollowsFinish(h, txs[n - 1], txs[n]);
    if n > 1 {
      assert forall i :: 0 <= i < n - 1 ==> Edge(h, txs[i], txs[i + 1]);
      PathFollowsFinish(h, txs[..n]);
    }
  }

  /** In every run, after any number of steps, the conflict graph has no cycle. */
  lemma ConflictGraphAcyclic(states: seq<State>, steps: seq<Step>, i: nat, txs: seq<Tx>)
    requires IsRun(states, steps) && i < |states|
    requires Path(states[i].history, txs)
    ensures txs[0] != txs[|txs| - 1]
  {
    RunInv(states, steps, i);
    PathFollowsFinish(states[i].history, txs);
  }

  /**
   The serial order: transaction after transaction, by finish time; those still running
   come last, by id; within a transaction as it happened.
   */
  ghost predicate SerialBefore(h: seq<Event>, p: nat, q: nat)
    requires p < |h| && q < |h|
  {
    var a, b := h[p].tx, h[q].tx;
    || FinishedAt(h, a) < FinishedAt(h, b)
    || (FinishedAt(h, a) == FinishedAt(h, b) && (a < b || (a == b && p < q)))
  }

  /** It is a strict total order of the events in which no two transactions interleave. */
  lemma SerialOrderIsSerial(h: seq<Event>, p: nat, q: nat, r: nat)
    requires p < |h| && q < |h| && r < |h|
    ensures !SerialBefore(h, p, p)
    ensures p != q ==> SerialBefore(h, p, q) || SerialBefore(h, q, p)
    ensures SerialBefore(h, p, q) && SerialBefore(h, q, r) ==> SerialBefore(h, p, r)
    ensures h[p].tx == h[r].tx && SerialBefore(h, p, q) && SerialBefore(h, q, r) ==> h[q].tx == h[p].tx
  {
    FinishedAtIs(h, h[p].tx);
    FinishedAtIs(h, h[q].tx);
  }

  /** Accesses that conflict, or belong to one transaction, keep their order. */
  lemma SerialOrderAgrees(h: seq<Event>, p: nat, q: nat)
    requires HistoryOk(h) && p < |h| && q < |h| && p != q
    requires Conflict(h, p, q) || h[p].tx == h[q].tx
    ensures p < q <==> SerialBefore(h, p, q)
  {
    if Conflict(h, p, q) {
      assert Conflict(h, q, p);
      assert BeforeFinish(h, p) && BeforeFinish(h, q);
      if p < q {
        assert FinishedBetween(h, p, q);
      } else {
        assert FinishedBetween(h, q, p);
      }
    }
  }

  predicate WriteTo(h: seq<Event>, w: nat, r: Resource) {
    w < |h| && h[w].Access? && h[w].isWrite && h[w].resource == r
  }

  /** The access at q sees the write at w, in the run as it happened ... */
  ghost predicate Sees(h: seq<Event>, q: nat, w: nat)
    requires q < |h| && h[q].Access?
  {
    && WriteTo(h, w, h[q].resource) && w < q
    && forall v: nat :: WriteTo(h, v, h[q].resource) ==> v <= w || q <= v
  }

  /** ... and in the serial order. */
  ghost predicate SeesSerially(h: seq<Event>, q: nat, w: nat)
    requires q < |h| && h[q].Access?
  {
    && WriteTo(h, w, h[q].resource) && SerialBefore(h, w, q)
    && forall v: nat {:trigger WriteTo(h, v, h[q].resource)} :: WriteTo(h, v, h[q].resource) ==>
         v == w || v == q || SerialBefore(h, v, w) || SerialBefore(h, q, v)
  }

  /** Each access sees the same write as if the transactions had run one after another. */
  lemma ReadsAreSerial(states: seq<State>, steps: seq<Step>, i: nat, q: nat, w: nat)
    requires IsRun(states, steps) && i < |states|
    requires q < |states[i].history| && states[i].history[q].Access?
    ensures Sees(states[i].history, q, w) <==> SeesSerially(states[i].history, q, w)
  {
    var h := states[i].history;
    RunInv(states, steps, i);
    if WriteTo(h, w, h[q].resource) && w != q {
      SerialOrderAgrees(h, w, q);
      forall v: nat | WriteTo(h, v, h[q].resource)
        ensures v != w ==> (v < w <==> SerialBefore(h, v, w))
        ensures v != q ==> (q < v <==> SerialBefore(h, q, v))
      {
        if v != w {
          SerialOrderAgrees(h, v, w);
        }
        if v != q {
          SerialOrderAgrees(h, q, v);
        }
      }
    }
  }

  /** The last write to each resource is the same as well. */
  lemma FinalWritesAreSerial(states: seq<State>, steps: seq<Step>, i: nat, r: Resource, w: nat)
    requires IsRun(states, steps) && i < |states|
    requires WriteTo(states[i].history, w, r)
    ensures (forall v: nat :: WriteTo(states[i].history, v, r) ==> v <= w)
            <==> (forall v: nat {:trigger WriteTo(states[i].history, v, r)} :: WriteTo(states[i].history, v, r) ==>
                    v == w || SerialBefore(states[i].history, v, w))
  {
    var h := states[i].history;
    RunInv(states, steps, i);
    forall v: nat | WriteTo(h, v, r) && v != w
      ensures v < w <==> SerialBefore(h, v, w)
    {
      SerialOrderAgrees(h, v, w);
    }
  }

  // ----- readers -----

  /** tx has asked for Shared only. */
  ghost predicate Reader(steps: seq<Step>, tx: Tx) {
    forall i :: 0 <= i < |steps| && steps[i].Acquire? && steps[i].tx == tx ==> steps[i].mode == Shared
  }

  /** What a reader holds it holds in the mode Shared. */
  lemma {:induction false} ReaderHoldsShared(states: seq<State>, steps: seq<Step>, n: nat, tx: Tx, r: Resource)
    requires IsRun(states, steps) && n <= |steps| && Reader(steps[..n], tx)
    ensures Holds(states[n].grants, tx, r) ==> states[n].grants[r][tx].mode == Shared
    decreases n
  {
    if n > 0 {
      assert steps[..n - 1] == steps[..n][..n - 1];
      ReaderHoldsShared(states, steps, n - 1, tx, r);
      var s, step, s' := states[n - 1], steps[n - 1], states[n];
      assert Next(s, step, s') && step == steps[..n][n - 1];
      if step.Acquire? {
        GrantedWhen(s.grants, step.tx, step.resource, step.mode);
      } else if step.End? {
        ReleasedHolds(s.grants, step.tx);
      }
    }
  }

  /** A reader is refused only because of someone who holds the resource exclusively, who is no reader. */
  lemma ReadersPassEachOther(states: seq<State>, steps: seq<Step>, n: nat, tx: Tx, r: Resource)
    requires IsRun(states, steps) && n < |steps| && steps[n] == Acquire(tx, r, Shared) && Reader(steps[..n], tx)
    ensures tx in states[n + 1].waiting <==>
            exists other :: other != tx && Holds(states[n].grants, other, r) && states[n].grants[r][other].mode == Exclusive
    ensures forall other :: Holds(states[n].grants, other, r) && states[n].grants[r][other].mode == Exclusive ==> !Reader(steps[..n], other)
  {
    assert Next(states[n], steps[n], states[n + 1]);
    GrantedWhen(states[n].grants, tx, r, Shared);
    ReaderHoldsShared(states, steps, n, tx, r);
    forall other | Reader(steps[..n], other)
      ensures Holds(states[n].grants, other, r) ==> states[n].grants[r][other].mode == Shared
    {
      ReaderHoldsShared(states, steps, n, other, r);
    }
  }

  lemma ReaderBefore(steps: seq<Step>, m: nat, n: nat, tx: Tx)
    requires m <= n <= |steps| && Reader(steps[..n], tx)
    ensures Reader(steps[..m], tx)
  {
    forall i | 0 <= i < m && steps[..m][i].Acquire? && steps[..m][i].tx == tx
      ensures steps[..m][i].mode == Shared
    {
      assert steps[..n][i] == steps[i];
    }
  }

  /** Where everybody only reads, nobody ever waits. */
  lemma {:induction false} ReadersNeverWait(states: seq<State>, steps: seq<Step>, n: nat)
    requires IsRun(states, steps) && n <= |steps| && forall tx :: Reader(steps[..n], tx)
    ensures states[n].waiting == map[]
    decreases n
  {
    if n > 0 {
      var step := steps[n - 1];
      assert step == steps[..n][n - 1];
      var before := steps[..n - 1];
      forall tx
        ensures Reader(before, tx)
      {
        ReaderBefore(steps, n - 1, n, tx);
      }
      ReadersNeverWait(states, steps, n - 1);
      assert Next(states[n - 1], step, states[n]);
      if step.Acquire? {
        assert Reader(steps[..n], step.tx);
        ReadersPassEachOther(states, steps, n - 1, step.tx, step.resource);
      }
    }
  }

  /** Any lock allows to read, an exclusive one to write. */
  lemma AccessAllowed(s: State, tx: Tx, r: Resource, isWrite: bool)
    requires tx in s.active
    ensures (exists s' :: Next(s, Use(tx, r, isWrite), s')) <==>
            Holds(s.grants, tx, r) && (isWrite ==> s.grants[r][tx].mode == Exclusive)
  {
    if Holds(s.grants, tx, r) && (isWrite ==> s.grants[r][tx].mode == Exclusive) {
      assert Next(s, Use(tx, r, isWrite), s.(history := s.history + [Access(tx, r, isWrite)]));
    }
  }

  // ----- a run in which the deadlock check reports more than the members of the deadlock -----

  /** What a request does to the state. */
  function Requested(s: State, tx: Tx, r: Resource): State {
    if TryGrant(s.grants, tx, r, Exclusive)
    then s.(grants := Granted(s.grants, tx, r, Exclusive), waiting := s.waiting - {tx})
    else s.(waiting := s.waiting[tx := r])
  }

  lemma ExtendRun(states: seq<State>, steps: seq<Step>, step: Step, s: State)
    requires IsRun(states, steps) && Next(states[|steps|], step, s)
    ensures IsRun(states + [s], steps + [step])
  {
    hide Next;
  }

  lemma RequestStep(s: State, tx: Tx, r: Resource)
    requires tx in s.active
    ensures Next(s, Acquire(tx, r, Exclusive), Requested(s, tx, r))
  {
  }

  lemma ThreeBegin() returns (states: seq<State>, steps: seq<Step>)
    ensures IsRun(states, steps) && |steps| == 3 && states[3] == State(map[], map[], {1, 2, 3}, 4, [])
  {
    var s1 := Init.(active := {1}, nextId := 2);
    var s2 := s1.(active := {1, 2}, nextId := 3);
    states, steps := [Init], [];
    ExtendRun(states, steps, Begin, s1);
    ExtendRun(states + [s1], steps + [Begin], Begin, s2);
    ExtendRun(states + [s1] + [s2], steps + [Begin] + [Begin], Begin, s2.(active := {1, 2, 3}, nextId := 4));
    states := states + [s1] + [s2] + [s2.(active := {1, 2, 3}, nextId := 4)];
    steps := steps + [Begin] + [Begin] + [Begin];
  }

  /** Two transactions lock one resource each and ask for the other's; a third asks for one of them. */
  lemma RunReportsOffTheCycle() returns (states: seq<State>, steps: seq<Step>)
    ensures IsRun(states, steps)
    ensures var s := states[|steps|];
            DeadlockDetected(s.grants, s.waiting, 3) && forall other :: 3 !in LockTable.Next(WaitFor(s.grants, s.waiting), other)
  {
    states, steps := ThreeBegin();
    var x := Grant(Exclusive, 1);
    var one, both := map[0 := map[1 := x]], map[0 := map[1 := x], 1 := map[2 := x]];
    states, steps := RequestNext(states, steps, 1, 0, one, map[]);
    states, steps := RequestNext(states, steps, 2, 1, both, map[]);
    states, steps := RequestNext(states, steps, 1, 1, both, map[1 := 1]);
    states, steps := RequestNext(states, steps, 2, 0, both, map[1 := 1, 2 := 0]);
    states, steps := RequestNext(states, steps, 3, 0, both, map[1 := 1, 2 := 0, 3 := 0]);
    ThirdIsReported(both, map[1 := 1, 2 := 0, 3 := 0]);
  }

  /** One more request, with these grants and waits as its result. */
  lemma RequestNext(states: seq<State>, steps: seq<Step>, tx: Tx, r: Resource, g: Grants, waiting: map<Tx, Resource>)
    returns (states': seq<State>, steps': seq<Step>)
    requires IsRun(states, steps) && tx in states[|steps|].active
    requires Requested(states[|steps|], tx, r) == states[|steps|].(grants := g, waiting := waiting)
    ensures IsRun(states', steps')
    ensures states'[|steps'|] == states[|steps|].(grants := g, waiting := waiting)
  {
    var last := states[|steps|];
    assert |states| == |steps| + 1;
    hide IsRun;
    RequestStep(last, tx, r);
    ExtendRun(states, steps, Acquire(tx, r, Exclusive), Requested(last, tx, r));
    states', steps' := states + [Requested(last, tx, r)], steps + [Acquire(tx, r, Exclusive)];
    assert states'[|steps'|] == Requested(last, tx, r);
  }

  lemma ThirdIsReported(g: Grants, waiting: map<Tx, Resource>)
    requires g == map[0 := map[1 := Grant(Exclusive, 1)], 1 := map[2 := Grant(Exclusive, 1)]]
    requires waiting == map[1 := 1, 2 := 0, 3 := 0]
    ensures DeadlockDetected(g, waiting, 3) && forall other :: 3 !in LockTable.Next(WaitFor(g, waiting), other)
  {
    var e := WaitFor(g, waiting);
    assert LockTable.Next(e, 3) == {1} && LockTable.Next(e, 1) == {2} && LockTable.Next(e, 2) == {1};
    var w := [3, 1, 2, 1];
    assert w[3] == w[1] && w[1] in w[..3];
    assert Lasso(e, 3, w);
    DeadlockIffReachableCycle(g, waiting, 3);
  }
}
