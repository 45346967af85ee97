/** The strict two-phase-locking lock table (engine/transactions/strategies/strict_2pl.py). */
module LockTable {
  type Tx = int
  type Resource = nat

  datatype Mode = Shared | Update | Exclusive

  /** A lock held by one transaction: its mode and how often it was acquired. */
  datatype Grant = Grant(mode: Mode, count: nat)

  type Grants = map<Resource, map<Tx, Grant>>

  function Priority(m: Mode): nat {
    match m
    case Shared => 0
    case Update => 1
    case Exclusive => 2
  }

  /** Can `wanted` be granted while another transaction holds `held`? */
  predicate Compatible(held: Mode, wanted: Mode) {
    match held
    case Shared => wanted != Exclusive
    case Update => wanted == Shared
    case Exclusive => false
  }

  function Stronger(held: Mode, requested: Mode): Mode {
    if Priority(requested) > Priority(held) then requested else held
  }

  function Holders(g: Grants, r: Resource): map<Tx, Grant> {
    if r in g then g[r] else map[]
  }

  predicate TryGrant(g: Grants, tx: Tx, r: Resource, mode: Mode) {
    var held := Holders(g, r);
    var desired := if tx in held then Stronger(held[tx].mode, mode) else mode;
    forall other :: other in held && other != tx ==> Compatible(held[other].mode, desired)
  }

  function Granted(g: Grants, tx: Tx, r: Resource, mode: Mode): Grants {
    var held := Holders(g, r);
    g[r := held[tx := if tx in held then Grant(Stronger(held[tx].mode, mode), held[tx].count + 1) else Grant(mode, 1)]]
  }

  /** The table without any lock of tx; resources nobody holds are dropped. */
  function ReleasedAll(g: Grants, tx: Tx): Grants {
    map r | r in g && g[r].Keys - {tx} != {} :: g[r] - {tx}
  }

  /** Locks of different transactions on one resource are compatible, both ways round. */
  ghost predicate PairwiseCompatible(g: Grants) {
    forall r, a, b :: r in g && a in g[r] && b in g[r] && a != b ==> Compatible(g[r][a].mode, g[r][b].mode)
  }

  ghost predicate WellFormed(g: Grants) {
    && PairwiseCompatible(g)
    && forall r :: r in g ==> g[r] != map[] && forall tx :: tx in g[r] ==> g[r][tx].count >= 1
  }

  lemma CompatibleSymmetric(a: Mode, b: Mode)
    ensures Compatible(a, b) == Compatible(b, a)
  {
  }

  /** tx has a lock on r, in some mode. */
  ghost predicate Holds(g: Grants, tx: Tx, r: Resource) {
    r in g && tx in g[r]
  }

  /** The mode tx has on r once the request is granted: what it has already is never given up. */
  ghost function Desired(g: Grants, tx: Tx, r: Resource, mode: Mode): Mode {
    if Holds(g, tx, r) && (g[r][tx].mode == Exclusive || (g[r][tx].mode == Update && mode == Shared)) then g[r][tx].mode else mode
  }

  /** Everyone else who holds r holds it in one of these modes. */
  ghost predicate OthersHold(g: Grants, tx: Tx, r: Resource, modes: set<Mode>) {
    forall other :: Holds(g, other, r) && other != tx ==> g[r][other].mode in modes
  }

  /** Who may lock what beside whom, mode by mode. */
  lemma GrantedWhen(g: Grants, tx: Tx, r: Resource, mode: Mode)
    ensures TryGrant(g, tx, r, mode) <==>
            match Desired(g, tx, r, mode)
            case Shared => OthersHold(g, tx, r, {Shared, Update})
            case Update => OthersHold(g, tx, r, {Shared})
            case Exclusive => OthersHold(g, tx, r, {})
    ensures Granted(g, tx, r, mode) ==
            g[r := (if r in g then g[r] else map[])[tx := Grant(Desired(g, tx, r, mode), (if Holds(g, tx, r) then g[r][tx].count else 0) + 1)]]
  {
    var held := Holders(g, r);
    var desired := if tx in held then Stronger(held[tx].mode, mode) else mode;
    assert desired == Desired(g, tx, r, mode);
    assert forall other :: other in held <==> Holds(g, other, r);
  }

  lemma GrantKeepsWellFormed(g: Grants, tx: Tx, r: Resource, mode: Mode)
    requires WellFormed(g) && TryGrant(g, tx, r, mode)
    ensures WellFormed(Granted(g, tx, r, mode))
  {
    var g': Grants := Granted(g, tx, r, mode);
    forall s, a, b | s in g' && a in g'[s] && b in g'[s] && a != b
      ensures Compatible(g'[s][a].mode, g'[s][b].mode)
    {
      if s == r && a == tx {
        CompatibleSymmetric(g'[s][a].mode, g'[s][b].mode);
      }
    }
    assert forall s :: s in g' ==> (s == r && tx in g'[s]) || (s in g && g'[s] == g[s]);
  }

  /** A refused request really conflicts with a lock of someone else. */
  lemma RefusedMeansConflict(g: Grants, tx: Tx, r: Resource, mode: Mode)
    requires WellFormed(g) && !TryGrant(g, tx, r, mode)
    ensures r in g && exists other :: other in g[r] && other != tx && !Compatible(g[r][other].mode, mode)
  {
    var held := Holders(g, r);
    var desired := if tx in held then Stronger(held[tx].mode, mode) else mode;
    var other :| other in held && other != tx && !Compatible(held[other].mode, desired);
  }

  lemma ReleaseKeepsWellFormed(g: Grants, tx: Tx)
    requires WellFormed(g)
    ensures WellFormed(ReleasedAll(g, tx))
    ensures forall r :: r in ReleasedAll(g, tx) ==> tx !in ReleasedAll(g, tx)[r]
    ensures forall r, other :: other != tx ==>
              (other in Holders(ReleasedAll(g, tx), r) <==> other in Holders(g, r))
    ensures forall r, other :: other != tx && other in Holders(g, r) ==>
              Holders(ReleasedAll(g, tx), r)[other] == Holders(g, r)[other]
  {
    var h: Grants := ReleasedAll(g, tx);
    forall r | r in h
      ensures h[r] != map[]
    {
      assert h[r].Keys == g[r].Keys - {tx};
    }
    forall r, other | other != tx
      ensures other in Holders(h, r) <==> other in Holders(g, r)
    {
      if r in g && other in g[r] {
        assert other in g[r].Keys - {tx};
      }
    }
  }

  lemma ReleasedAllIs(g: Grants, tx: Tx, h: Grants)
    requires h.Keys <= g.Keys
    requires forall r :: r in g ==> (r in h <==> g[r].Keys - {tx} != {})
    requires forall r :: r in h ==> h[r] == g[r] - {tx}
    ensures h == ReleasedAll(g, tx)
  {
    assert h.Keys == ReleasedAll(g, tx).Keys;
  }

  lemma ReleasedHolds(g: Grants, tx: Tx)
    ensures forall r, other :: Holds(ReleasedAll(g, tx), other, r) <==> Holds(g, other, r) && other != tx
    ensures forall r, other :: Holds(ReleasedAll(g, tx), other, r) ==> ReleasedAll(g, tx)[r][other] == g[r][other]
  {
    forall r, other | Holds(g, other, r) && other != tx
      ensures Holds(ReleasedAll(g, tx), other, r)
    {
      assert other in g[r].Keys - {tx};
    }
  }

  // ----- waiting and deadlock -----

  type Edges = map<Tx, set<Tx>>

  /** Who waits for whom: every other holder of the resource a transaction is blocked on. */
  function WaitFor(g: Grants, waiting: map<Tx, Resource>): Edges {
    map tx | tx in waiting :: Holders(g, waiting[tx]).Keys - {tx}
  }

  function Next(e: Edges, n: Tx): set<Tx> {
    if n in e then e[n] else {}
  }

  function Nodes(e: Edges): set<Tx> {
    e.Keys + set n, m | n in e && m in e[n] :: m
  }

  /** Depth-first search with the path walked so far: does it run into its own path? */
  predicate InCycle(e: Edges, n: Tx, path: set<Tx>)
    requires n in Nodes(e) && path <= Nodes(e)
    decreases Nodes(e) - path
  {
    n in path || exists m :: m in Next(e, n) && StepInCycle(e, n, m, path)
  }

  predicate StepInCycle(e: Edges, n: Tx, m: Tx, path: set<Tx>)
    requires n in Nodes(e) && path <= Nodes(e) && n !in path && m in Next(e, n)
    decreases Nodes(e) - path, 0
  {
    assert n in Nodes(e) - path && n !in Nodes(e) - (path + {n});
    InCycle(e, m, path + {n})
  }

  predicate DeadlockDetected(g: Grants, waiting: map<Tx, Resource>, tx: Tx) {
    tx in waiting && (assert tx in WaitFor(g, waiting).Keys; InCycle(WaitFor(g, waiting), tx, {}))
  }

  ghost predicate Walk(e: Edges, w: seq<Tx>) {
    forall i :: 0 <= i < |w| - 1 ==> w[i + 1] in Next(e, w[i])
  }

  /** A walk from n that comes back to a node it has visited: a cycle reachable from n. */
  ghost predicate Lasso(e: Edges, n: Tx, w: seq<Tx>) {
    |w| >= 2 && w[0] == n && Walk(e, w) && w[|w| - 1] in w[..|w| - 1]
  }

  /** No hit: no walk from n meets the path or repeats a node. */
  lemma {:induction false} NoHitNoRepeat(e: Edges, n: Tx, path: set<Tx>, w: seq<Tx>)
    requires n in Nodes(e) && path <= Nodes(e) && !InCycle(e, n, path)
    requires |w| >= 1 && w[0] == n && Walk(e, w)
    ensures forall i :: 0 <= i < |w| ==> w[i] !in path
    ensures forall i, j :: 0 <= i < j < |w| ==> w[i] != w[j]
    decreases |w|
  {
    if |w| >= 2 {
      var m := w[1];
      assert m in Next(e, n);
      assert !StepInCycle(e, n, m, path);
      NoHitNoRepeat(e, m, path + {n}, w[1..]);
    }
  }

  /** A hit: some walk from n runs into the path or into itself. */
  lemma {:induction false} HitGivesWalk(e: Edges, n: Tx, path: set<Tx>) returns (w: seq<Tx>)
    requires n in Nodes(e) && path <= Nodes(e) && InCycle(e, n, path)
    ensures |w| >= 1 && w[0] == n && Walk(e, w)
    ensures w[|w| - 1] in path || w[|w| - 1] in w[..|w| - 1]
    decreases Nodes(e) - path
  {
    if n in path {
      w := [n];
    } else {
      var m :| m in Next(e, n) && StepInCycle(e, n, m, path);
      assert n in Nodes(e) - path && n !in Nodes(e) - (path + {n});
      var v := HitGivesWalk(e, m, path + {n});
      w := [n] + v;
      assert w[|w| - 1] == v[|v| - 1];
      assert w[..|w| - 1] == [n] + v[..|v| - 1];
      assert w[0] == n;
    }
  }

  /** The check reports a transaction if and only if a wait-for cycle is reachable from it. */
  lemma DeadlockIffReachableCycle(g: Grants, waiting: map<Tx, Resource>, tx: Tx)
    ensures DeadlockDetected(g, waiting, tx) <==> exists w :: Lasso(WaitFor(g, waiting), tx, w)
  {
    var e := WaitFor(g, waiting);
    if DeadlockDetected(g, waiting, tx) {
      var w := HitGivesWalk(e, tx, {});
      assert Lasso(e, tx, w);
    }
    if w :| Lasso(e, tx, w) {
      assert w[1] in Next(e, w[0]);
      if !DeadlockDetected(g, waiting, tx) {
        NoHitNoRepeat(e, tx, {}, w);
        assert false;
      }
    }
  }

  /** Every member of a cycle is reported. */
  lemma EveryMemberReported(g: Grants, waiting: map<Tx, Resource>, c: seq<Tx>, k: nat)
    requires |c| >= 2 && c[0] == c[|c| - 1] && Walk(WaitFor(g, waiting), c) && k < |c|
    ensures DeadlockDetected(g, waiting, c[k])
  {
    var e := WaitFor(g, waiting);
    var w := if k == |c| - 1 then c else c[k..] + c[1..k + 1];
    forall i | 0 <= i < |w| - 1
      ensures w[i + 1] in Next(e, w[i])
    {
      if k < |c| - 1 {
        var j := if k + i < |c| then k + i else k + i + 1 - |c|;
        assert w[i] == c[j];
        assert j == |c| - 1 ==> c[j] == c[0];
        assert w[i + 1] == if j == |c| - 1 then c[1] else c[j + 1];
      }
    }
    assert w[|w| - 1] == w[0] && w[0] in w[..|w| - 1];
    assert Lasso(e, c[k], w);
    DeadlockIffReachableCycle(g, waiting, c[k]);
  }

  /** a waits for a resource that b holds. */
  ghost predicate Blocked(g: Grants, waiting: map<Tx, Resource>, a: Tx, b: Tx) {
    a in waiting && a != b && Holds(g, b, waiting[a])
  }

  /** From tx, following who is blocked by whom, one comes to a transaction a second time. */
  ghost predicate Circles(g: Grants, waiting: map<Tx, Resource>, tx: Tx, w: seq<Tx>) {
    && |w| >= 2 && w[0] == tx && w[|w| - 1] in w[..|w| - 1]
    && forall i :: 0 <= i < |w| - 1 ==> Blocked(g, waiting, w[i], w[i + 1])
  }

  lemma CirclesIsLasso(g: Grants, waiting: map<Tx, Resource>, tx: Tx, w: seq<Tx>)
    ensures Circles(g, waiting, tx, w) <==> Lasso(WaitFor(g, waiting), tx, w)
  {
    assert forall a, b :: Blocked(g, waiting, a, b) <==> b in Next(WaitFor(g, waiting), a);
  }

  lemma SomeMember<T>(s: set<T>) returns (x: T)
    requires s != {}
    ensures x in s
  {
    x :| x in s;
  }

  /** Where every node has a successor, every walk ends up in a cycle. */
  lemma {:induction false} NoWayOut(e: Edges, n: Tx, path: set<Tx>)
    requires n in e && path <= Nodes(e)
    requires forall m :: m in e ==> e[m] != {} && e[m] <= e.Keys
    ensures InCycle(e, n, path)
    decreases Nodes(e) - path
  {
    if n !in path {
      var m := SomeMember(e[n]);
      assert m in Next(e, n);
      assert n in Nodes(e) - path && n !in Nodes(e) - (path + {n});
      NoWayOut(e, m, path + {n});
      assert StepInCycle(e, n, m, path);
    }
  }

  /**
   No standstill goes unnoticed: when every waiting transaction is held up by someone and
   everyone who holds up another is waiting as well, each of them is reported.
   */
  lemma StandstillIsReported(g: Grants, waiting: map<Tx, Resource>, tx: Tx)
    requires tx in waiting
    requires forall t :: t in waiting ==>
               var ahead := Holders(g, waiting[t]).Keys - {t};
               ahead != {} && ahead <= waiting.Keys
    ensures DeadlockDetected(g, waiting, tx)
  {
    var e := WaitFor(g, waiting);
    assert e.Keys == waiting.Keys;
    NoWayOut(e, tx, {});
  }

  // ----- the lock table itself -----

  class StrictTwoPhaseLocking {
    var grants: Grants
    var waiting: map<Tx, Resource>

    ghost predicate Valid()
      reads this
    {
      WellFormed(grants)
    }

    constructor ()
      ensures Valid() && grants == map[] && waiting == map[]
    {
      grants, waiting := map[], map[];
    }

    /** One round of the polling loop of acquire, under the mutex. */
    method TryAcquire(tx: Tx, r: Resource, mode: Mode) returns (granted: bool)
      requires Valid()
      modifies this
      ensures Valid()
      ensures granted == TryGrant(old(grants), tx, r, mode)
      ensures granted <==> match Desired(old(grants), tx, r, mode)
                           case Shared => OthersHold(old(grants), tx, r, {Shared, Update})
                           case Update => OthersHold(old(grants), tx, r, {Shared})
                           case Exclusive => OthersHold(old(grants), tx, r, {})
      ensures granted ==> grants == Granted(old(grants), tx, r, mode) && waiting == old(waiting) - {tx}
      ensures granted ==> forall s, other :: s != r || other != tx ==>
                (Holds(grants, other, s) <==> Holds(old(grants), other, s)) && (Holds(grants, other, s) ==> grants[s][other] == old(grants)[s][other])
      ensures granted ==> Holds(grants, tx, r) && grants[r][tx].mode == Desired(old(grants), tx, r, mode)
      ensures granted ==> grants[r][tx].count == (if Holds(old(grants), tx, r) then old(grants)[r][tx].count else 0) + 1
      ensures !granted ==> grants == old(grants) && waiting == old(waiting)[tx := r]
    {
      granted := TryGrant(grants, tx, r, mode);
      GrantedWhen(grants, tx, r, mode);
      if granted {
        GrantKeepsWellFormed(grants, tx, r, mode);
        waiting := waiting - {tx};
        var held := Holders(grants, r);
        if tx in held {
          grants := grants[r := held[tx := Grant(Stronger(held[tx].mode, mode), held[tx].count + 1)]];
        } else {
          grants := grants[r := held[tx := Grant(mode, 1)]];
        }
      } else {
        waiting := waiting[tx := r];
      }
    }

    /** After a deadlock report or a timeout the transaction stops waiting. */
    method StopWaiting(tx: Tx)
      modifies this`waiting
      ensures waiting == old(waiting) - {tx}
    {
      waiting := waiting - {tx};
    }

    method IsDeadlocked(tx: Tx) returns (reported: bool)
      ensures reported <==> exists w :: Lasso(WaitFor(grants, waiting), tx, w)
      ensures reported <==> exists w :: Circles(grants, waiting, tx, w)
    {
      forall w
        ensures Circles(grants, waiting, tx, w) <==> Lasso(WaitFor(grants, waiting), tx, w)
      {
        CirclesIsLasso(grants, waiting, tx, w);
      }
      reported := DeadlockDetected(grants, waiting, tx);
      DeadlockIffReachableCycle(grants, waiting, tx);
    }

    /** Give back one acquisition; only the last one frees the resource. */
    method Release(tx: Tx, r: Resource)
      requires Valid()
      modifies this`grants
      ensures Valid()
      ensures forall s, other :: (s != r || other != tx) ==>
                (other in Holders(grants, s) <==> other in Holders(old(grants), s))
      ensures forall s, other :: (s != r || other != tx) && other in Holders(grants, s) ==>
                Holders(grants, s)[other] == Holders(old(grants), s)[other]
      ensures tx in Holders(old(grants), r) && Holders(old(grants), r)[tx].count > 1 ==>
                && tx in Holders(grants, r)
                && Holders(grants, r)[tx] == Grant(Holders(old(grants), r)[tx].mode, Holders(old(grants), r)[tx].count - 1)
      ensures tx !in Holders(old(grants), r) || Holders(old(grants), r)[tx].count == 1 ==> tx !in Holders(grants, r)
      ensures forall s, other :: Holds(grants, other, s) <==>
                Holds(old(grants), other, s) && !(s == r && other == tx && old(grants)[s][other].count == 1)
    {
      if r !in grants || tx !in grants[r] {
        return;
      }
      var g := grants[r][tx];
      if g.count > 1 {
        grants := grants[r := grants[r][tx := Grant(g.mode, g.count - 1)]];
      } else {
        var rest := grants[r] - {tx};
        if rest == map[] {
          grants := grants - {r};
        } else {
          grants := grants[r := rest];
        }
      }
    }

    /** Commit or rollback: every lock of tx goes, all others stay. */
    method ReleaseAll(tx: Tx)
      requires Valid()
      modifies this
      ensures Valid()
      ensures grants == ReleasedAll(old(grants), tx) && waiting == old(waiting) - {tx}
      ensures forall r, other :: Holds(grants, other, r) <==> Holds(old(grants), other, r) && other != tx
      ensures forall r, other :: Holds(grants, other, r) ==> grants[r][other] == old(grants)[r][other]
    {
      hide WellFormed, ReleasedAll;
      ghost var before := grants;
      waiting := waiting - {tx};
      var todo := grants.Keys;
      while todo != {}
        invariant waiting == old(waiting) - {tx}
        invariant todo <= grants.Keys <= before.Keys
        invariant forall r :: r in todo ==> grants[r] == before[r]
        invariant forall r :: r in before && r !in todo ==>
                    (r in grants <==> before[r].Keys - {tx} != {})
        invariant forall r :: r in grants && r !in todo ==> grants[r] == before[r] - {tx}
        decreases todo
      {
        var r :| r in todo;
        var rest := grants[r] - {tx};
        assert rest.Keys == before[r].Keys - {tx};
        if rest.Keys == {} {
          grants := grants - {r};
        } else {
          grants := grants[r := rest];
        }
        todo := todo - {r};
      }
      ReleasedAllIs(before, tx, grants);
      ReleaseKeepsWellFormed(before, tx);
      ReleasedHolds(before, tx);
    }
  }
}
