/** The entity manager of mini_ecs.h: a LIFO free list of destroyed ids over a
    fixed-capacity array, plus the counter of the next never-issued id.

    The manager's behaviour is given twice: as pure transitions on an abstract
    state (Allocate, Release), about which the lemmas below are proved, and as
    the class EntityManager, which updates its fields and array in place and
    whose methods are proved to perform exactly those transitions. */
module EntityManagement {
  import opened EcsTypes

  /** Abstract manager state: the next never-issued id, and the free list
      from bottom to top (the top is the last element). */
  datatype ManagerState = ManagerState(next: nat, free: seq<Entity>)

  predicate WithinCapacity(m: ManagerState, cap: nat)
  {
    m.next <= cap && |m.free| <= cap
  }

  /** Every id on the free list can index an array of capacity `cap`. */
  predicate FreeIdsBelow(m: ManagerState, cap: nat)
  {
    forall i :: 0 <= i < |m.free| ==> m.free[i] < cap
  }

  /** Ids that have been issued and are not waiting on the free list. */
  ghost function Live(m: ManagerState): set<Entity>
  {
    set x | 0 <= x < m.next && x !in m.free
  }

  /** The free-list discipline that rules out double allocation: only issued
      ids are free, and none is free twice. */
  ghost predicate FreeListSound(m: ManagerState)
  {
    && (forall i :: 0 <= i < |m.free| ==> m.free[i] < m.next)
    && (forall i, j :: 0 <= i < j < |m.free| ==> m.free[i] != m.free[j])
  }

  /** `create()`: pop the most recently freed id; otherwise issue `next`;
      otherwise report that the capacity is exhausted. */
  function Allocate(m: ManagerState, cap: nat): (r: (ManagerState, Result<Entity>))
    ensures r.1.Err? <==> |m.free| == 0 && cap <= m.next
    ensures r.1.Err? ==> r.1.error == CapacityExhausted && r.0 == m
    ensures WithinCapacity(m, cap) ==> WithinCapacity(r.0, cap)
    ensures WithinCapacity(m, cap) && FreeIdsBelow(m, cap) ==>
              FreeIdsBelow(r.0, cap) && (r.1.Ok? ==> r.1.value < cap)
  {
    if |m.free| > 0 then
      (ManagerState(m.next, m.free[..|m.free| - 1]), Ok(m.free[|m.free| - 1]))
    else if m.next < cap then
      (ManagerState(m.next + 1, m.free), Ok(m.next))
    else
      (m, Err(CapacityExhausted))
  }

  /** `destroy(e)`: push `e` if the free list has room, else drop it silently. */
  function Release(m: ManagerState, cap: nat, e: Entity): (r: ManagerState)
    ensures r.next == m.next
    ensures WithinCapacity(m, cap) ==> WithinCapacity(r, cap)
    ensures FreeIdsBelow(m, cap) && e < cap ==> FreeIdsBelow(r, cap)
  {
    if |m.free| < cap then ManagerState(m.next, m.free + [e]) else m
  }

  /** Destroying an id and creating one straight away hands the same id back
      and restores the manager. */
  lemma ReleaseThenAllocate(m: ManagerState, cap: nat, e: Entity)
    requires |m.free| < cap
    ensures Allocate(Release(m, cap, e), cap) == (m, Ok(e))
  {
    assert (m.free + [e])[..|m.free|] == m.free;
  }

  lemma LiveAfterPop(m: ManagerState, k: nat)
    requires FreeListSound(m) && k == |m.free| - 1 && 0 < |m.free|
    ensures m.free[k] !in Live(m)
    ensures Live(ManagerState(m.next, m.free[..k])) == Live(m) + {m.free[k]}
    ensures FreeListSound(ManagerState(m.next, m.free[..k]))
  {
    var m' := ManagerState(m.next, m.free[..k]);
    assert m.free == m.free[..k] + [m.free[k]];
    assert forall i :: 0 <= i < k ==> m.free[..k][i] == m.free[i] != m.free[k];
    assert m.free[k] !in m.free[..k];
  }

  ghost function Elements(s: seq<Entity>): set<Entity>
  {
    set x | x in s
  }

  lemma {:induction false} DistinctCard(s: seq<Entity>)
    requires forall i, j :: 0 <= i < j < |s| ==> s[i] != s[j]
    ensures |Elements(s)| == |s|
  {
    if s != [] {
      var last := s[|s| - 1];
      var t := s[..|s| - 1];
      assert s == t + [last];
      DistinctCard(t);
      assert Elements(s) == Elements(t) + {last};
      assert forall i :: 0 <= i < |t| ==> t[i] == s[i] != last;
      assert last !in Elements(t);
    }
  }

  lemma {:induction false} SubsetCard(a: set<Entity>, b: set<Entity>)
    requires a <= b
    ensures |a| <= |b|
  {
    if a != {} {
      var x :| x in a;
      SubsetCard(a - {x}, b - {x});
    }
  }

  /** Pigeonhole: while some id is live, the free list cannot be full, so
      destroying a live id never takes the silent-drop branch. */
  lemma RoomForLive(m: ManagerState, e: Entity)
    requires FreeListSound(m) && e in Live(m)
    ensures |m.free| < m.next
  {
    var ids := seq(m.next, i => i);
    var freeIds := Elements(m.free);
    var issued := Elements(ids);
    DistinctCard(m.free);
    DistinctCard(ids);
    assert e in issued by { assert ids[e] == e; }
    forall x | x in freeIds ensures x in issued - {e} {
      assert ids[x] == x;
    }
    SubsetCard(freeIds, issued - {e});
    assert issued == (issued - {e}) + {e};
    assert |issued| == |issued - {e}| + 1;
  }

  /** A successful create issues an id that was not live, and that id alone
      becomes live; the free-list discipline is kept. */
  lemma AllocateIssuesUnused(m: ManagerState, cap: nat)
    requires FreeListSound(m)
    ensures var (m', r) := Allocate(m, cap);
      && FreeListSound(m')
      && (r.Ok? ==> r.value !in Live(m) && Live(m') == Live(m) + {r.value})
  {
    if |m.free| > 0 {
      LiveAfterPop(m, |m.free| - 1);
    } else if m.next < cap {
      var m' := ManagerState(m.next + 1, m.free);
      assert Live(m') == Live(m) + {m.next};
    }
  }

  /** Destroying a live id retires exactly that id and keeps the discipline. */
  lemma ReleaseRetiresLive(m: ManagerState, cap: nat, e: Entity)
    requires FreeListSound(m) && e in Live(m) && m.next <= cap
    ensures FreeListSound(Release(m, cap, e))
    ensures Live(Release(m, cap, e)) == Live(m) - {e}
  {
    RoomForLive(m, e);
    var m' := Release(m, cap, e);
    assert m'.free == m.free + [e];
    forall i, j | 0 <= i < j < |m'.free| ensures m'.free[i] != m'.free[j] {
      if j == |m.free| {
        assert m'.free[i] == m.free[i];
      }
    }
  }

  /** One call on the manager's interface. */
  datatype Op = CreateOp | DestroyOp(e: Entity)

  function Run(m: ManagerState, cap: nat, ops: seq<Op>): ManagerState
    decreases |ops|
  {
    if ops == [] then m
    else
      var m' := match ops[0]
        case CreateOp => Allocate(m, cap).0
        case DestroyOp(e) => Release(m, cap, e);
      Run(m', cap, ops[1..])
  }

  /** The consumer's side of the bargain: it destroys only ids that are live. */
  ghost predicate DestroysOnlyLive(m: ManagerState, cap: nat, ops: seq<Op>)
    decreases |ops|
  {
    ops != [] ==>
      match ops[0]
      case CreateOp => DestroysOnlyLive(Allocate(m, cap).0, cap, ops[1..])
      case DestroyOp(e) => e in Live(m) && DestroysOnlyLive(Release(m, cap, e), cap, ops[1..])
  }

  /** Every create along the run hands out an id that no live entity holds. */
  ghost predicate IssuesOnlyUnused(m: ManagerState, cap: nat, ops: seq<Op>)
    decreases |ops|
  {
    ops != [] ==>
      match ops[0]
      case CreateOp =>
        (Allocate(m, cap).1.Ok? ==> Allocate(m, cap).1.value !in Live(m))
        && IssuesOnlyUnused(Allocate(m, cap).0, cap, ops[1..])
      case DestroyOp(e) => IssuesOnlyUnused(Release(m, cap, e), cap, ops[1..])
  }

  /** No double allocation: over any run bounded by the capacity in which only
      live ids are destroyed, no create returns an id that is still live, and
      the bookkeeping invariants hold at the end. */
  lemma {:induction false} RunNeverDoubleAllocates(m: ManagerState, cap: nat, ops: seq<Op>)
    requires FreeListSound(m) && WithinCapacity(m, cap)
    requires DestroysOnlyLive(m, cap, ops)
    ensures IssuesOnlyUnused(m, cap, ops)
    ensures FreeListSound(Run(m, cap, ops)) && WithinCapacity(Run(m, cap, ops), cap)
    decreases |ops|
  {
    if ops != [] {
      match ops[0]
      case CreateOp =>
        AllocateIssuesUnused(m, cap);
        RunNeverDoubleAllocates(Allocate(m, cap).0, cap, ops[1..]);
      case DestroyOp(e) =>
        ReleaseRetiresLive(m, cap, e);
        RunNeverDoubleAllocates(Release(m, cap, e), cap, ops[1..]);
    }
  }

  /** The worked example at capacity 8: ids 0..3 are issued, 1 is destroyed and
      reissued, 4..7 are issued, and the next create reports exhaustion. */
  lemma CapacityEightScenario()
    ensures var m0 := ManagerState(0, []);
      var m4 := Run(m0, 8, [CreateOp, CreateOp, CreateOp, CreateOp, DestroyOp(1)]);
      && m4 == ManagerState(4, [1])
      && Allocate(m4, 8) == (ManagerState(4, []), Ok(1))
      && Run(ManagerState(4, []), 8, [CreateOp, CreateOp, CreateOp, CreateOp]) == ManagerState(8, [])
      && Allocate(ManagerState(8, []), 8) == (ManagerState(8, []), Err(CapacityExhausted))
  {
  }

  /** The manager of the header, updated in place. Its capacity is the length
      of the free-list array. */
  class EntityManager {
    var nextEntity: nat
    var freeCount: nat
    const freeList: array<Entity>

    ghost predicate Valid()
      reads this
    {
      freeCount <= freeList.Length && nextEntity <= freeList.Length
    }

    ghost function State(): (s: ManagerState)
      reads this, freeList
      requires Valid()
      ensures WithinCapacity(s, freeList.Length)
    {
      ManagerState(nextEntity, freeList[..freeCount])
    }

    /** Every free id is a valid index for arrays of the manager's capacity. */
    ghost predicate IdsInRange()
      reads this, freeList
    {
      Valid() && FreeIdsBelow(State(), freeList.Length)
    }

    ghost predicate Sound()
      reads this, freeList
    {
      Valid() && FreeListSound(State())
    }

    /** How many creates can still succeed. */
    ghost function Available(): nat
      reads this
      requires Valid()
    {
      freeCount + (freeList.Length - nextEntity)
    }

    constructor (capacity: nat)
      ensures Valid() && fresh(freeList) && freeList.Length == capacity
      ensures nextEntity == 0 && freeCount == 0 && State() == ManagerState(0, [])
    {
      nextEntity := 0;
      freeCount := 0;
      freeList := new Entity[capacity];
    }

    /** mecs_entity_create, with the exhausted case reported instead of
        issuing an id equal to the capacity. */
    method Create() returns (r: Result<Entity>)
      requires Valid()
      modifies this
      ensures Valid()
      ensures old(freeCount) > 0 ==>
        && r == Ok(freeList[old(freeCount) - 1])
        && freeCount == old(freeCount) - 1 && nextEntity == old(nextEntity)
      ensures old(freeCount) == 0 && old(nextEntity) < freeList.Length ==>
        && r == Ok(old(nextEntity))
        && nextEntity == old(nextEntity) + 1 && freeCount == 0
      ensures old(freeCount) == 0 && old(nextEntity) == freeList.Length ==>
        && r == Err(CapacityExhausted)
        && nextEntity == old(nextEntity) && freeCount == 0
      ensures (State(), r) == Allocate(old(State()), freeList.Length)
      ensures old(IdsInRange()) ==> IdsInRange() && (r.Ok? ==> r.value < freeList.Length)
      ensures old(Sound()) ==> Sound()
      ensures old(Sound()) && r.Ok? ==>
        r.value !in Live(old(State())) && Live(State()) == Live(old(State())) + {r.value}
      ensures Available() == if r.Ok? then old(Available()) - 1 else 0
    {
      ghost var s0 := State();
      if freeCount > 0 {
        freeCount := freeCount - 1;
        r := Ok(freeList[freeCount]);
      } else if nextEntity < freeList.Length {
        r := Ok(nextEntity);
        nextEntity := nextEntity + 1;
      } else {
        r := Err(CapacityExhausted);
      }
      assert State() == Allocate(s0, freeList.Length).0;
      if FreeListSound(s0) {
        AllocateIssuesUnused(s0, freeList.Length);
      }
    }

    /** mecs_entity_destroy: push `e` when there is room, else do nothing. */
    method Destroy(e: Entity)
      requires Valid()
      modifies this, freeList
      ensures Valid() && nextEntity == old(nextEntity)
      ensures old(freeCount) < freeList.Length ==>
        && freeCount == old(freeCount) + 1
        && freeList[..] == old(freeList[..])[old(freeCount) := e]
      ensures old(freeCount) == freeList.Length ==>
        freeCount == old(freeCount) && freeList[..] == old(freeList[..])
      ensures State() == Release(old(State()), freeList.Length, e)
      ensures old(IdsInRange()) && e < freeList.Length ==> IdsInRange()
      ensures old(Sound()) && e in Live(old(State())) ==>
        Sound() && Live(State()) == Live(old(State())) - {e}
    {
      ghost var s0 := State();
      if freeCount < freeList.Length {
        freeList[freeCount] := e;
        freeCount := freeCount + 1;
        assert freeList[..freeCount] == s0.free + [e];
      }
      if FreeListSound(s0) && e in Live(s0) {
        ReleaseRetiresLive(s0, freeList.Length, e);
      }
    }
  }
}
