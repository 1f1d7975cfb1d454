/** The per-type component store that MECS_DEFINE_COMPONENT declares: a value
    array and a parallel presence-flag array, both indexed directly by the
    entity id. Every operation checks the id against the capacity and reports
    EntityOutOfRange instead of the header's out-of-bounds access. */
module ComponentStore {
  import opened EcsTypes

  class Store<T(0)> {
    const values: array<T>
    const present: array<bool>

    ghost predicate Valid()
    {
      values.Length == present.Length && (values as object) != (present as object)
    }

    /** A store with every presence flag false (the zero-filled world). */
    constructor (capacity: nat)
      ensures Valid() && fresh(values) && fresh(present)
      ensures present.Length == capacity
      ensures forall e :: 0 <= e < capacity ==> !present[e]
    {
      values := new T[capacity];
      present := new bool[capacity](_ => false);
    }

    /** MECS_SET_COMPONENT: overwrite the value and raise the flag. */
    method Set(e: Entity, v: T) returns (r: Outcome)
      requires Valid()
      modifies values, present
      ensures r == if e < present.Length then Pass else Fail(EntityOutOfRange)
      ensures e < present.Length ==>
        && values[..] == old(values[..])[e := v]
        && present[..] == old(present[..])[e := true]
      ensures present.Length <= e ==>
        values[..] == old(values[..]) && present[..] == old(present[..])
    {
      if e < present.Length {
        values[e] := v;
        present[e] := true;
        r := Pass;
      } else {
        r := Fail(EntityOutOfRange);
      }
    }

    /** MECS_HAS_COMPONENT. */
    method Has(e: Entity) returns (r: Result<bool>)
      requires Valid()
      ensures r == if e < present.Length then Ok(present[e]) else Err(EntityOutOfRange)
    {
      if e < present.Length {
        r := Ok(present[e]);
      } else {
        r := Err(EntityOutOfRange);
      }
    }

    /** MECS_CLEAR_COMPONENT: lower the flag only; the stale value stays. */
    method Clear(e: Entity) returns (r: Outcome)
      requires Valid()
      modifies present
      ensures r == if e < present.Length then Pass else Fail(EntityOutOfRange)
      ensures e < present.Length ==> present[..] == old(present[..])[e := false]
      ensures present.Length <= e ==> present[..] == old(present[..])
    {
      if e < present.Length {
        present[e] := false;
        r := Pass;
      } else {
        r := Fail(EntityOutOfRange);
      }
    }

    /** Checked read of `values[e]`: a value whose flag is down cannot be read. */
    method Get(e: Entity) returns (r: Result<T>)
      requires Valid()
      ensures e < present.Length && present[e] ==> r == Ok(values[e])
      ensures e < present.Length && !present[e] ==> r == Err(ComponentAbsent)
      ensures present.Length <= e ==> r == Err(EntityOutOfRange)
    {
      if e >= present.Length {
        r := Err(EntityOutOfRange);
      } else if !present[e] {
        r := Err(ComponentAbsent);
      } else {
        r := Ok(values[e]);
      }
    }
  }

  /** set then has: the flag reads back true and the value reads back. */
  method SetThenRead<T(0)>(s: Store<T>, e: Entity, v: T, w: T)
    requires s.Valid() && e < s.present.Length
    modifies s.values, s.present
    ensures s.present[e] && s.values[e] == w
  {
    var r := s.Set(e, v);
    var h := s.Has(e);
    assert h == Ok(true);
    r := s.Set(e, w);
    var g := s.Get(e);
    assert g == Ok(w);
  }

  /** Clearing twice leaves the same state as clearing once, and has() is false. */
  method ClearTwice<T(0)>(s: Store<T>, e: Entity)
    requires s.Valid() && e < s.present.Length
    modifies s.present
    ensures !s.present[e]
    ensures s.present[..] == old(s.present[..])[e := false]
    ensures s.values[..] == old(s.values[..])
  {
    var r := s.Clear(e);
    ghost var once := s.present[..];
    r := s.Clear(e);
    assert s.present[..] == once;
    var h := s.Has(e);
    assert h == Ok(false);
  }
}
