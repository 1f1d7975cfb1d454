/** The query engine of MECS_FOREACH_1/2/3: a linear scan over the whole
    capacity, in ascending id order, keeping the ids whose required presence
    flags are all set. */
module Query {
  import opened EcsTypes

  /** The ids of `sel` whose flag is set, in the order a scan from 0 meets them. */
  function Matches(sel: seq<bool>): seq<Entity>
    decreases |sel|
  {
    if |sel| == 0 then []
    else Matches(sel[..|sel| - 1]) + (if sel[|sel| - 1] then [|sel| - 1] else [])
  }

  predicate StrictlyAscending(ids: seq<Entity>)
  {
    forall i, j :: 0 <= i < j < |ids| ==> ids[i] < ids[j]
  }

  /** Pointwise conjunction of two presence arrays. */
  function Both(a: seq<bool>, b: seq<bool>): (r: seq<bool>)
    requires |a| == |b|
    ensures |r| == |a| && forall e: Entity :: 0 <= e < |a| ==> r[e] == (a[e] && b[e])
  {
    seq(|a|, e requires 0 <= e < |a| => a[e] && b[e])
  }

  /** Pointwise conjunction of three presence arrays. */
  function All3(a: seq<bool>, b: seq<bool>, c: seq<bool>): (r: seq<bool>)
    requires |a| == |b| == |c|
    ensures |r| == |a| && forall e: Entity :: 0 <= e < |a| ==> r[e] == (a[e] && b[e] && c[e])
  {
    seq(|a|, e requires 0 <= e < |a| => a[e] && b[e] && c[e])
  }

  /** The scan visits an id exactly when it is in range and selected. */
  lemma {:induction false} MatchesExactly(sel: seq<bool>, e: Entity)
    ensures e in Matches(sel) <==> e < |sel| && sel[e]
    decreases |sel|
  {
    if |sel| > 0 {
      var init := sel[..|sel| - 1];
      MatchesExactly(init, e);
      if e < |sel| - 1 {
        assert init[e] == sel[e];
      }
    }
  }

  /** Every id the scan yields is below the capacity. */
  lemma {:induction false} MatchesBelow(sel: seq<bool>)
    ensures forall i :: 0 <= i < |Matches(sel)| ==> Matches(sel)[i] < |sel|
    decreases |sel|
  {
    if |sel| > 0 {
      MatchesBelow(sel[..|sel| - 1]);
    }
  }

  /** The scan yields ids in strictly increasing order. */
  lemma {:induction false} MatchesAscending(sel: seq<bool>)
    ensures StrictlyAscending(Matches(sel))
    decreases |sel|
  {
    if |sel| > 0 {
      var init := sel[..|sel| - 1];
      MatchesAscending(init);
      MatchesBelow(init);
    }
  }

  /** The loop every FOREACH macro expands to, collecting the visited ids. */
  method Scan(sel: seq<bool>) returns (ids: seq<Entity>)
    ensures ids == Matches(sel)
  {
    ids := [];
    var e := 0;
    while e < |sel|
      invariant e <= |sel|
      invariant ids == Matches(sel[..e])
    {
      assert sel[..e + 1][..e] == sel[..e];
      if sel[e] {
        ids := ids + [e];
      }
      e := e + 1;
    }
    assert sel[..|sel|] == sel;
  }

  /** MECS_FOREACH_1. */
  method Query1(f1: array<bool>) returns (ids: seq<Entity>)
    ensures forall e: Entity :: e in ids <==> e < f1.Length && f1[e]
    ensures StrictlyAscending(ids)
  {
    ids := Scan(f1[..]);
    MatchesAscending(f1[..]);
    forall e: Entity ensures e in ids <==> e < f1.Length && f1[e] {
      MatchesExactly(f1[..], e);
    }
  }

  /** MECS_FOREACH_2: both flags must be set. */
  method Query2(f1: array<bool>, f2: array<bool>) returns (ids: seq<Entity>)
    requires f1.Length == f2.Length
    ensures forall e: Entity :: e in ids <==> e < f1.Length && f1[e] && f2[e]
    ensures StrictlyAscending(ids)
  {
    var sel := Both(f1[..], f2[..]);
    ids := Scan(sel);
    MatchesAscending(sel);
    forall e: Entity ensures e in ids <==> e < f1.Length && f1[e] && f2[e] {
      MatchesExactly(sel, e);
    }
  }

  /** MECS_FOREACH_3: all three flags must be set. */
  method Query3(f1: array<bool>, f2: array<bool>, f3: array<bool>) returns (ids: seq<Entity>)
    requires f1.Length == f2.Length == f3.Length
    ensures forall e: Entity :: e in ids <==> e < f1.Length && f1[e] && f2[e] && f3[e]
    ensures StrictlyAscending(ids)
  {
    var sel := All3(f1[..], f2[..], f3[..]);
    ids := Scan(sel);
    MatchesAscending(sel);
    forall e: Entity ensures e in ids <==> e < f1.Length && f1[e] && f2[e] && f3[e] {
      MatchesExactly(sel, e);
    }
  }

  /** Component A on {0,2,4} and B on {2,4,6}: the two-component query
      visits exactly [2, 4]. */
  lemma TwoComponentScenario()
    ensures Matches(Both([true, false, true, false, true, false, false],
                         [false, false, true, false, true, false, true])) == [2, 4]
  {
    var sel := Both([true, false, true, false, true, false, false],
                    [false, false, true, false, true, false, true]);
    assert sel == [false, false, true, false, true, false, false];
    assert Matches(sel[..1]) == [] by { assert sel[..1][..0] == []; }
    assert Matches(sel[..2]) == [] by { assert sel[..2][..1] == sel[..1]; }
    assert Matches(sel[..3]) == [2] by { assert sel[..3][..2] == sel[..2]; }
    assert Matches(sel[..4]) == [2] by { assert sel[..4][..3] == sel[..3]; }
    assert Matches(sel[..5]) == [2, 4] by { assert sel[..5][..4] == sel[..4]; }
    assert Matches(sel[..6]) == [2, 4] by { assert sel[..6][..5] == sel[..5]; }
    assert sel[..7] == sel;
    assert sel[..7][..6] == sel[..6];
  }
}
