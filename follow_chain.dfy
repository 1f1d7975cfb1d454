/** The follower relation of the Snake rules, on a snapshot of the arrays it
    reads: an entity `e` follows `l` when it has both a position and a
    follower component and its follower value (the id of its lead) is `l`.

    The recursive cascade and the chain walk over this relation terminate only
    if it has no cycle. Acyclicity is carried by a ghost witness `h` (a
    height): every follower sits strictly lower than its lead, and no height
    exceeds the number of ids. */
module FollowChain {
  import opened EcsTypes

  /** What the follower scans read: the position flags, the follower flags and
      the stored lead ids, all indexed by entity. */
  datatype Links = Links(hasPos: seq<bool>, hasFollower: seq<bool>, lead: seq<Entity>)

  predicate WellFormed(L: Links)
  {
    |L.hasPos| == |L.lead| && |L.hasFollower| == |L.lead|
  }

  /** `e` is met by a position+follower scan and its lead is `l`. */
  predicate Follows(L: Links, e: Entity, l: Entity)
    requires WellFormed(L)
  {
    e < |L.lead| && L.hasPos[e] && L.hasFollower[e] && L.lead[e] == l
  }

  /** `h` witnesses that the relation is acyclic. */
  ghost predicate Ranked(L: Links, h: seq<nat>)
  {
    && WellFormed(L) && |h| == |L.lead|
    && (forall e :: 0 <= e < |h| ==> h[e] <= |h|)
    && (forall e :: 0 <= e < |h| && L.hasPos[e] && L.hasFollower[e] && L.lead[e] < |h| ==>
          h[e] < h[L.lead[e]])
  }

  /** `d` is somewhere below `l` in the chain: following leads upwards from
      `d` reaches `l`. */
  ghost predicate Descends(L: Links, h: seq<nat>, d: Entity, l: Entity)
    requires Ranked(L, h) && d < |h|
    decreases |h| - h[d]
  {
    && L.hasPos[d] && L.hasFollower[d]
    && (L.lead[d] == l || (L.lead[d] < |h| && Descends(L, h, L.lead[d], l)))
  }

  /** The ancestor of `d` that follows `l` directly. */
  ghost function TopChild(L: Links, h: seq<nat>, d: Entity, l: Entity): (c: Entity)
    requires Ranked(L, h) && d < |h| && Descends(L, h, d, l)
    ensures c < |h| && Follows(L, c, l)
    decreases |h| - h[d]
  {
    if L.lead[d] == l then d else TopChild(L, h, L.lead[d], l)
  }

  /** Everything below `l` sits strictly lower than `l`; in particular nothing
      descends from itself. */
  lemma {:induction false} DescendsRanksBelow(L: Links, h: seq<nat>, d: Entity, l: Entity)
    requires Ranked(L, h) && d < |h| && l < |h|
    ensures Descends(L, h, d, l) ==> h[d] < h[l]
    decreases |h| - h[d]
  {
    if Descends(L, h, d, l) && L.lead[d] != l {
      DescendsRanksBelow(L, h, L.lead[d], l);
    }
  }

  lemma {:induction false} DescendsTransitive(L: Links, h: seq<nat>, d: Entity, c: Entity, l: Entity)
    requires Ranked(L, h) && d < |h| && c < |h|
    requires Descends(L, h, d, c) && Descends(L, h, c, l)
    ensures Descends(L, h, d, l)
    decreases |h| - h[d]
  {
    if L.lead[d] != c {
      DescendsTransitive(L, h, L.lead[d], c, l);
    }
  }

  /** The top child of `l` above `d` is `d` itself or one of `d`'s ancestors. */
  lemma {:induction false} TopChildAbove(L: Links, h: seq<nat>, d: Entity, l: Entity)
    requires Ranked(L, h) && d < |h| && Descends(L, h, d, l)
    ensures TopChild(L, h, d, l) == d || Descends(L, h, d, TopChild(L, h, d, l))
    decreases |h| - h[d]
  {
    if L.lead[d] != l {
      TopChildAbove(L, h, L.lead[d], l);
    }
  }

  /** Whatever descends from a direct follower `c` of `l` descends from `l`,
      and `c` is its top child. */
  lemma {:induction false} DescendsThrough(L: Links, h: seq<nat>, d: Entity, c: Entity, l: Entity)
    requires Ranked(L, h) && d < |h| && l < |h|
    requires Descends(L, h, d, c) && Follows(L, c, l)
    ensures Descends(L, h, d, l) && TopChild(L, h, d, l) == c
    decreases |h| - h[d]
  {
    if L.lead[d] == c {
      assert Descends(L, h, c, l);
    } else {
      DescendsRanksBelow(L, h, L.lead[d], c);
      DescendsThrough(L, h, L.lead[d], c, l);
    }
  }

  /** The cascade's result in closed form: every entity below `leader` takes
      the position its own lead had before the cascade; every other entity
      keeps its position. */
  ghost function Cascade<P>(L: Links, h: seq<nat>, pos: seq<P>, leader: Entity): (r: seq<P>)
    requires Ranked(L, h) && |pos| == |h| && leader < |h|
    ensures |r| == |pos|
  {
    seq(|h|, d requires 0 <= d < |h| =>
      if Descends(L, h, d, leader) then pos[L.lead[d]] else pos[d])
  }

  /** The cascade after the scan over `leader`'s direct followers has handled
      the ids below `k`: only the subtrees of those followers have moved. */
  ghost function CascadeUpTo<P>(L: Links, h: seq<nat>, pos: seq<P>, leader: Entity, k: nat): (r: seq<P>)
    requires Ranked(L, h) && |pos| == |h| && leader < |h|
    ensures |r| == |pos|
  {
    seq(|h|, d requires 0 <= d < |h| =>
      if Descends(L, h, d, leader) && TopChild(L, h, d, leader) < k then pos[L.lead[d]] else pos[d])
  }

  lemma CascadeUpToBounds<P>(L: Links, h: seq<nat>, pos: seq<P>, leader: Entity)
    requires Ranked(L, h) && |pos| == |h| && leader < |h|
    ensures CascadeUpTo(L, h, pos, leader, 0) == pos
    ensures CascadeUpTo(L, h, pos, leader, |h|) == Cascade(L, h, pos, leader)
  {
  }

  /** An id that does not follow `leader` changes nothing when the scan passes it. */
  lemma CascadeSkip<P>(L: Links, h: seq<nat>, pos: seq<P>, leader: Entity, e: Entity)
    requires Ranked(L, h) && |pos| == |h| && leader < |h| && e < |h|
    requires !Follows(L, e, leader)
    ensures CascadeUpTo(L, h, pos, leader, e + 1) == CascadeUpTo(L, h, pos, leader, e)
  {
  }

  /** One step of the scan at a direct follower `e` of `leader`: running the
      cascade below `e`, then giving `e` the leader's position, moves exactly
      `e`'s subtree. */
  lemma CascadeStep<P>(L: Links, h: seq<nat>, pos: seq<P>, leader: Entity, e: Entity)
    requires Ranked(L, h) && |pos| == |h| && leader < |h| && e < |h|
    requires Follows(L, e, leader)
    ensures var c := Cascade(L, h, CascadeUpTo(L, h, pos, leader, e), e);
      c[e := c[leader]] == CascadeUpTo(L, h, pos, leader, e + 1)
  {
    var q := CascadeUpTo(L, h, pos, leader, e);
    var c := Cascade(L, h, q, e);
    var r := CascadeUpTo(L, h, pos, leader, e + 1);
    DescendsRanksBelow(L, h, leader, e);
    DescendsRanksBelow(L, h, leader, leader);
    assert Descends(L, h, e, leader);
    forall d | 0 <= d < |h| ensures c[e := c[leader]][d] == r[d] {
      if d == e {
      } else if Descends(L, h, d, e) {
        DescendsThrough(L, h, d, e, leader);
        var p := L.lead[d];
        if p != e {
          DescendsThrough(L, h, p, e, leader);
        }
      } else if Descends(L, h, d, leader) {
        TopChildAbove(L, h, d, leader);
      }
    }
  }

  /** The last entity (by id) that follows `l` among ids below `k`: the entry
      the walk's lead-to-follower map holds once the scan has passed `k`. */
  function LastLinkedTo(L: Links, l: Entity, k: nat): (r: Option<Entity>)
    requires WellFormed(L) && k <= |L.lead|
    ensures r.Some? ==>
      && r.value < k && Follows(L, r.value, l)
      && forall e :: r.value < e < k ==> !Follows(L, e, l)
    ensures r.None? ==> forall e :: 0 <= e < k ==> !Follows(L, e, l)
  {
    if k == 0 then None
    else if Follows(L, k - 1, l) then Some(k - 1)
    else LastLinkedTo(L, l, k - 1)
  }

  /** Where the walk from `l` along the lead-to-follower map stops. */
  ghost function ChainEnd(L: Links, h: seq<nat>, l: Entity): Entity
    requires Ranked(L, h)
    decreases if l < |h| then h[l] + 1 else 0
  {
    if |h| <= l then l
    else match LastLinkedTo(L, l, |h|)
      case None => l
      case Some(e) => ChainEnd(L, h, e)
  }

  /** The walk from an in-range lead ends at `lead` itself or at an entity
      below it, and nothing follows the end; if nothing follows `lead`, the
      walk returns `lead`. */
  lemma {:induction false} ChainEndIsLast(L: Links, h: seq<nat>, lead: Entity)
    requires Ranked(L, h) && lead < |h|
    ensures var t := ChainEnd(L, h, lead);
      && t < |h|
      && (t == lead || Descends(L, h, t, lead))
      && (forall e :: 0 <= e < |h| ==> !Follows(L, e, t))
      && ((forall e :: 0 <= e < |h| ==> !Follows(L, e, lead)) ==> t == lead)
    decreases h[lead]
  {
    match LastLinkedTo(L, lead, |h|)
    case None =>
    case Some(e) =>
      ChainEndIsLast(L, h, e);
      var t := ChainEnd(L, h, e);
      assert Descends(L, h, e, lead);
      if t != e {
        DescendsTransitive(L, h, t, e, lead);
      }
  }

  /** In the game every segment is created after its lead, so its id is
      larger; that ordering is itself an acyclicity witness. */
  predicate LeadsPrecede(L: Links)
    requires WellFormed(L)
  {
    forall e :: 0 <= e < |L.lead| && L.hasPos[e] && L.hasFollower[e] ==> L.lead[e] < e
  }

  function IdHeights(n: nat): (h: seq<nat>)
    ensures |h| == n && forall e :: 0 <= e < n ==> h[e] == n - e
  {
    seq(n, e requires 0 <= e < n => n - e)
  }

  lemma LeadsPrecedeRanked(L: Links)
    requires WellFormed(L) && LeadsPrecede(L)
    ensures Ranked(L, IdHeights(|L.lead|))
  {
  }

  /** Three entities 0 <- 1 <- 2 (1 follows 0, 2 follows 1): the cascade from
      0 leaves 1 at 0's old position and 2 at 1's old position. */
  lemma ThreeLinkScenario<P>(p0: P, p1: P, p2: P)
    ensures Cascade(Links([true, true, true], [false, true, true], [0, 0, 1]),
                    [3, 2, 1], [p0, p1, p2], 0) == [p0, p0, p1]
  {
    var L := Links([true, true, true], [false, true, true], [0, 0, 1]);
    var h: seq<nat> := [3, 2, 1];
    assert Ranked(L, h);
    assert !Descends(L, h, 0, 0);
    assert Descends(L, h, 1, 0);
    assert Descends(L, h, 2, 0);
  }
}
