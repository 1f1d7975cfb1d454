/** The Snake world's component arrays as values: one sequence per presence
    flag array and per value array. The world's state-changing rules are
    functions from one snapshot to the next; what they do to each entity is
    stated through `RowAt`, the entity's row. */
module SnakeTables {
  import opened EcsTypes
  import opened EntityManagement
  import opened FollowChain
  import opened SnakeRules

  datatype Tables = Tables(
    collidable: seq<bool>,
    consumer: seq<bool>,
    hasDirection: seq<bool>, direction: seq<Direction>,
    hasDrawable: seq<bool>, drawable: seq<Drawable>,
    hasEdible: seq<bool>, edible: seq<Edible>,
    hasFollower: seq<bool>, follower: seq<Entity>,
    interactable: seq<bool>,
    hasPosition: seq<bool>, position: seq<Position>)

  /** Every array has the capacity MAX_ENTITIES. */
  predicate Sized(t: Tables)
  {
    && |t.collidable| == MAX_ENTITIES && |t.consumer| == MAX_ENTITIES
    && |t.hasDirection| == MAX_ENTITIES && |t.direction| == MAX_ENTITIES
    && |t.hasDrawable| == MAX_ENTITIES && |t.drawable| == MAX_ENTITIES
    && |t.hasEdible| == MAX_ENTITIES && |t.edible| == MAX_ENTITIES
    && |t.hasFollower| == MAX_ENTITIES && |t.follower| == MAX_ENTITIES
    && |t.interactable| == MAX_ENTITIES
    && |t.hasPosition| == MAX_ENTITIES && |t.position| == MAX_ENTITIES
  }

  /** The components entity `e` holds; a value whose flag is down is stale
      and does not show. */
  function RowAt(t: Tables, e: Entity): Row
    requires Sized(t) && e < MAX_ENTITIES
  {
    Row(t.collidable[e], t.consumer[e],
        if t.hasDirection[e] then Some(t.direction[e]) else None,
        if t.hasDrawable[e] then Some(t.drawable[e]) else None,
        if t.hasEdible[e] then Some(t.edible[e]) else None,
        if t.hasFollower[e] then Some(t.follower[e]) else None,
        t.interactable[e],
        if t.hasPosition[e] then Some(t.position[e]) else None)
  }

  /** The follower relation as the follower scans read it. */
  function LinksOf(t: Tables): (L: Links)
    requires Sized(t)
    ensures WellFormed(L) && |L.lead| == MAX_ENTITIES
  {
    Links(t.hasPosition, t.hasFollower, t.follower)
  }

  /** A world of MAX_ENTITIES ids with no component at all. */
  function EmptyTables(): (t: Tables)
    ensures Sized(t) && forall e :: 0 <= e < MAX_ENTITIES ==> RowAt(t, e) == EmptyRow
  {
    var no := seq(MAX_ENTITIES, _ => false);
    Tables(no, no, no, seq(MAX_ENTITIES, _ => Up), no, seq(MAX_ENTITIES, _ => Drawable(' ')),
           no, seq(MAX_ENTITIES, _ => Edible(0, false, false)), no, seq(MAX_ENTITIES, _ => 0),
           no, no, seq(MAX_ENTITIES, _ => Position(0, 0)))
  }

  /** clear_components: all eight flags of `e` go down; no value changes. */
  function Cleared(t: Tables, e: Entity): (r: Tables)
    requires Sized(t) && e < MAX_ENTITIES
    ensures Sized(r) && RowAt(r, e) == EmptyRow
    ensures forall x :: 0 <= x < MAX_ENTITIES && x != e ==> RowAt(r, x) == RowAt(t, x)
  {
    t.(collidable := t.collidable[e := false], consumer := t.consumer[e := false],
       hasDirection := t.hasDirection[e := false], hasDrawable := t.hasDrawable[e := false],
       hasEdible := t.hasEdible[e := false], hasFollower := t.hasFollower[e := false],
       interactable := t.interactable[e := false], hasPosition := t.hasPosition[e := false])
  }

  /** The six MECS_SET_COMPONENT calls of create_snake_head on id `e`. */
  function WithHead(t: Tables, e: Entity, pos: Position, dir: Direction): (r: Tables)
    requires Sized(t) && e < MAX_ENTITIES
    ensures Sized(r) && RowAt(r, e) == AsHead(RowAt(t, e), pos, dir)
    ensures forall x :: 0 <= x < MAX_ENTITIES && x != e ==> RowAt(r, x) == RowAt(t, x)
  {
    t.(interactable := t.interactable[e := true],
       hasDirection := t.hasDirection[e := true], direction := t.direction[e := dir],
       consumer := t.consumer[e := true],
       hasDrawable := t.hasDrawable[e := true], drawable := t.drawable[e := Drawable('O')],
       hasPosition := t.hasPosition[e := true], position := t.position[e := pos],
       collidable := t.collidable[e := true])
  }

  /** The four MECS_SET_COMPONENT calls of create_snake_segment on id `e`. */
  function WithSegment(t: Tables, e: Entity, pos: Position, lead: Entity): (r: Tables)
    requires Sized(t) && e < MAX_ENTITIES
    ensures Sized(r) && RowAt(r, e) == AsSegment(RowAt(t, e), pos, lead)
    ensures forall x :: 0 <= x < MAX_ENTITIES && x != e ==> RowAt(r, x) == RowAt(t, x)
  {
    t.(hasPosition := t.hasPosition[e := true], position := t.position[e := pos],
       hasFollower := t.hasFollower[e := true], follower := t.follower[e := lead],
       hasDrawable := t.hasDrawable[e := true], drawable := t.drawable[e := Drawable('o')],
       collidable := t.collidable[e := true])
  }

  /** The three MECS_SET_COMPONENT calls of init_apple on id `e`. */
  function WithApple(t: Tables, e: Entity): (r: Tables)
    requires Sized(t) && e < MAX_ENTITIES
    ensures Sized(r) && RowAt(r, e) == AsApple(RowAt(t, e))
    ensures forall x :: 0 <= x < MAX_ENTITIES && x != e ==> RowAt(r, x) == RowAt(t, x)
  {
    t.(hasDrawable := t.hasDrawable[e := true], drawable := t.drawable[e := Drawable('@')],
       hasEdible := t.hasEdible[e := true], edible := t.edible[e := Edible(1, true, true)],
       hasPosition := t.hasPosition[e := true], position := t.position[e := Position(0, 0)])
  }

  /** MECS_SET_COMPONENT of a position on id `e`. */
  function PlacedAt(t: Tables, e: Entity, p: Position): (r: Tables)
    requires Sized(t) && e < MAX_ENTITIES
    ensures Sized(r) && RowAt(r, e) == RowAt(t, e).(position := Some(p))
    ensures forall x :: 0 <= x < MAX_ENTITIES && x != e ==> RowAt(r, x) == RowAt(t, x)
  {
    t.(hasPosition := t.hasPosition[e := true], position := t.position[e := p])
  }

  /** The discipline destroy_entity keeps: an id that is not live holds no
      component, so a recycled id starts out empty. */
  ghost predicate Tidy(m: ManagerState, t: Tables)
    requires Sized(t)
  {
    forall e :: 0 <= e < MAX_ENTITIES && e !in Live(m) ==> RowAt(t, e) == EmptyRow
  }

  /** destroy_entity keeps the discipline: the retired id is cleared and
      leaves the live set. */
  lemma TidyAfterDestroy(m: ManagerState, t: Tables, e: Entity)
    requires Sized(t) && e < MAX_ENTITIES && m.next <= MAX_ENTITIES
    requires FreeListSound(m) && e in Live(m) && Tidy(m, t)
    ensures FreeListSound(Release(m, MAX_ENTITIES, e))
    ensures Tidy(Release(m, MAX_ENTITIES, e), Cleared(t, e))
  {
    ReleaseRetiresLive(m, MAX_ENTITIES, e);
  }

  /** A create keeps the discipline: the issued id held no component, and
      whatever the caller then gives that id alone leaves the world tidy. */
  lemma TidyAfterCreate(m: ManagerState, t: Tables, u: Tables)
    requires Sized(t) && Sized(u) && FreeListSound(m) && Tidy(m, t)
    requires Allocate(m, MAX_ENTITIES).1.Ok?
    requires var id := Allocate(m, MAX_ENTITIES).1.value;
      forall x :: 0 <= x < MAX_ENTITIES && x != id ==> RowAt(u, x) == RowAt(t, x)
    ensures var (m', r) := Allocate(m, MAX_ENTITIES);
      && FreeListSound(m') && Tidy(m', u)
      && (r.value < MAX_ENTITIES ==> RowAt(t, r.value) == EmptyRow)
  {
    AllocateIssuesUnused(m, MAX_ENTITIES);
  }

  /** Where init_snake puts entity number `i` of the snake. */
  function InitCell(i: nat): Position
  {
    Position(5 - i, 5)
  }

  /** The creation init_snake performs for its `i`-th entity `e`: the head
      first, then each segment following the entity created before it. */
  function InitStep(t: Tables, snake: seq<Entity>, e: Entity): (r: Tables)
    requires Sized(t) && e < MAX_ENTITIES
    ensures Sized(r)
  {
    if |snake| == 0 then WithHead(t, e, InitCell(0), Right)
    else WithSegment(t, e, InitCell(|snake|), snake[|snake| - 1])
  }

  /** The ids issued since `m0`: one create is spent per id; they are
      distinct, fresh with respect to `m0`, and exactly what became live since
      `m0`; when `m0` had no free id they are the counter's next values in
      order. */
  ghost predicate Issued(m0: ManagerState, m: ManagerState, snake: seq<Entity>)
  {
    && |m.free| + (MAX_ENTITIES - m.next) + |snake| == |m0.free| + (MAX_ENTITIES - m0.next)
    && (|m0.free| == 0 ==>
          && |m.free| == 0 && m.next == m0.next + |snake|
          && forall k :: 0 <= k < |snake| ==> snake[k] == m0.next + k)
    && (forall k :: 0 <= k < |snake| ==> snake[k] < MAX_ENTITIES && snake[k] !in Live(m0))
    && (forall k, j :: 0 <= k < j < |snake| ==> snake[k] != snake[j])
    && Live(m) == Live(m0) + Elements(snake)
  }

  /** The rows of the snake laid so far: a head at (5, 5) facing right and
      each later id a segment at (5 - i, 5) following its predecessor, all
      starting from an empty row; every other entity as it was in `t0`. */
  ghost predicate Drawn(t0: Tables, t: Tables, snake: seq<Entity>)
    requires Sized(t0) && Sized(t)
  {
    && (forall k :: 0 <= k < |snake| ==> snake[k] < MAX_ENTITIES)
    && (0 < |snake| ==> RowAt(t, snake[0]) == AsHead(EmptyRow, InitCell(0), Right))
    && (forall k :: 1 <= k < |snake| ==>
          RowAt(t, snake[k]) == AsSegment(EmptyRow, InitCell(k), snake[k - 1]))
    && (forall x :: 0 <= x < MAX_ENTITIES && x !in snake ==> RowAt(t, x) == RowAt(t0, x))
  }

  /** The snake laid so far, with respect to the manager and to the rows. */
  ghost predicate Laid(m0: ManagerState, t0: Tables, m: ManagerState, t: Tables, snake: seq<Entity>)
    requires Sized(t0) && Sized(t)
  {
    Issued(m0, m, snake) && Drawn(t0, t, snake)
  }

  /** One more create extends the issued ids by the id the manager returns. */
  lemma IssuedStep(m0: ManagerState, m: ManagerState, snake: seq<Entity>)
    requires FreeListSound(m) && FreeIdsBelow(m, MAX_ENTITIES)
    requires WithinCapacity(m, MAX_ENTITIES) && WithinCapacity(m0, MAX_ENTITIES)
    requires Issued(m0, m, snake)
    requires Allocate(m, MAX_ENTITIES).1.Ok?
    ensures var (m', r) := Allocate(m, MAX_ENTITIES);
      && r.value < MAX_ENTITIES && r.value !in snake
      && FreeListSound(m') && Issued(m0, m', snake + [r.value])
  {
    var (m', r) := Allocate(m, MAX_ENTITIES);
    var e := r.value;
    AllocateIssuesUnused(m, MAX_ENTITIES);
    var s' := snake + [e];
    assert e !in Elements(snake);
    assert Elements(s') == Elements(snake) + {e};
  }

  /** Laying one more id, not yet in the snake, extends the drawn rows. */
  lemma DrawnStep(t0: Tables, t: Tables, snake: seq<Entity>, e: Entity)
    requires Sized(t0) && Sized(t) && Drawn(t0, t, snake)
    requires e < MAX_ENTITIES && e !in snake && RowAt(t, e) == EmptyRow
    ensures Drawn(t0, InitStep(t, snake, e), snake + [e])
  {
    var t' := InitStep(t, snake, e);
    var s' := snake + [e];
    if 0 < |snake| {
      assert snake[0] != e;
    }
    forall x | 0 <= x < MAX_ENTITIES && x !in s' ensures RowAt(t', x) == RowAt(t0, x) {
      assert x !in snake;
    }
    forall k | 1 <= k < |s'|
      ensures RowAt(t', s'[k]) == AsSegment(EmptyRow, InitCell(k), s'[k - 1])
    {
      if k < |snake| {
        assert s'[k] == snake[k] != e && s'[k - 1] == snake[k - 1];
      } else {
        assert s'[k] == e && s'[k - 1] == snake[|snake| - 1];
      }
    }
  }

  /** One iteration of init_snake's loop extends the laid snake by the id the
      manager issues, and keeps the world tidy. */
  lemma LaidStep(m0: ManagerState, t0: Tables, m: ManagerState, t: Tables, snake: seq<Entity>)
    requires Sized(t0) && Sized(t) && FreeListSound(m) && FreeIdsBelow(m, MAX_ENTITIES)
    requires WithinCapacity(m, MAX_ENTITIES) && WithinCapacity(m0, MAX_ENTITIES)
    requires Tidy(m, t) && Laid(m0, t0, m, t, snake)
    requires Allocate(m, MAX_ENTITIES).1.Ok?
    ensures var (m', r) := Allocate(m, MAX_ENTITIES);
      && r.value < MAX_ENTITIES
      && var t' := InitStep(t, snake, r.value);
      && FreeListSound(m') && Tidy(m', t')
      && Laid(m0, t0, m', t', snake + [r.value])
  {
    var (m', r) := Allocate(m, MAX_ENTITIES);
    IssuedStep(m0, m, snake);
    AllocateIssuesUnused(m, MAX_ENTITIES);
    TidyAfterCreate(m, t, InitStep(t, snake, r.value));
    DrawnStep(t0, t, snake, r.value);
  }

  /** Laying a snake with ids from the counter keeps ids ordered along the
      chain: the head follows nothing, each segment follows the id issued
      just before it, and every other entity is as it was. */
  lemma LaidKeepsOrder(m0: ManagerState, t0: Tables, m: ManagerState, t: Tables, snake: seq<Entity>)
    requires Sized(t0) && Sized(t) && |m0.free| == 0
    requires LeadsPrecede(LinksOf(t0)) && Laid(m0, t0, m, t, snake)
    ensures LeadsPrecede(LinksOf(t))
  {
    forall e | 0 <= e < MAX_ENTITIES && t.hasPosition[e] && t.hasFollower[e]
      ensures t.follower[e] < e
    {
      if e in snake {
        var k :| 0 <= k < |snake| && snake[k] == e;
        assert RowAt(t, e).follower.Some?;
        assert k != 0;
        assert RowAt(t, e).follower == Some(snake[k - 1]);
      } else {
        assert RowAt(t, e) == RowAt(t0, e);
      }
    }
  }

  /** grow keeps ids ordered along the chain when no id is recycled: the tail
      is live, hence below the counter, and the counter is the new id. */
  lemma GrowKeepsOrder(m: ManagerState, t: Tables, h: seq<nat>, lead: Entity,
                       m': ManagerState, t': Tables)
    requires Sized(t) && Ranked(LinksOf(t), h) && lead < MAX_ENTITIES
    requires Tidy(m, t) && |m.free| == 0 && LeadsPrecede(LinksOf(t)) && lead in Live(m)
    requires (m', Ok(m.next)) == Allocate(m, MAX_ENTITIES) && m.next < MAX_ENTITIES
    requires var tail := ChainEnd(LinksOf(t), h, lead);
      tail < MAX_ENTITIES && t' == WithSegment(t, m.next, t.position[tail], tail)
    ensures LeadsPrecede(LinksOf(t'))
  {
    var L := LinksOf(t);
    var tail := ChainEnd(L, h, lead);
    ChainEndIsLast(L, h, lead);
    if tail != lead {
      assert RowAt(t, tail) != EmptyRow;
    }
    assert tail < m.next;
  }
}
