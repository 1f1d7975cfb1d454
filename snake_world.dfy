/** The Snake world of mecs_snake.c: one entity manager and one component
    store per component type, plus the score. Its methods are the game rules
    that update the world's arrays in place. */
module Snake {
  import opened EcsTypes
  import opened EntityManagement
  import opened ComponentStore
  import opened FollowChain
  import opened SnakeRules
  import opened SnakeTables

  /** The sentinel the chain walk's map is filled with (all bits set). */
  const INVALID_ENTITY: Entity := 0xFFFF_FFFF

  /** A map entry: INVALID_ENTITY for no entry. */
  function Slot(o: Option<Entity>): Entity
  {
    match o
    case None => INVALID_ENTITY
    case Some(e) => e
  }

  class SnakeWorld {
    const em: EntityManager
    const collidable: Store<()>
    const consumer: Store<()>
    const direction: Store<Direction>
    const drawable: Store<Drawable>
    const edible: Store<Edible>
    const follower: Store<Entity>
    const interactable: Store<()>
    const position: Store<Position>
    var score: int

    /** Every array has the capacity MAX_ENTITIES and no two arrays (nor the
        manager and an array) are the same object. The inequalities are listed
        one by one so that each frame argument finds its fact directly. */
    ghost predicate Shape()
    {
      && em.freeList.Length == MAX_ENTITIES
      && collidable.Valid() && collidable.present.Length == MAX_ENTITIES
      && consumer.Valid() && consumer.present.Length == MAX_ENTITIES
      && direction.Valid() && direction.present.Length == MAX_ENTITIES
      && drawable.Valid() && drawable.present.Length == MAX_ENTITIES
      && edible.Valid() && edible.present.Length == MAX_ENTITIES
      && follower.Valid() && follower.present.Length == MAX_ENTITIES
      && interactable.Valid() && interactable.present.Length == MAX_ENTITIES
      && position.Valid() && position.present.Length == MAX_ENTITIES
      && (collidable.present as object) != consumer.present && (collidable.present as object) != direction.present
      && (collidable.present as object) != drawable.present && (collidable.present as object) != edible.present
      && (collidable.present as object) != follower.present && (collidable.present as object) != interactable.present
      && (collidable.present as object) != position.present && (collidable.present as object) != direction.values
      && (collidable.present as object) != drawable.values && (collidable.present as object) != edible.values
      && (collidable.present as object) != follower.values && (collidable.present as object) != position.values
      && (collidable.present as object) != em.freeList && (consumer.present as object) != direction.present
      && (consumer.present as object) != drawable.present && (consumer.present as object) != edible.present
      && (consumer.present as object) != follower.present && (consumer.present as object) != interactable.present
      && (consumer.present as object) != position.present && (consumer.present as object) != direction.values
      && (consumer.present as object) != drawable.values && (consumer.present as object) != edible.values
      && (consumer.present as object) != follower.values && (consumer.present as object) != position.values
      && (consumer.present as object) != em.freeList && (direction.present as object) != drawable.present
      && (direction.present as object) != edible.present && (direction.present as object) != follower.present
      && (direction.present as object) != interactable.present && (direction.present as object) != position.present
      && (direction.present as object) != direction.values && (direction.present as object) != drawable.values
      && (direction.present as object) != edible.values && (direction.present as object) != follower.values
      && (direction.present as object) != position.values && (direction.present as object) != em.freeList
      && (drawable.present as object) != edible.present && (drawable.present as object) != follower.present
      && (drawable.present as object) != interactable.present && (drawable.present as object) != position.present
      && (drawable.present as object) != direction.values && (drawable.present as object) != drawable.values
      && (drawable.present as object) != edible.values && (drawable.present as object) != follower.values
      && (drawable.present as object) != position.values && (drawable.present as object) != em.freeList
      && (edible.present as object) != follower.present && (edible.present as object) != interactable.present
      && (edible.present as object) != position.present && (edible.present as object) != direction.values
      && (edible.present as object) != drawable.values && (edible.present as object) != edible.values
      && (edible.present as object) != follower.values && (edible.present as object) != position.values
      && (edible.present as object) != em.freeList && (follower.present as object) != interactable.present
      && (follower.present as object) != position.present && (follower.present as object) != direction.values
      && (follower.present as object) != drawable.values && (follower.present as object) != edible.values
      && (follower.present as object) != follower.values && (follower.present as object) != position.values
      && (follower.present as object) != em.freeList && (interactable.present as object) != position.present
      && (interactable.present as object) != direction.values && (interactable.present as object) != drawable.values
      && (interactable.present as object) != edible.values && (interactable.present as object) != follower.values
      && (interactable.present as object) != position.values && (interactable.present as object) != em.freeList
      && (position.present as object) != direction.values && (position.present as object) != drawable.values
      && (position.present as object) != edible.values && (position.present as object) != follower.values
      && (position.present as object) != position.values && (position.present as object) != em.freeList
      && (direction.values as object) != drawable.values && (direction.values as object) != edible.values
      && (direction.values as object) != follower.values && (direction.values as object) != position.values
      && (direction.values as object) != em.freeList && (drawable.values as object) != edible.values
      && (drawable.values as object) != follower.values && (drawable.values as object) != position.values
      && (drawable.values as object) != em.freeList && (edible.values as object) != follower.values
      && (edible.values as object) != position.values && (edible.values as object) != em.freeList
      && (follower.values as object) != position.values && (follower.values as object) != em.freeList
      && (position.values as object) != em.freeList && (collidable.values as object) != consumer.values
      && (collidable.values as object) != interactable.values && (consumer.values as object) != interactable.values
      && (em as object) != collidable.present && (em as object) != consumer.present
      && (em as object) != direction.present && (em as object) != drawable.present
      && (em as object) != edible.present && (em as object) != follower.present
      && (em as object) != interactable.present && (em as object) != position.present
      && (em as object) != direction.values && (em as object) != drawable.values
      && (em as object) != edible.values && (em as object) != follower.values
      && (em as object) != position.values
    }

    /** The shape, and every free id indexes the component arrays. */
    ghost predicate Valid()
      reads em, em.freeList
    {
      Shape() && em.IdsInRange()
    }

    /** The world's arrays as a snapshot. */
    ghost function Tables(): (t: Tables)
      reads collidable.present, consumer.present, direction.present, direction.values,
            drawable.present, drawable.values, edible.present, edible.values,
            follower.present, follower.values, interactable.present,
            position.present, position.values
      requires Shape()
      ensures Sized(t)
    {
      SnakeTables.Tables(collidable.present[..], consumer.present[..],
                         direction.present[..], direction.values[..],
                         drawable.present[..], drawable.values[..],
                         edible.present[..], edible.values[..],
                         follower.present[..], follower.values[..],
                         interactable.present[..],
                         position.present[..], position.values[..])
    }

    /** Valid, the manager's free list is sound and the world is tidy. */
    ghost predicate Invariant()
      reads em, em.freeList, collidable.present, consumer.present, direction.present,
            direction.values, drawable.present, drawable.values, edible.present,
            edible.values, follower.present, follower.values, interactable.present,
            position.present, position.values
    {
      Valid() && em.Sound() && Tidy(em.State(), Tables())
    }

    /** new_game: a zero-filled world. */
    constructor ()
      ensures Valid() && em.Sound() && score == 0
      ensures em.nextEntity == 0 && em.freeCount == 0
      ensures Invariant() && forall e :: 0 <= e < MAX_ENTITIES ==> RowAt(Tables(), e) == EmptyRow
    {
      em := new EntityManager(MAX_ENTITIES);
      collidable := new Store<()>(MAX_ENTITIES);
      consumer := new Store<()>(MAX_ENTITIES);
      direction := new Store<Direction>(MAX_ENTITIES);
      drawable := new Store<Drawable>(MAX_ENTITIES);
      edible := new Store<Edible>(MAX_ENTITIES);
      follower := new Store<Entity>(MAX_ENTITIES);
      interactable := new Store<()>(MAX_ENTITIES);
      position := new Store<Position>(MAX_ENTITIES);
      score := 0;
    }

    /** The arrays the follower relation is read from. */
    ghost function Links(): (L: Links)
      reads position.present, follower.present, follower.values
      requires Shape()
      ensures WellFormed(L) && |L.lead| == MAX_ENTITIES
    {
      FollowChain.Links(position.present[..], follower.present[..], follower.values[..])
    }

    /** clear_components: lower all eight presence flags of `e`. */
    method ClearComponents(e: Entity)
      requires Valid() && e < MAX_ENTITIES
      modifies collidable.present, consumer.present, direction.present, drawable.present,
               edible.present, follower.present, interactable.present, position.present
      ensures Valid() && Tables() == Cleared(old(Tables()), e)
    {
      collidable.present[e] := false;
      consumer.present[e] := false;
      direction.present[e] := false;
      drawable.present[e] := false;
      edible.present[e] := false;
      follower.present[e] := false;
      interactable.present[e] := false;
      position.present[e] := false;
      assert collidable.present[..] == old(collidable.present[..])[e := false];
      assert consumer.present[..] == old(consumer.present[..])[e := false];
      assert direction.present[..] == old(direction.present[..])[e := false];
      assert drawable.present[..] == old(drawable.present[..])[e := false];
      assert edible.present[..] == old(edible.present[..])[e := false];
      assert follower.present[..] == old(follower.present[..])[e := false];
      assert interactable.present[..] == old(interactable.present[..])[e := false];
      assert position.present[..] == old(position.present[..])[e := false];
    }

    /** destroy_entity: clear every component of `e`, then recycle its id. */
    method DestroyEntity(e: Entity)
      requires Valid() && e < MAX_ENTITIES
      modifies collidable.present, consumer.present, direction.present, drawable.present,
               edible.present, follower.present, interactable.present, position.present,
               em, em.freeList
      ensures Valid() && Tables() == Cleared(old(Tables()), e)
      ensures em.State() == Release(old(em.State()), MAX_ENTITIES, e)
      ensures old(em.Sound()) && e in Live(old(em.State())) ==>
        em.Sound() && Live(em.State()) == Live(old(em.State())) - {e}
      ensures old(Invariant()) && e in Live(old(em.State())) ==> Invariant()
    {
      ghost var m0, t0 := em.State(), Tables();
      ClearComponents(e);
      em.Destroy(e);
      if em.Valid() && FreeListSound(m0) && e in Live(m0) && Tidy(m0, t0) {
        TidyAfterDestroy(m0, t0, e);
      }
    }

    /** The six MECS_SET_COMPONENT expansions of create_snake_head. */
    method AddHead(e: Entity, pos: Position, dir: Direction)
      requires Valid() && e < MAX_ENTITIES
      modifies interactable.present, direction.present, direction.values, consumer.present,
               drawable.present, drawable.values, position.present, position.values,
               collidable.present
      ensures Tables() == WithHead(old(Tables()), e, pos, dir)
      ensures unchanged(em)
      ensures unchanged(em.freeList)
    {
      interactable.present[e] := true;
      direction.values[e] := dir;
      direction.present[e] := true;
      consumer.present[e] := true;
      drawable.values[e] := Drawable('O');
      drawable.present[e] := true;
      position.values[e] := pos;
      position.present[e] := true;
      collidable.present[e] := true;
      assert interactable.present[..] == old(interactable.present[..])[e := true];
      assert direction.values[..] == old(direction.values[..])[e := dir];
      assert direction.present[..] == old(direction.present[..])[e := true];
      assert consumer.present[..] == old(consumer.present[..])[e := true];
      assert drawable.values[..] == old(drawable.values[..])[e := Drawable('O')];
      assert drawable.present[..] == old(drawable.present[..])[e := true];
      assert position.values[..] == old(position.values[..])[e := pos];
      assert position.present[..] == old(position.present[..])[e := true];
      assert collidable.present[..] == old(collidable.present[..])[e := true];
    }

    /** create_snake_head: a new entity with interactable, direction, consumer,
        drawable 'O', position and collidable components. Past the capacity
        nothing is created and the error is returned. */
    method CreateSnakeHead(pos: Position, dir: Direction) returns (r: Result<Entity>)
      requires Valid()
      modifies em, interactable.present, direction.present, direction.values, consumer.present,
               drawable.present, drawable.values, position.present, position.values,
               collidable.present
      ensures Valid() && (em.State(), r) == Allocate(old(em.State()), MAX_ENTITIES)
      ensures r.Ok? ==> r.value < MAX_ENTITIES && Tables() == WithHead(old(Tables()), r.value, pos, dir)
      ensures r.Err? ==> Tables() == old(Tables())
      ensures old(Invariant()) ==> Invariant()
      ensures old(Invariant()) && r.Ok? ==> RowAt(old(Tables()), r.value) == EmptyRow
    {
      ghost var m0, t0 := em.State(), Tables();
      r := em.Create();
      if r.Ok? {
        AddHead(r.value, pos, dir);
        if FreeListSound(m0) && Tidy(m0, t0) {
          TidyAfterCreate(m0, t0, Tables());
        }
      }
    }

    /** The four MECS_SET_COMPONENT expansions of create_snake_segment. */
    method AddSegment(e: Entity, pos: Position, follows: Entity)
      requires Valid() && e < MAX_ENTITIES
      modifies position.present, position.values, follower.present, follower.values,
               drawable.present, drawable.values, collidable.present
      ensures Tables() == WithSegment(old(Tables()), e, pos, follows)
      ensures unchanged(em)
      ensures unchanged(em.freeList)
    {
      position.values[e] := pos;
      position.present[e] := true;
      follower.values[e] := follows;
      follower.present[e] := true;
      drawable.values[e] := Drawable('o');
      drawable.present[e] := true;
      collidable.present[e] := true;
      assert position.values[..] == old(position.values[..])[e := pos];
      assert position.present[..] == old(position.present[..])[e := true];
      assert follower.values[..] == old(follower.values[..])[e := follows];
      assert follower.present[..] == old(follower.present[..])[e := true];
      assert drawable.values[..] == old(drawable.values[..])[e := Drawable('o')];
      assert drawable.present[..] == old(drawable.present[..])[e := true];
      assert collidable.present[..] == old(collidable.present[..])[e := true];
    }

    /** create_snake_segment: a new entity at `pos` that follows `follows`, drawn
        as 'o' and collidable. */
    method CreateSnakeSegment(pos: Position, follows: Entity) returns (r: Result<Entity>)
      requires Valid()
      modifies em, position.present, position.values, follower.present, follower.values,
               drawable.present, drawable.values, collidable.present
      ensures Valid() && (em.State(), r) == Allocate(old(em.State()), MAX_ENTITIES)
      ensures r.Ok? ==> r.value < MAX_ENTITIES && Tables() == WithSegment(old(Tables()), r.value, pos, follows)
      ensures r.Err? ==> Tables() == old(Tables())
      ensures old(Invariant()) ==> Invariant()
      ensures old(Invariant()) && r.Ok? ==> RowAt(old(Tables()), r.value) == EmptyRow
    {
      ghost var m0, t0 := em.State(), Tables();
      r := em.Create();
      if r.Ok? {
        AddSegment(r.value, pos, follows);
        if FreeListSound(m0) && Tidy(m0, t0) {
          TidyAfterCreate(m0, t0, Tables());
        }
      }
    }

    /** The three MECS_SET_COMPONENT expansions of init_apple. */
    method AddApple(e: Entity)
      requires Valid() && e < MAX_ENTITIES
      modifies drawable.present, drawable.values, edible.present, edible.values,
               position.present, position.values
      ensures Tables() == WithApple(old(Tables()), e)
      ensures unchanged(em)
      ensures unchanged(em.freeList)
    {
      drawable.values[e] := Drawable('@');
      drawable.present[e] := true;
      edible.values[e] := Edible(1, true, true);
      edible.present[e] := true;
      position.values[e] := Position(0, 0);
      position.present[e] := true;
    }

    /** init_apple: a new entity drawn as '@', edible for one point (growing the
        eater and then moving elsewhere), at (0, 0). */
    method InitApple() returns (r: Result<Entity>)
      requires Valid()
      modifies em, drawable.present, drawable.values, edible.present, edible.values,
               position.present, position.values
      ensures Valid() && (em.State(), r) == Allocate(old(em.State()), MAX_ENTITIES)
      ensures r.Ok? ==> r.value < MAX_ENTITIES && Tables() == WithApple(old(Tables()), r.value)
      ensures r.Err? ==> Tables() == old(Tables())
      ensures old(Invariant()) ==> Invariant()
      ensures old(Invariant()) && r.Ok? ==> RowAt(old(Tables()), r.value) == EmptyRow
    {
      ghost var m0, t0 := em.State(), Tables();
      r := em.Create();
      if r.Ok? {
        AddApple(r.value);
        if FreeListSound(m0) && Tidy(m0, t0) {
          TidyAfterCreate(m0, t0, Tables());
        }
      }
    }

    /** One iteration of init_snake's loop: the head when nothing has been
        created yet, otherwise a segment following the last id created. */
    method LayNext(ghost m0: ManagerState, ghost t0: Tables, snake: seq<Entity>) returns (e: Entity)
      requires Invariant() && 0 < em.Available() && Sized(t0) && WithinCapacity(m0, MAX_ENTITIES)
      requires Laid(m0, t0, em.State(), Tables(), snake)
      modifies em, collidable.present, consumer.present, direction.present, direction.values,
               drawable.present, drawable.values, follower.present, follower.values,
               interactable.present, position.present, position.values
      ensures Invariant() && (em.State(), Ok(e)) == Allocate(old(em.State()), MAX_ENTITIES)
      ensures e < MAX_ENTITIES && Tables() == InitStep(old(Tables()), snake, e)
      ensures Laid(m0, t0, em.State(), Tables(), snake + [e])
    {
      LaidStep(m0, t0, em.State(), Tables(), snake);
      var r;
      if |snake| == 0 {
        r := CreateSnakeHead(InitCell(0), Right);
      } else {
        r := CreateSnakeSegment(InitCell(|snake|), snake[|snake| - 1]);
      }
      e := r.value;
    }

    /** init_snake: a head at (5, 5) facing right, then segments i = 1 ..
        length-1 at (5 - i, 5), each following the entity created before it.
        The ids created are returned in order. */
    method InitSnake(length: nat) returns (snake: seq<Entity>)
      requires Invariant() && length <= em.Available()
      modifies em, collidable.present, consumer.present, direction.present, direction.values,
               drawable.present, drawable.values, follower.present, follower.values,
               interactable.present, position.present, position.values
      ensures Invariant() && |snake| == length
      ensures Laid(old(em.State()), old(Tables()), em.State(), Tables(), snake)
      ensures old(em.freeCount) == 0 && old(LeadsPrecede(Links())) ==> LeadsPrecede(Links())
    {
      ghost var m0, t0 := em.State(), Tables();
      assert Links() == LinksOf(t0);
      snake := [];
      var i := 0;
      while i < length
        invariant i <= length && |snake| == i
        invariant Invariant() && Laid(m0, t0, em.State(), Tables(), snake)
      {
        var e := LayNext(m0, t0, snake);
        snake := snake + [e];
        i := i + 1;
      }
      if |m0.free| == 0 && LeadsPrecede(LinksOf(t0)) {
        LaidKeepsOrder(m0, t0, em.State(), Tables(), snake);
        assert Links() == LinksOf(Tables());
      }
    }

    /** last_follower: fill a lead-to-follower map from a scan of the
        position+follower entities (a later id overwrites an earlier one), then
        walk it from `lead` until an id with no entry or an id out of range. */
    method LastFollower(lead: Entity, ghost h: seq<nat>) returns (tail: Entity)
      requires Valid() && Ranked(Links(), h)
      ensures tail == ChainEnd(Links(), h, lead)
      ensures lead < MAX_ENTITIES ==>
        && tail < MAX_ENTITIES
        && (tail == lead || Descends(Links(), h, tail, lead))
        && forall e :: 0 <= e < MAX_ENTITIES ==> !Follows(Links(), e, tail)
      ensures (forall e :: 0 <= e < MAX_ENTITIES ==> !Follows(Links(), e, lead)) ==> tail == lead
    {
      ghost var L := Links();
      var followerOf := new Entity[MAX_ENTITIES](_ => INVALID_ENTITY);
      var e := 0;
      while e < MAX_ENTITIES
        invariant e <= MAX_ENTITIES
        invariant forall l :: 0 <= l < MAX_ENTITIES ==> followerOf[l] == Slot(LastLinkedTo(L, l, e))
      {
        if position.present[e] && follower.present[e] {
          var l := follower.values[e];
          if l < MAX_ENTITIES {
            followerOf[l] := e;
          }
        }
        e := e + 1;
      }
      var current: Entity := lead;
      while current < MAX_ENTITIES && followerOf[current] != INVALID_ENTITY
        invariant ChainEnd(L, h, current) == ChainEnd(L, h, lead)
        decreases if current < MAX_ENTITIES then h[current] + 1 else 0
      {
        current := followerOf[current];
      }
      tail := current;
      if lead < MAX_ENTITIES {
        ChainEndIsLast(L, h, lead);
      }
    }

    /** grow: a new segment at the chain's tail position, following the tail. */
    method Grow(lead: Entity, ghost h: seq<nat>) returns (r: Result<Entity>)
      requires Valid() && Ranked(Links(), h) && lead < MAX_ENTITIES
      modifies em, position.present, position.values, follower.present, follower.values,
               drawable.present, drawable.values, collidable.present
      ensures Valid() && (em.State(), r) == Allocate(old(em.State()), MAX_ENTITIES)
      ensures var tail := ChainEnd(old(Links()), h, lead);
        && tail < MAX_ENTITIES
        && (r.Ok? ==>
              r.value < MAX_ENTITIES &&
              Tables() == WithSegment(old(Tables()), r.value, old(position.values[tail]), tail))
        && (r.Err? ==> Tables() == old(Tables()))
      ensures old(Invariant()) ==> Invariant()
      ensures old(Invariant()) && old(LeadsPrecede(Links())) && old(em.freeCount) == 0 &&
              lead in Live(old(em.State()))
              ==> LeadsPrecede(Links())
    {
      ghost var m0, t0 := em.State(), Tables();
      var tail := LastFollower(lead, h);
      r := CreateSnakeSegment(position.values[tail], tail);
      if r.Ok? && Tidy(m0, t0) && |m0.free| == 0 && LeadsPrecede(LinksOf(t0)) && lead in Live(m0) {
        GrowKeepsOrder(m0, t0, h, lead, em.State(), Tables());
      }
    }

    /** is_occupied: some entity with a position is at `pos`. */
    method IsOccupied(pos: Position) returns (b: bool)
      requires Valid()
      ensures b <==> Occupied(position.present[..], position.values[..], pos)
    {
      var e := 0;
      while e < MAX_ENTITIES
        invariant e <= MAX_ENTITIES
        invariant forall x :: 0 <= x < e ==> !(position.present[x] && position.values[x] == pos)
      {
        if position.present[e] && position.values[e] == pos {
          assert position.present[..][e] && position.values[..][e] == pos;
          return true;
        }
        e := e + 1;
      }
      return false;
    }

    /** place_edible: draw cells until one is free, then move the edible there.
        The rand() results are the parameter `rolls`; when they run out
        without a free cell, nothing is placed. */
    method PlaceEdible(e: Entity, rolls: seq<(nat, nat)>) returns (placed: Option<Position>)
      requires Valid() && e < MAX_ENTITIES
      modifies position.present, position.values
      ensures placed == FirstFree(old(position.present[..]), old(position.values[..]), rolls)
      ensures placed.Some? ==> Tables() == PlacedAt(old(Tables()), e, placed.value)
      ensures placed.None? ==> Tables() == old(Tables())
    {
      ghost var P, V := position.present[..], position.values[..];
      var i := 0;
      while i < |rolls|
        invariant i <= |rolls| && Tables() == old(Tables())
        invariant FirstFree(P, V, rolls) == FirstFree(P, V, rolls[i..])
      {
        assert rolls[i..][1..] == rolls[i + 1..];
        var cell := Cell(rolls[i]);
        var occupied := IsOccupied(cell);
        if !occupied {
          position.values[e] := cell;
          position.present[e] := true;
          return Some(cell);
        }
        i := i + 1;
      }
      return None;
    }

    /** update_followers_of: for each direct follower of `leader` in id order,
        first move that follower's own followers, then give it `leader`'s
        position. Every entity below `leader` ends at its own lead's position
        from before the call. */
    method UpdateFollowersOf(leader: Entity, ghost h: seq<nat>)
      requires Valid() && Ranked(Links(), h) && leader < MAX_ENTITIES
      modifies position.values
      ensures position.values[..] == Cascade(Links(), h, old(position.values[..]), leader)
      decreases h[leader]
    {
      ghost var L, p0 := Links(), position.values[..];
      CascadeUpToBounds(L, h, p0, leader);
      var e := 0;
      while e < MAX_ENTITIES
        invariant e <= MAX_ENTITIES && Links() == L
        invariant position.values[..] == CascadeUpTo(L, h, p0, leader, e)
      {
        if position.present[e] && follower.present[e] && follower.values[e] == leader {
          assert Follows(L, e, leader) && h[e] < h[leader];
          UpdateFollowersOf(e, h);
          position.values[e] := position.values[leader];
          CascadeStep(L, h, p0, leader, e);
        } else {
          CascadeSkip(L, h, p0, leader, e);
        }
        e := e + 1;
      }
    }

    /** update_interactables: each position+direction entity, in id order,
        moves its followers and then steps one cell in its direction. */
    method UpdateInteractables(ghost h: seq<nat>)
      requires Valid() && Ranked(Links(), h)
      modifies position.values
      ensures position.values[..] ==
        Advance(Links(), h, direction.present[..], direction.values[..], old(position.values[..]), MAX_ENTITIES)
      ensures old(Invariant()) ==> Invariant()
    {
      ghost var L, p0 := Links(), position.values[..];
      var e := 0;
      while e < MAX_ENTITIES
        invariant e <= MAX_ENTITIES && Links() == L
        invariant position.values[..] ==
          Advance(L, h, direction.present[..], direction.values[..], p0, e)
      {
        if position.present[e] && direction.present[e] {
          var d := direction.values[e];
          UpdateFollowersOf(e, h);
          position.values[e] := Moved(position.values[e], d);
        }
        e := e + 1;
      }
    }

    /** game_over: some position+interactable entity is off the board or
        shares its cell with another position+collidable entity. */
    method GameOver() returns (over: bool)
      requires Valid()
      ensures over <==>
        Crashed(position.present[..], interactable.present[..], collidable.present[..], position.values[..])
    {
      ghost var P, I, C, V := position.present[..], interactable.present[..],
                              collidable.present[..], position.values[..];
      var i := 0;
      while i < MAX_ENTITIES
        invariant i <= MAX_ENTITIES
        invariant forall k :: 0 <= k < i && P[k] && I[k] ==> InBounds(V[k]) && !HitsCollidable(P, C, V, k)
      {
        if position.present[i] && interactable.present[i] {
          var ipos := position.values[i];
          if ipos.x < 0 || ipos.x >= WIDTH || ipos.y < 0 || ipos.y >= HEIGHT {
            return true;
          }
          var c := 0;
          while c < MAX_ENTITIES
            invariant c <= MAX_ENTITIES
            invariant forall k :: 0 <= k < c && k != i && P[k] && C[k] ==> V[k] != ipos
          {
            if position.present[c] && collidable.present[c] && i != c {
              if position.values[c] == ipos {
                assert c != i && P[c] && C[c] && V[c] == V[i];
                return true;
              }
            }
            c := c + 1;
          }
        }
        i := i + 1;
      }
      return false;
    }

    /** handle_input: a key w/s/a/d requests a direction, and every
        interactable entity with a direction takes it unless it is the reverse
        of its current one; any other key changes nothing. */
    method HandleInput(key: char)
      requires Valid()
      modifies direction.values
      ensures Request(key).None? ==> direction.values[..] == old(direction.values[..])
      ensures Request(key).Some? ==> forall e :: 0 <= e < MAX_ENTITIES ==>
        direction.values[e] ==
          if interactable.present[e] && direction.present[e]
          then Steer(old(direction.values[e]), Request(key).value)
          else old(direction.values[e])
      ensures old(Invariant()) ==> Invariant()
    {
      var request := Request(key);
      if request.None? {
        return;
      }
      var dir := request.value;
      var e := 0;
      while e < MAX_ENTITIES
        invariant e <= MAX_ENTITIES
        invariant forall x :: 0 <= x < e ==>
          direction.values[x] ==
            if interactable.present[x] && direction.present[x]
            then Steer(old(direction.values[x]), dir)
            else old(direction.values[x])
        invariant forall x :: e <= x < MAX_ENTITIES ==> direction.values[x] == old(direction.values[x])
      {
        if interactable.present[e] && direction.present[e] {
          var current := direction.values[e];
          if dir == Up && current != Down { current := Up; }
          if dir == Down && current != Up { current := Down; }
          if dir == Right && current != Left { current := Right; }
          if dir == Left && current != Right { current := Left; }
          direction.values[e] := current;
        }
        e := e + 1;
      }
    }
  }
}
