# mini-ecs in Dafny

A verified model of the mini ECS runtime (`mini_ecs.h`) and of the Snake game
rules built on it (`mecs_snake.c`).

- **Runtime.** An entity is a bare id. The entity manager hands ids out from a
  LIFO free list of destroyed ids, and otherwise from a counter of never-issued
  ids. Each component type is a value array plus a parallel presence-flag
  array, both indexed by id. A query is an ascending scan over the whole
  capacity that keeps ids whose required flags are all set.
- **Game.** There is no "snake" object. A head entity has position, direction,
  interactable, consumer, drawable and collidable components; each segment has
  a `follower` component naming its lead. Every tick, each entity with a
  direction first drags its chain of followers along (each segment takes its
  lead's pre-move position) and then steps one cell. The game is over when
  an interactable entity leaves the 20 × 10 board or lands on another
  collidable entity.

Files and modules:

- `ecs_types.dfy` (`EcsTypes`): the capacity `MAX_ENTITIES` = 1024, the id
  type, and the error results that replace the header's undefined behaviour.
- `entity_manager.dfy` (`EntityManagement`): the manager twice over.
  - `Allocate` and `Release` are pure transitions on an abstract state.
    Lemmas about them cover LIFO reuse, the round trip, the live set, and
    no double allocation over any run.
  - The class `EntityManager` updates `nextEntity`, `freeCount` and the
    `freeList` array in place. Its methods are proved to perform exactly those
    transitions.
- `component_store.dfy` (`ComponentStore`): the class `Store<T>` with its
  `values` and `present` arrays, and `Set`, `Has`, `Clear`, `Get`.
- `query.dfy` (`Query`): the scan behind `MECS_FOREACH_1/2/3`, specified by
  `Matches`, with membership and ascending-order lemmas.
- `follow_chain.dfy` (`FollowChain`): the follower relation on a snapshot of
  the arrays. It provides:
  - an acyclicity witness `Ranked(L, h)`: leads sit strictly higher than
    their followers in a ghost height `h`;
  - the closed form `Cascade` of the recursive follower update;
  - the lead-to-follower map and the end of the chain walk.
- `snake_rules.dfy` (`SnakeRules`): the component value types, movement,
  steering, bounds, collision and occupancy conditions, and `Advance`, the
  effect of one `update_interactables` scan.
- `snake_tables.dfy` (`SnakeTables`): the world's thirteen arrays as a value
  `Tables`, and what each creation and teardown does to one entity's `Row`.
  It also holds the discipline `Tidy` (an id that is not live holds no
  component) and the layout predicates of `init_snake`.
- `snake_world.dfy` (`Snake`): the class `SnakeWorld` holding the manager and
  the eight stores. Its methods are the game rules, written as the source's
  loops over arrays.

Each state-changing method states its new state as a pure function of the
old one, for example `Tables() == Cleared(old(Tables()), e)` or
`(em.State(), r) == Allocate(old(em.State()), MAX_ENTITIES)`. What the source
promises is then proved about those functions.

The recursion of `update_followers_of` and the walk of `last_follower` end
only if no cycle of the follower relation is reachable from where they
start. Their methods take a ghost height witness `h`, which rules out every
cycle. When every lead has a smaller id than its follower
(`LeadsPrecede`), `IdHeights` is such a witness. `InitSnake` and `Grow` keep
that ordering as long as no id is recycled.

## Model

| member | source | states |
|---|---|---|
| EntityManagement.Allocate | mini_ecs.h:66-72 | create fails exactly when the free list is empty and the counter has reached the capacity, and then changes nothing; it keeps the bounds and never issues an id at or above the capacity |
| EntityManagement.Release | mini_ecs.h:74-78 | destroy never touches the counter and keeps the free list within the capacity and its ids in range |
| EntityManagement.ReleaseThenAllocate | mini_ecs.h:66-78 | destroying `e` while the free list has room, then creating, returns `e` and restores the manager state |
| EntityManagement.LiveAfterPop | mini_ecs.h:67-68 | popping the free list's top makes exactly that id live again and keeps the free list duplicate-free |
| EntityManagement.RoomForLive | mini_ecs.h:74-78 | while some id is live the free list is not full, so destroying a live id never takes the silent-drop branch |
| EntityManagement.AllocateIssuesUnused | mini_ecs.h:66-72 | a successful create issues an id that was not live, and exactly that id becomes live |
| EntityManagement.ReleaseRetiresLive | mini_ecs.h:74-78 | destroying a live id removes exactly that id from the live set and keeps the free list sound |
| EntityManagement.RunNeverDoubleAllocates | mini_ecs.h:66-78 | over any sequence of creates and destroys of live ids, no create returns an id that is still live, and the bounds and free-list soundness hold at the end |
| EntityManagement.CapacityEightScenario | mini_ecs.h:66-78 | at capacity 8: ids 0..3 issued, 1 destroyed and reissued first, 4..7 issued, then the next create reports exhaustion |
| EntityManagement.EntityManager.constructor | mini_ecs.h:60-64 | a zeroed manager: counter 0, empty free list |
| EntityManagement.EntityManager.Create | mini_ecs.h:66-72 | with a nonempty free list: returns `free_list[free_count - 1]`, decrements `free_count`, leaves `next_entity`; otherwise returns `next_entity` and increments it by one; at capacity, an error with nothing changed; the new state is `Allocate` of the old one |
| EntityManagement.EntityManager.Destroy | mini_ecs.h:74-78 | with room: writes `e` at `free_list[old free_count]` and increments `free_count`, the other entries unchanged; when full: nothing changes; the new state is `Release` of the old one |
| ComponentStore.Store.constructor | mini_ecs.h:32-34 | a value array and a flag array of the capacity, every flag false |
| ComponentStore.Store.Set | mini_ecs.h:38-41 | writes `values[e]` and raises `present[e]`; every other index is unchanged; an id out of range fails and changes nothing |
| ComponentStore.Store.Has | mini_ecs.h:36 | returns `present[e]`, or an error for an id out of range |
| ComponentStore.Store.Clear | mini_ecs.h:43 | lowers `present[e]` only; the values array is unchanged; an id out of range fails |
| ComponentStore.Store.Get | mini_ecs.h:32-34 | the value of a present component; an error for an absent component or an id out of range |
| ComponentStore.SetThenRead | mini_ecs.h:36-41 | after set, has is true and the value reads back; a second set overwrites it |
| ComponentStore.ClearTwice | mini_ecs.h:36-43 | clearing twice equals clearing once, has is then false, and no value changes |
| Query.MatchesExactly | mini_ecs.h:45-58 | the scan yields `e` iff `e` is below the capacity and selected |
| Query.MatchesBelow | mini_ecs.h:45-58 | every id the scan yields is below the capacity |
| Query.MatchesAscending | mini_ecs.h:45-58 | the scan yields ids in strictly ascending order |
| Query.Scan | mini_ecs.h:45-47 | the loop collects exactly the ids `Matches` describes |
| Query.Query1 | mini_ecs.h:45-47 | visits exactly the ids with the flag set, in strictly ascending order |
| Query.Query2 | mini_ecs.h:49-52 | visits exactly the ids below the capacity with both flags set, in strictly ascending order |
| Query.Query3 | mini_ecs.h:54-58 | visits exactly the ids with all three flags set, in strictly ascending order |
| Query.TwoComponentScenario | mini_ecs.h:49-52 | A on {0,2,4} and B on {2,4,6}: the two-component query visits [2, 4] |
| FollowChain.TopChild | mecs_snake.c:252-261 | the entity through which a descendant hangs below `l` is a direct follower of `l` |
| FollowChain.DescendsRanksBelow | mecs_snake.c:252-261 | a descendant ranks strictly below its ancestor, so nothing descends from itself |
| FollowChain.DescendsTransitive | mecs_snake.c:252-261 | a descendant of a descendant of `l` descends from `l` |
| FollowChain.TopChildAbove | mecs_snake.c:252-261 | the direct follower of `l` above `d` is `d` or an ancestor of `d` |
| FollowChain.DescendsThrough | mecs_snake.c:252-261 | whatever descends from a direct follower `c` of `l` descends from `l` through `c` |
| FollowChain.CascadeUpToBounds | mecs_snake.c:252-261 | before the scan nothing has moved; after the whole scan the positions are the closed-form cascade |
| FollowChain.CascadeSkip | mecs_snake.c:254-255 | an id that does not follow the leader changes nothing when the scan passes it |
| FollowChain.CascadeStep | mecs_snake.c:256-258 | at a direct follower `e`: recursing below `e`, then giving `e` the leader's position, moves exactly `e`'s subtree to its leads' old positions |
| FollowChain.LastLinkedTo | mecs_snake.c:184-189 | the map entry for `l` after the scan has passed `k`: the largest id below `k` that follows `l` (a later id overwrites), or none |
| FollowChain.ChainEndIsLast | mecs_snake.c:191-196 | the walk from an in-range lead ends at the lead or a descendant of it, nothing follows the end, and the end is the lead itself when nothing follows it |
| FollowChain.LeadsPrecedeRanked | mecs_snake.c:146-178 | when every lead has a smaller id than its follower (as creation order gives), the ids themselves witness acyclicity |
| FollowChain.ThreeLinkScenario | mecs_snake.c:252-261 | for the chain 0 <- 1 <- 2, the cascade from 0 leaves 1 at 0's old position and 2 at 1's old position |
| SnakeRules.Moved | mecs_snake.c:243-248 | a move changes the position by exactly one cell |
| SnakeRules.MoveThenBack | mecs_snake.c:243-248 | moving in the opposite direction undoes a move |
| SnakeRules.Request | mecs_snake.c:310-317 | keys w/s/a/d request Up/Down/Left/Right; every other key requests nothing |
| SnakeRules.Steer | mecs_snake.c:321-325 | the four guarded assignments take the request unless it is the exact reverse of the current direction, and never leave the entity reversed |
| SnakeRules.AdvanceSingleMover | mecs_snake.c:238-250 | with a single position+direction entity, the scan up to any id is either no change or the cascade below the head followed by the head's move |
| SnakeRules.SingleHeadTick | mecs_snake.c:238-261 | with one head, a tick moves the head one cell in its direction and every entity below it to its own lead's pre-move position; the rest stay |
| SnakeRules.Cell | mecs_snake.c:225-226 | the cell drawn from two `rand()` results is on the board |
| SnakeRules.FirstFree | mecs_snake.c:222-228 | the chosen cell is on the board and unoccupied and is the first drawn cell that is free; none is chosen only if every drawn cell is occupied |
| SnakeTables.EmptyTables | mecs_snake.c:132-135 | the zero-filled world: every entity's row is empty |
| SnakeTables.Cleared | mecs_snake.c:57-66 | `e` loses all eight components; every other entity's row is unchanged |
| SnakeTables.WithHead | mecs_snake.c:160-169 | `e` gains interactable, the direction, consumer, drawable 'O', the position and collidable; others unchanged |
| SnakeTables.WithSegment | mecs_snake.c:171-178 | `e` gains the position, follower = the lead, drawable 'o' and collidable; others unchanged |
| SnakeTables.WithApple | mecs_snake.c:204-210 | `e` gains drawable '@', edible (1 point, grows, resets) and position (0, 0); others unchanged |
| SnakeTables.PlacedAt | mecs_snake.c:229 | `e` gets the position; others unchanged |
| SnakeTables.TidyAfterDestroy | mecs_snake.c:141-144 | destroying a live entity keeps "a non-live id holds no component" and the free-list soundness |
| SnakeTables.TidyAfterCreate | mecs_snake.c:160-178 | a create hands out an id holding no component, and giving components to that id alone keeps the world tidy |
| SnakeTables.InitStep | mecs_snake.c:146-158 | each step of the layout keeps every array at the capacity |
| SnakeTables.IssuedStep | mecs_snake.c:146-158 | one more create adds a fresh id outside the snake, and the laid ids stay distinct, fresh, consecutive from the counter when no id was free, and exactly the new live ids |
| SnakeTables.DrawnStep | mecs_snake.c:148-157 | laying one more empty id adds the head at (5, 5) facing right or a segment at (5 - i, 5) following the previous id, and touches nothing else |
| SnakeTables.LaidStep | mecs_snake.c:148-157 | one loop iteration of init_snake extends the laid snake by the issued id and keeps the world tidy |
| SnakeTables.LaidKeepsOrder | mecs_snake.c:146-158 | laying a snake with ids from the counter keeps every lead's id below its follower's |
| SnakeTables.GrowKeepsOrder | mecs_snake.c:199-202 | growing with no recycled id keeps every lead's id below its follower's |
| Snake.SnakeWorld.constructor | mecs_snake.c:132-135 | a zeroed world: manager at 0, score 0, every row empty, the invariant holds |
| Snake.SnakeWorld.ClearComponents | mecs_snake.c:57-66 | the new arrays are `Cleared` of the old: all eight flags of `e` down, no value and no other entity changed |
| Snake.SnakeWorld.DestroyEntity | mecs_snake.c:141-144 | clears `e` and then performs `Release`; destroying a live id retires exactly it and keeps the invariant |
| Snake.SnakeWorld.AddHead | mecs_snake.c:162-167 | the six component writes of the head, and the manager untouched |
| Snake.SnakeWorld.CreateSnakeHead | mecs_snake.c:160-169 | performs `Allocate`; on success the issued id held no component and now carries the head's six components; at capacity nothing changes; the invariant is kept |
| Snake.SnakeWorld.AddSegment | mecs_snake.c:173-176 | the four component writes of a segment, and the manager untouched |
| Snake.SnakeWorld.CreateSnakeSegment | mecs_snake.c:171-178 | performs `Allocate`; on success the issued id held no component and now is a segment following `follows`; at capacity nothing changes; the invariant is kept |
| Snake.SnakeWorld.AddApple | mecs_snake.c:206-208 | the three component writes of the apple, and the manager untouched |
| Snake.SnakeWorld.InitApple | mecs_snake.c:204-210 | performs `Allocate`; on success the issued id held no component and now is the apple; at capacity nothing changes; the invariant is kept |
| Snake.SnakeWorld.LayNext | mecs_snake.c:149-157 | one iteration of init_snake: the head first, then a segment following the previous id, extending the laid snake |
| Snake.SnakeWorld.InitSnake | mecs_snake.c:146-158 | `length` distinct fresh ids: a head at (5, 5) facing right, then segment i at (5 - i, 5) following id i - 1; from the counter they are consecutive; nothing else changes; the invariant is kept, and when no id was free, so is the lead ordering |
| Snake.SnakeWorld.LastFollower | mecs_snake.c:180-197 | the end of the walk over the lead-to-follower map: the lead or a descendant of it, with nothing following it; the lead itself when nothing follows it |
| Snake.SnakeWorld.Grow | mecs_snake.c:199-202 | a new segment at the chain tail's position following the tail; nothing else changes; the invariant and, without recycling, the lead ordering are kept |
| Snake.SnakeWorld.IsOccupied | mecs_snake.c:212-220 | true iff some entity with a position component is exactly at `pos` |
| Snake.SnakeWorld.PlaceEdible | mecs_snake.c:222-230 | the edible moves to the first drawn cell that is free, and nothing else changes |
| Snake.SnakeWorld.UpdateFollowersOf | mecs_snake.c:252-261 | every entity below `leader` ends at its own lead's position from before the call; every other position is unchanged |
| Snake.SnakeWorld.UpdateInteractables | mecs_snake.c:238-250 | the positions after the scan are `Advance`: each position+direction entity in id order runs the cascade and then moves one cell; the invariant is kept |
| Snake.SnakeWorld.GameOver | mecs_snake.c:282-303 | true iff some position+interactable entity is off the board or shares its cell with a different position+collidable entity |
| Snake.SnakeWorld.HandleInput | mecs_snake.c:305-327 | for w/s/a/d every interactable entity with a direction takes `Steer` of its current direction and the request; other entities, and every entity on any other key, keep their direction |

## Left out

- Terminal and OS plumbing are not modelled: `kbhit`, `get_key`, the terminal modes, `init_system`, `teardown_system`, `sleep_ms` and the `main` loop are pure I/O. The key that `get_key` would return is a parameter of `HandleInput`.
- `render` only prints, so it is not modelled.
- `rand()` is a parameter: `PlaceEdible` takes the sequence of pairs it would return. It gives up, placing nothing, when the sequence runs out without a free cell. The source keeps drawing forever, even on a full board.
- `calloc` and `free` in `new_game` and `free_game` are not modelled; the world's constructor builds the zero-filled world directly.
- `update_edibles` and `update_state` are not modelled. They are the eating rule: the score, growing the eater, and re-placing or destroying the food inside the nested live scans. The `score` field is kept, but no modelled rule changes it.
- The `Following` struct is declared in the source but never used, so it is not modelled.
- Integer widths are not modelled: `Entity` is `unsigned int` and positions are `int` in the source, but unbounded integers here. Ids stay below the capacity, and positions move by one cell per tick.
- EntityManagement.EntityManager.Create: past the capacity the source returns `next_entity` and increments it, so the caller then writes out of bounds. The model reports `CapacityExhausted` and changes nothing.
- Query.Query1, Query.Query2, Query.Query3: the visited ids are stated for flags that the loop body leaves alone; the flags are read once, before the scan. The macros test each flag only when the loop reaches that id, so a body that sets or clears a flag further ahead changes what is visited, and this model does not capture that. The world's own loops read the flags id by id, and none of them changes a flag it scans.
- The world's methods (`ClearComponents`, `AddHead`, `AddSegment`, `AddApple`, `PlaceEdible`) write the store arrays directly, as the macro expansions do in the source, rather than calling `Store.Set` or `Store.Clear`. Their ids are already known to be in range.
- ComponentStore.Store.Set: in the source an id at or above the capacity is an out-of-bounds access. The model fails with `EntityOutOfRange` and changes nothing; `Has`, `Clear` and `Get` behave the same way.
- Snake.SnakeWorld.DestroyEntity: requires `e` below the capacity, since the source's clearing would otherwise write out of bounds.
- Snake.SnakeWorld.InitSnake: requires room for `length` creates, so the source's out-of-bounds writes past the capacity are excluded.
- Snake.SnakeWorld.Grow: requires `lead` below the capacity. `last_follower` then returns an id the source may index with.
- Snake.SnakeWorld.LastFollower, Snake.SnakeWorld.Grow, Snake.SnakeWorld.UpdateFollowersOf, Snake.SnakeWorld.UpdateInteractables: require a witness that the whole follower relation has no cycle. The source needs less: its walk and its recursion only step from an entity to that entity's followers, so they run forever only when a cycle is reachable from where they start. For example, if two entities follow each other and nothing follows a third, the walk and the cascade from the third both return at once. The game itself never builds a cycle: each segment follows an id created before it, and no snake entity is ever destroyed, so no id is recycled.
- Snake.SnakeWorld.Grow: the lead ordering is proved preserved only when no id is recycled (an empty free list). A recycled low id can follow a higher one.
- The world's `Tables()` snapshot and rows hide stale values behind lowered flags. A contract about a row therefore says nothing about the stale value in a cleared slot, although the array equalities do.
