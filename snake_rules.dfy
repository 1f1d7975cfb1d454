/** The rules of mecs_snake.c that are plain values and predicates: the
    component value types, movement by direction, the no-reverse steering
    rule, the board bounds, the collision and occupancy conditions, and what
    one scan of update_interactables does to the position array. */
module SnakeRules {
  import opened EcsTypes
  import opened FollowChain

  const WIDTH: int := 20
  const HEIGHT: int := 10

  datatype Direction = Up | Down | Left | Right
  datatype Position = Position(x: int, y: int)
  datatype Drawable = Drawable(symbol: char)
  datatype Edible = Edible(points: int, grows: bool, resets: bool)

  /** Everything one entity holds: a flag for each tag component and the
      value of each component with data, absent when its flag is down. */
  datatype Row = Row(collidable: bool, consumer: bool, direction: Option<Direction>,
                     drawable: Option<Drawable>, edible: Option<Edible>,
                     follower: Option<Entity>, interactable: bool, position: Option<Position>)

  /** An entity with no component. */
  const EmptyRow := Row(false, false, None, None, None, None, false, None)

  /** The six components create_snake_head adds; the rest of the row stays. */
  function AsHead(r: Row, pos: Position, dir: Direction): Row
  {
    r.(interactable := true, direction := Some(dir), consumer := true,
       drawable := Some(Drawable('O')), position := Some(pos), collidable := true)
  }

  /** The four components create_snake_segment adds. */
  function AsSegment(r: Row, pos: Position, lead: Entity): Row
  {
    r.(position := Some(pos), follower := Some(lead), drawable := Some(Drawable('o')),
       collidable := true)
  }

  /** The three components init_apple adds. */
  function AsApple(r: Row): Row
  {
    r.(drawable := Some(Drawable('@')), edible := Some(Edible(1, true, true)),
       position := Some(Position(0, 0)))
  }

  function Abs(n: int): nat
  {
    if n < 0 then -n else n
  }

  function Opposite(d: Direction): Direction
  {
    match d
    case Up => Down
    case Down => Up
    case Left => Right
    case Right => Left
  }

  /** One cell in direction `d`; the y axis grows downwards. */
  function Moved(p: Position, d: Direction): (r: Position)
    ensures Abs(r.x - p.x) + Abs(r.y - p.y) == 1
  {
    match d
    case Up => Position(p.x, p.y - 1)
    case Down => Position(p.x, p.y + 1)
    case Left => Position(p.x - 1, p.y)
    case Right => Position(p.x + 1, p.y)
  }

  /** Moving back in the opposite direction undoes a move. */
  lemma MoveThenBack(p: Position, d: Direction)
    ensures Moved(Moved(p, d), Opposite(d)) == p
  {
  }

  /** The key that requests each direction. */
  function KeyOf(d: Direction): char
  {
    match d
    case Up => 'w'
    case Down => 's'
    case Left => 'a'
    case Right => 'd'
  }

  /** The direction a key press requests, if any. */
  function Request(key: char): (r: Option<Direction>)
    ensures r.Some? ==> KeyOf(r.value) == key
    ensures r.None? ==> forall d: Direction :: KeyOf(d) != key
  {
    if key == 'w' then Some(Up)
    else if key == 's' then Some(Down)
    else if key == 'a' then Some(Left)
    else if key == 'd' then Some(Right)
    else None
  }

  /** The four guarded assignments of handle_input applied to one direction
      component: a request is taken unless it is the exact reverse. */
  function Steer(cur: Direction, req: Direction): (r: Direction)
    ensures r == if req == Opposite(cur) then cur else req
    ensures r != Opposite(cur)
  {
    var afterUp := if req == Up && cur != Down then Up else cur;
    var afterDown := if req == Down && afterUp != Up then Down else afterUp;
    var afterRight := if req == Right && afterDown != Left then Right else afterDown;
    if req == Left && afterRight != Right then Left else afterRight
  }

  predicate InBounds(p: Position)
  {
    0 <= p.x < WIDTH && 0 <= p.y < HEIGHT
  }

  /** Some position+collidable entity other than `i` shares `i`'s position. */
  predicate HitsCollidable(hasPos: seq<bool>, hasColl: seq<bool>, pos: seq<Position>, i: Entity)
    requires |hasPos| == |hasColl| == |pos| && i < |pos|
  {
    exists c :: 0 <= c < |pos| && c != i && hasPos[c] && hasColl[c] && pos[c] == pos[i]
  }

  /** The game-over condition: some position+interactable entity is off the
      board or on a collidable entity other than itself. */
  predicate Crashed(hasPos: seq<bool>, hasInter: seq<bool>, hasColl: seq<bool>, pos: seq<Position>)
    requires |hasPos| == |hasInter| == |hasColl| == |pos|
  {
    exists i :: 0 <= i < |pos| && hasPos[i] && hasInter[i] &&
      (!InBounds(pos[i]) || HitsCollidable(hasPos, hasColl, pos, i))
  }

  /** Some entity with a position component is at `p`. */
  predicate Occupied(hasPos: seq<bool>, pos: seq<Position>, p: Position)
    requires |hasPos| == |pos|
  {
    exists e :: 0 <= e < |pos| && hasPos[e] && pos[e] == p
  }

  /** The positions after update_interactables' scan has handled the ids below
      `k`: each position+direction entity first runs the cascade below itself
      and then moves one cell. Flags and follower values stay fixed. */
  ghost function Advance(L: Links, h: seq<nat>, hasDir: seq<bool>, dirs: seq<Direction>,
                         pos: seq<Position>, k: nat): (r: seq<Position>)
    requires Ranked(L, h) && |hasDir| == |h| && |dirs| == |h| && |pos| == |h| && k <= |h|
    ensures |r| == |h|
    decreases k
  {
    if k == 0 then pos
    else
      var p := Advance(L, h, hasDir, dirs, pos, k - 1);
      if L.hasPos[k - 1] && hasDir[k - 1] then
        var c := Cascade(L, h, p, k - 1);
        c[k - 1 := Moved(c[k - 1], dirs[k - 1])]
      else p
  }

  lemma {:induction false} AdvanceSingleMover(L: Links, h: seq<nat>, hasDir: seq<bool>,
                                              dirs: seq<Direction>, pos: seq<Position>,
                                              head: Entity, k: nat)
    requires Ranked(L, h) && |hasDir| == |h| && |dirs| == |h| && |pos| == |h| && k <= |h|
    requires head < |h| && L.hasPos[head] && hasDir[head]
    requires forall e :: 0 <= e < |h| && L.hasPos[e] && hasDir[e] ==> e == head
    ensures Advance(L, h, hasDir, dirs, pos, k) ==
      if k <= head then pos
      else Cascade(L, h, pos, head)[head := Moved(pos[head], dirs[head])]
    decreases k
  {
    if k > 0 {
      AdvanceSingleMover(L, h, hasDir, dirs, pos, head, k - 1);
      if k - 1 == head {
        DescendsRanksBelow(L, h, head, head);
        assert Cascade(L, h, pos, head)[head] == pos[head];
      } else {
        assert !(L.hasPos[k - 1] && hasDir[k - 1]);
      }
    }
  }

  /** With a single head, one tick moves the head one cell in its direction
      and every entity below it to its own lead's pre-move position. */
  lemma SingleHeadTick(L: Links, h: seq<nat>, hasDir: seq<bool>, dirs: seq<Direction>,
                       pos: seq<Position>, head: Entity)
    requires Ranked(L, h) && |hasDir| == |h| && |dirs| == |h| && |pos| == |h|
    requires head < |h| && L.hasPos[head] && hasDir[head]
    requires forall e :: 0 <= e < |h| && L.hasPos[e] && hasDir[e] ==> e == head
    ensures var r := Advance(L, h, hasDir, dirs, pos, |h|);
      && r[head] == Moved(pos[head], dirs[head])
      && forall d :: 0 <= d < |h| && d != head ==>
           r[d] == if Descends(L, h, d, head) then pos[L.lead[d]] else pos[d]
  {
    AdvanceSingleMover(L, h, hasDir, dirs, pos, head, |h|);
  }

  /** The cell place_edible draws from one pair of rand() results; rand()
      never returns a negative number, so C's `%` agrees with Dafny's. */
  function Cell(roll: (nat, nat)): (p: Position)
    ensures InBounds(p)
  {
    Position(roll.0 % WIDTH, roll.1 % HEIGHT)
  }

  /** The first drawn cell no positioned entity occupies, if any. */
  function FirstFree(hasPos: seq<bool>, pos: seq<Position>, rolls: seq<(nat, nat)>): (r: Option<Position>)
    requires |hasPos| == |pos|
    ensures r.Some? ==> InBounds(r.value) && !Occupied(hasPos, pos, r.value)
    ensures r.Some? ==> exists i :: 0 <= i < |rolls| && Cell(rolls[i]) == r.value &&
                                   forall j :: 0 <= j < i ==> Occupied(hasPos, pos, Cell(rolls[j]))
    ensures r.None? ==> forall j :: 0 <= j < |rolls| ==> Occupied(hasPos, pos, Cell(rolls[j]))
    decreases |rolls|
  {
    if |rolls| == 0 then None
    else if !Occupied(hasPos, pos, Cell(rolls[0])) then Some(Cell(rolls[0]))
    else
      var r := FirstFree(hasPos, pos, rolls[1..]);
      assert forall j :: 1 <= j < |rolls| ==> rolls[j] == rolls[1..][j - 1];
      r
  }
}
