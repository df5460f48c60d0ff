/**
 * The game's state as a value and one function per operation of the game.
 * Each function says what the operation of the same name in `Games.Game`
 * does to the whole state.
 */
module GameRules {
  import opened Geometry
  import opened Snakes

  /** The number of frames per tick that restart and game over set. */
  const DEFAULT_SPEED := 10
  /** Eating lowers the frames per tick, but never below this. */
  const MIN_SPEED := 2

  datatype Food = Food(position: Point)

  /** A food item at the cell the random generator chose; the choice is a parameter, so the model has no randomness. */
  function NewFood(choice: Point): (f: Food)
    requires InBounds(choice)
    ensures InBounds(f.position) && f.position == choice
  {
    Food(choice)
  }

  /**
   * Everything one frame reads from outside: the arrow keys that are held,
   * whether R was newly pressed, and the cell the random generator would
   * return if food were placed during this frame.
   */
  datatype Input = Input(keys: Keys, restartPressed: bool, foodChoice: Point)

  datatype GameState = GameState(
    body: seq<Point>,
    direction: Point,
    growCounter: int,
    food: Food,
    score: int,
    gameOver: bool,
    updateCounter: int,
    speed: int)

  /** The state that restart leaves behind. The frame counter is not reset by restart. */
  function Restart(s: GameState, choice: Point): (r: GameState)
    requires InBounds(choice)
    ensures r.body == [START] && r.direction == RIGHT && r.growCounter == 0
    ensures r.score == 0 && r.speed == DEFAULT_SPEED && !r.gameOver
    ensures r.food.position == choice && InBounds(r.food.position)
    ensures r.updateCounter == s.updateCounter
  {
    s.(body := [START], direction := RIGHT, growCounter := 0,
       score := 0, gameOver := false, food := NewFood(choice), speed := DEFAULT_SPEED)
  }

  /** The game as it stands once it has been set up by a restart from the zero value. */
  function Initial(choice: Point): (r: GameState)
    requires InBounds(choice)
    ensures !r.gameOver && r.score == 0 && r.speed == DEFAULT_SPEED && r.updateCounter == 0
    ensures r.body == [START] && r.direction == RIGHT && r.growCounter == 0 && r.food.position == choice
  {
    GameState([START], RIGHT, 0, NewFood(choice), 0, false, 0, DEFAULT_SPEED)
  }

  /** Game over: the flag is raised and the speed is put back to its default; nothing else changes. */
  function MakeGameOver(s: GameState): (r: GameState)
    ensures r.gameOver && r.speed == DEFAULT_SPEED
    ensures r.(gameOver := s.gameOver, speed := s.speed) == s
  {
    s.(gameOver := true, speed := DEFAULT_SPEED)
  }

  /** Whether the head stands on the food. */
  predicate OnFood(s: GameState, head: Point)
  {
    head.x == s.food.position.x && head.y == s.food.position.y
  }

  /**
   * When the head stands on the food: one more point, one more unit of
   * pending growth, food at the new random cell, and one frame less per
   * tick unless already at the minimum. Otherwise nothing changes.
   */
  function CheckFoodConsumption(s: GameState, head: Point, choice: Point): (r: GameState)
    requires InBounds(choice)
    ensures head != s.food.position ==> r == s
    ensures head == s.food.position ==>
      && r.score == s.score + 1
      && r.growCounter == s.growCounter + 1
      && r.food.position == choice && InBounds(r.food.position)
      && r.speed == (if s.speed > MIN_SPEED then s.speed - 1 else s.speed)
      && r.(score := s.score, growCounter := s.growCounter, food := s.food, speed := s.speed) == s
  {
    if OnFood(s, head) then
      s.(score := s.score + 1, growCounter := s.growCounter + 1, food := NewFood(choice),
         speed := if s.speed > MIN_SPEED then s.speed - 1 else s.speed)
    else
      s
  }

  /** The head is off the board or on a body cell other than the first. */
  predicate Collides(body: seq<Point>, head: Point)
    requires |body| >= 1
  {
    !InBounds(head) || head in body[1..]
  }

  /**
   * The collision checks followed by the food check. The food check runs
   * whether or not a collision has just ended the game.
   */
  function CheckCollisions(s: GameState, head: Point, choice: Point): (r: GameState)
    requires |s.body| >= 1 && InBounds(choice)
    ensures r.gameOver <==>
      s.gameOver || head.x < 0 || head.y < 0 || head.x >= BOARD_WIDTH || head.y >= BOARD_HEIGHT
      || exists i :: 1 <= i < |s.body| && s.body[i] == head
    ensures r.body == s.body && r.direction == s.direction && r.updateCounter == s.updateCounter
    ensures Collides(s.body, head) ==> r == CheckFoodConsumption(MakeGameOver(s), head, choice)
    ensures !Collides(s.body, head) ==> r == CheckFoodConsumption(s, head, choice)
  {
    var afterWall := if !InBounds(head) then MakeGameOver(s) else s;
    var afterBody := if head in s.body[1..] then MakeGameOver(afterWall) else afterWall;
    assert head in s.body[1..] <==> exists i :: 1 <= i < |s.body| && s.body[i] == head by {
      if head in s.body[1..] {
        var k :| 0 <= k < |s.body[1..]| && s.body[1..][k] == head;
        assert s.body[k + 1] == head;
      }
    }
    CheckFoodConsumption(afterBody, head, choice)
  }

  /** The snake takes one step; only its body and its pending growth change. */
  function MoveSnake(s: GameState): (r: GameState)
    requires |s.body| >= 1
    ensures |r.body| == |s.body| + (if s.growCounter > 0 then 1 else 0)
    ensures r.body[0] == Plus(s.body[0], s.direction)
    ensures r.body == MovedBody(s.body, s.direction, s.growCounter)
    ensures r.growCounter == if s.growCounter > 0 then s.growCounter - 1 else s.growCounter
    ensures r.(body := s.body, growCounter := s.growCounter) == s
  {
    s.(body := MovedBody(s.body, s.direction, s.growCounter),
       growCounter := if s.growCounter > 0 then s.growCounter - 1 else s.growCounter)
  }

  /** Steering: only the heading changes, following the axis-lock rule with priority Left, Right, Up, Down. */
  function UpdateSnakeDirection(s: GameState, keys: Keys): (r: GameState)
    ensures r.direction == NextDirection(s.direction, keys)
    ensures r.(direction := s.direction) == s
  {
    s.(direction := NextDirection(s.direction, keys))
  }

  /** The tick proper: step, then steer, then check collisions and food at the new head. */
  function Tick(s: GameState, input: Input): (r: GameState)
    requires |s.body| >= 1 && InBounds(input.foodChoice)
    // the step uses the heading held before the keys were read
    ensures r.body == MovedBody(s.body, s.direction, s.growCounter)
    ensures r.direction == NextDirection(s.direction, input.keys)
    ensures r.updateCounter == s.updateCounter
    // the collision checks look at the moved body and its new head
    ensures r.gameOver <==> s.gameOver || Collides(r.body, r.body[0])
    // the food check at the new head runs after any game over: a meal adds a
    // point and a unit of growth, places new food and lowers the speed that
    // the collision checks left
    ensures var head := Plus(s.body[0], s.direction);
      var eats := head == s.food.position;
      var sp := if Collides(r.body, head) then DEFAULT_SPEED else s.speed;
      && r.score == s.score + (if eats then 1 else 0)
      && r.food.position == (if eats then input.foodChoice else s.food.position)
      && r.growCounter == (if s.growCounter > 0 then s.growCounter - 1 else s.growCounter) + (if eats then 1 else 0)
      && r.speed == (if eats && sp > MIN_SPEED then sp - 1 else sp)
  {
    var moved := MoveSnake(s);
    var steered := UpdateSnakeDirection(moved, input.keys);
    CheckCollisions(steered, steered.body[0], input.foodChoice)
  }

  /**
   * One frame. A game that is over reacts only to the restart key. A game in
   * play counts the frame and, once the count reaches the speed, resets the
   * count and plays one tick.
   */
  function Update(s: GameState, input: Input): (r: GameState)
    requires |s.body| >= 1 && InBounds(input.foodChoice)
    ensures |r.body| >= 1
    // game over: only the restart key does anything
    ensures s.gameOver && !input.restartPressed ==> r == s
    ensures s.gameOver && input.restartPressed ==> r == Restart(s, input.foodChoice)
    // in play, below the speed threshold: only the frame counter moves
    ensures !s.gameOver && s.updateCounter + 1 < s.speed ==> r == s.(updateCounter := s.updateCounter + 1)
    // in play, at the threshold: a tick with the counter reset, moving along the heading held before the keys were read
    ensures !s.gameOver && s.updateCounter + 1 >= s.speed ==>
      && r.updateCounter == 0
      && r.body == MovedBody(s.body, s.direction, s.growCounter)
      && r.direction == NextDirection(s.direction, input.keys)
      && r == Tick(s.(updateCounter := 0), input)
  {
    if s.gameOver then
      if input.restartPressed then Restart(s, input.foodChoice) else s
    else
      var counted := s.(updateCounter := s.updateCounter + 1);
      if counted.updateCounter < s.speed then counted
      else Tick(counted.(updateCounter := 0), input)
  }
}
