/**
 * The game object. Its methods update its fields in place, and each method's
 * postcondition ties the new state to the function of the same name in
 * `GameRules`, applied to the old state.
 */
module Games {
  import opened Geometry
  import opened Snakes
  import GameRules

  class Game {
    var snake: Snake
    var food: GameRules.Food
    var score: int
    var gameOver: bool
    var updateCounter: int
    var speed: int

    /** The whole game state as a value. */
    ghost function State(): GameRules.GameState
      reads this, snake
    {
      GameRules.GameState(snake.body, snake.direction, snake.growCounter,
                          food, score, gameOver, updateCounter, speed)
    }

    /** The zero-valued game with a restart applied: the state play begins in. */
    constructor (choice: Point)
      requires InBounds(choice)
      ensures State() == GameRules.Initial(choice) && fresh(snake)
    {
      updateCounter := 0;
      snake := new Snake();
      score := 0;
      gameOver := false;
      food := GameRules.NewFood(choice);
      speed := GameRules.DEFAULT_SPEED;
    }

    /** A fresh snake and food, score 0, default speed, play resumed; the frame counter is left as it is. */
    method Restart(choice: Point)
      requires InBounds(choice)
      modifies this
      ensures State() == GameRules.Restart(old(State()), choice) && fresh(snake)
    {
      snake := new Snake();
      score := 0;
      gameOver := false;
      food := GameRules.NewFood(choice);
      speed := GameRules.DEFAULT_SPEED;
    }

    /** Reads the arrow keys and turns the snake by the axis-lock rule. */
    method UpdateSnakeDirection(keys: Keys)
      modifies snake
      ensures State() == GameRules.UpdateSnakeDirection(old(State()), keys)
    {
      if keys.left && snake.direction.x == 0 {
        snake.direction := Point(-1, 0);
      } else if keys.right && snake.direction.x == 0 {
        snake.direction := Point(1, 0);
      } else if keys.up && snake.direction.y == 0 {
        snake.direction := Point(0, -1);
      } else if keys.down && snake.direction.y == 0 {
        snake.direction := Point(0, 1);
      }
    }

    method MakeGameOver()
      modifies this`gameOver, this`speed
      ensures State() == GameRules.MakeGameOver(old(State()))
    {
      gameOver := true;
      speed := GameRules.DEFAULT_SPEED;
    }

    method CheckFoodConsumption(head: Point, choice: Point)
      requires InBounds(choice)
      modifies this`score, this`food, this`speed, snake
      ensures State() == GameRules.CheckFoodConsumption(old(State()), head, choice)
    {
      if head.x == food.position.x && head.y == food.position.y {
        score := score + 1;
        snake.growCounter := snake.growCounter + 1;
        food := GameRules.NewFood(choice);
        if speed > GameRules.MIN_SPEED {
          speed := speed - 1;
        }
      }
    }

    /** Ends the game if the head is off the board or on a later body cell, then checks the food in any case. */
    method CheckCollisions(head: Point, choice: Point)
      requires |snake.body| >= 1 && InBounds(choice)
      modifies this`gameOver, this`speed, this`score, this`food, snake
      ensures State() == GameRules.CheckCollisions(old(State()), head, choice)
    {
      if head.x < 0 || head.y < 0 || head.x >= BOARD_WIDTH || head.y >= BOARD_HEIGHT {
        MakeGameOver();
      }
      var parts := snake.body[1..];
      for i := 0 to |parts|
        invariant unchanged(snake) && score == old(score) && food == old(food)
        invariant gameOver == (old(gameOver) || !InBounds(head) || head in parts[..i])
        invariant speed == if !InBounds(head) || head in parts[..i] then GameRules.DEFAULT_SPEED else old(speed)
      {
        if head.x == parts[i].x && head.y == parts[i].y {
          MakeGameOver();
        }
        assert parts[..i + 1] == parts[..i] + [parts[i]];
      }
      assert parts[..|parts|] == parts;
      CheckFoodConsumption(head, choice);
    }

    /** One frame: see `GameRules.Update`. */
    method Update(input: GameRules.Input)
      requires |snake.body| >= 1 && InBounds(input.foodChoice)
      modifies this, snake
      ensures State() == GameRules.Update(old(State()), input)
      // only a restart replaces the snake, and then by a new one
      ensures snake == old(snake) || fresh(snake)
    {
      if gameOver {
        if input.restartPressed {
          Restart(input.foodChoice);
        }
        return;
      }

      updateCounter := updateCounter + 1;
      if updateCounter < speed {
        return;
      }
      updateCounter := 0;

      snake.Move();

      UpdateSnakeDirection(input.keys);

      var head := snake.body[0];
      CheckCollisions(head, input.foodChoice);
    }
  }
}
