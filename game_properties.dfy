/**
 * What holds of every state the game can reach, and of runs of many frames:
 * the speed stays between 2 and 10, the food stays on the board, the score
 * only rises between restarts, a live snake fits on the board and never
 * turns back into its own neck, and a finished game waits for the restart key.
 */
module GameProperties {
  import opened Geometry
  import opened Snakes
  import opened GameRules

  /** The snake's next step never lands on the cell right behind its head. */
  predicate NoReversal(s: GameState)
  {
    |s.body| >= 2 ==> Plus(s.body[0], s.direction) != s.body[1]
  }

  /** The invariant of every reachable state. */
  predicate Inv(s: GameState)
  {
    && |s.body| >= 1
    && s.growCounter >= 0
    && MIN_SPEED <= s.speed <= DEFAULT_SPEED
    && 0 <= s.updateCounter < s.speed
    && (s.gameOver ==> s.updateCounter == 0)
    && InBounds(s.food.position)
    && s.score >= 0
    && IsUnit(s.direction)
    && NoReversal(s)
    && Connected(s.body)
    && |s.body| <= BOARD_WIDTH * BOARD_HEIGHT + 1
    && (!s.gameOver ==> AllInBounds(s.body) && Distinct(s.body))
  }

  predicate InputsOk(inputs: seq<Input>)
  {
    forall i :: 0 <= i < |inputs| ==> InBounds(inputs[i].foodChoice)
  }

  lemma InitialInv(choice: Point)
    requires InBounds(choice)
    ensures Inv(Initial(choice))
  {
    StartIsCentre();
  }

  /** A step whose new head is on the board and off the rest of the body keeps the body on the board and without repeated cells. */
  lemma MoveKeepsDistinctOnBoard(body: seq<Point>, direction: Point, growCounter: int)
    requires |body| >= 1 && AllInBounds(body) && Distinct(body)
    requires !Collides(MovedBody(body, direction, growCounter), Plus(body[0], direction))
    ensures AllInBounds(MovedBody(body, direction, growCounter))
    ensures Distinct(MovedBody(body, direction, growCounter))
  {
    var moved := MovedBody(body, direction, growCounter);
    forall i | 0 <= i < |moved| ensures InBounds(moved[i]) {
      if i > 0 { assert moved[i] == body[i - 1]; }
    }
    forall i, j | 0 <= i < j < |moved| ensures moved[i] != moved[j] {
      if i == 0 {
        assert moved[j] == moved[1..][j - 1];
      } else {
        assert moved[i] == body[i - 1] && moved[j] == body[j - 1];
      }
    }
  }

  /** A tick keeps the invariant: in particular a snake still in play is on the board, without repeated cells. */
  lemma TickPreservesInv(s: GameState, input: Input)
    requires Inv(s) && !s.gameOver && s.updateCounter == 0 && InBounds(input.foodChoice)
    ensures Inv(Tick(s, input))
  {
    var r := Tick(s, input);
    var body := MovedBody(s.body, s.direction, s.growCounter);
    assert r.body == body;
    MovePreservesConnected(s.body, s.direction, s.growCounter);
    LengthFitsBoard(s);
    if |body| >= 2 {
      assert body[1] == s.body[0];
      assert r.direction != Neg(s.direction);
    }
    if !r.gameOver {
      MoveKeepsDistinctOnBoard(s.body, s.direction, s.growCounter);
    }
  }

  lemma UpdatePreservesInv(s: GameState, input: Input)
    requires Inv(s) && InBounds(input.foodChoice)
    ensures Inv(Update(s, input))
  {
    if s.gameOver && input.restartPressed {
      StartIsCentre();
    } else if !s.gameOver && s.updateCounter + 1 >= s.speed {
      TickPreservesInv(s.(updateCounter := 0), input);
    }
  }

  /** The state after the frames `inputs`, one `Update` each. */
  function Run(s: GameState, inputs: seq<Input>): (r: GameState)
    requires Inv(s) && InputsOk(inputs)
    ensures Inv(r)
    decreases |inputs|
  {
    if inputs == [] then s
    else
      UpdatePreservesInv(s, inputs[0]);
      Run(Update(s, inputs[0]), inputs[1..])
  }

  /**
   * From the state set up at the start, whatever the keys and the random
   * choices: the speed is in [2, 10], the food is on the board, consecutive
   * body cells share a side, a snake still in play fits on the 64 x 48 board,
   * and a finished one has at most one cell more.
   */
  lemma ReachableStates(choice: Point, inputs: seq<Input>)
    requires InBounds(choice) && InputsOk(inputs)
    ensures var s := Run(Initial(choice), inputs);
      && MIN_SPEED <= s.speed <= DEFAULT_SPEED
      && InBounds(s.food.position)
      && 1 <= |s.body| <= BOARD_WIDTH * BOARD_HEIGHT + 1
      && Connected(s.body)
      && (!s.gameOver ==> |s.body| <= BOARD_WIDTH * BOARD_HEIGHT)
  {
    InitialInv(choice);
    LengthFitsBoard(Run(Initial(choice), inputs));
  }

  /**
   * A snake that fills the board with growth pending ends the game on its
   * next tick, with one cell more than the board has: the head, wherever it
   * goes, leaves the board or meets the body, and the tail is kept.
   */
  lemma FullBoardDeathOverflows(s: GameState, input: Input)
    requires Inv(s) && !s.gameOver && |s.body| == BOARD_WIDTH * BOARD_HEIGHT && s.growCounter > 0
    requires s.updateCounter + 1 >= s.speed && InBounds(input.foodChoice)
    ensures Update(s, input).gameOver && |Update(s, input).body| == BOARD_WIDTH * BOARD_HEIGHT + 1
  {
    UpdatePreservesInv(s, input);
    LengthFitsBoard(Update(s, input));
  }

  /** A snake in play has pairwise distinct cells on the board, so it has at most 64 * 48 of them. */
  lemma LengthFitsBoard(s: GameState)
    requires Inv(s)
    ensures !s.gameOver ==> |s.body| <= BOARD_WIDTH * BOARD_HEIGHT
  {
    if !s.gameOver {
      DistinctCellsFitBoard(s.body);
    }
  }

  predicate NoRestartKey(inputs: seq<Input>)
  {
    forall i :: 0 <= i < |inputs| ==> !inputs[i].restartPressed
  }

  /** A frame that does not restart the game never lowers the score and raises it by at most one. */
  lemma ScoreStep(s: GameState, input: Input)
    requires |s.body| >= 1 && InBounds(input.foodChoice) && !(s.gameOver && input.restartPressed)
    ensures s.score <= Update(s, input).score <= s.score + 1
  {
  }

  /** No frame of the run restarts the game: R is pressed, if at all, only while the game is in play. */
  predicate NoRestartIn(s: GameState, inputs: seq<Input>)
    requires Inv(s) && InputsOk(inputs)
    decreases |inputs|
  {
    inputs == []
    || (&& !(s.gameOver && inputs[0].restartPressed)
        && (UpdatePreservesInv(s, inputs[0]);
            NoRestartIn(Update(s, inputs[0]), inputs[1..])))
  }

  /** Within one life the score never falls, and it rises by at most one per frame. */
  lemma {:induction false} ScoreNeverDecreases(s: GameState, inputs: seq<Input>)
    requires Inv(s) && InputsOk(inputs) && NoRestartIn(s, inputs)
    ensures s.score <= Run(s, inputs).score <= s.score + |inputs|
    decreases |inputs|
  {
    if inputs != [] {
      UpdatePreservesInv(s, inputs[0]);
      ScoreStep(s, inputs[0]);
      ScoreNeverDecreases(Update(s, inputs[0]), inputs[1..]);
    }
  }

  /** A finished game stays exactly as it is, frame after frame, until the restart key is pressed. */
  lemma {:induction false} GameOverWaitsForRestart(s: GameState, inputs: seq<Input>)
    requires Inv(s) && s.gameOver && InputsOk(inputs) && NoRestartKey(inputs)
    ensures Run(s, inputs) == s
    decreases |inputs|
  {
    if inputs != [] {
      assert InputsOk(inputs[1..]) && NoRestartKey(inputs[1..]) by {
        forall i | 0 <= i < |inputs[1..]| ensures InBounds(inputs[1..][i].foodChoice) && !inputs[1..][i].restartPressed {
          assert inputs[1..][i] == inputs[i + 1];
        }
      }
      GameOverWaitsForRestart(s, inputs[1..]);
    }
  }

  /**
   * Restart leaves the frame counter alone, but a finished game always has
   * its counter at 0, so restarting it gives exactly the initial state.
   */
  lemma RestartGivesInitialState(s: GameState, input: Input)
    requires Inv(s) && s.gameOver && input.restartPressed && InBounds(input.foodChoice)
    ensures Update(s, input) == Initial(input.foodChoice)
  {
  }

  /** The restart key does nothing to a game in play. */
  lemma RestartKeyIgnoredInPlay(s: GameState, input: Input)
    requires |s.body| >= 1 && !s.gameOver && InBounds(input.foodChoice)
    ensures Update(s, input) == Update(s, input.(restartPressed := true))
    ensures Update(s, input) == Update(s, input.(restartPressed := false))
  {
  }

  /** Eating `|choices|` food items in a row, the i-th replacement food at `choices[i]`. */
  function Feed(s: GameState, choices: seq<Point>): GameState
    requires AllInBounds(choices)
    decreases |choices|
  {
    if choices == [] then s
    else Feed(CheckFoodConsumption(s, s.food.position, choices[0]), choices[1..])
  }

  function Max(a: int, b: int): int { if a < b then b else a }

  /** Each meal adds one point and one unit of growth and takes one frame off the speed, down to 2 and no further. */
  lemma {:induction false} FeedEffect(s: GameState, choices: seq<Point>)
    requires AllInBounds(choices) && s.speed >= MIN_SPEED
    ensures Feed(s, choices).score == s.score + |choices|
    ensures Feed(s, choices).growCounter == s.growCounter + |choices|
    ensures Feed(s, choices).speed == Max(MIN_SPEED, s.speed - |choices|)
    ensures Feed(s, choices).body == s.body && Feed(s, choices).gameOver == s.gameOver
    decreases |choices|
  {
    if choices != [] {
      var next := CheckFoodConsumption(s, s.food.position, choices[0]);
      assert AllInBounds(choices[1..]) by {
        forall i | 0 <= i < |choices[1..]| ensures InBounds(choices[1..][i]) {
          assert choices[1..][i] == choices[i + 1];
        }
      }
      FeedEffect(next, choices[1..]);
    }
  }

  /** From the default speed 10, eight meals bring the speed to 2, where it stays. */
  lemma SpeedAfterMeals(s: GameState, choices: seq<Point>)
    requires AllInBounds(choices) && s.speed == DEFAULT_SPEED
    ensures |choices| <= 8 ==> Feed(s, choices).speed == DEFAULT_SPEED - |choices|
    ensures |choices| >= 8 ==> Feed(s, choices).speed == MIN_SPEED
  {
    FeedEffect(s, choices);
  }

  // Scenarios. `Playing` builds a game in play one frame before a tick: the next `Update` plays the tick.

  function Playing(body: seq<Point>, direction: Point, food: Point): GameState
  {
    GameState(body, direction, 0, Food(food), 3, false, DEFAULT_SPEED - 1, DEFAULT_SPEED)
  }

  /** A snake at the right edge heading right dies on the next tick, whatever keys are held. */
  lemma WallScenario(keys: Keys, choice: Point)
    requires InBounds(choice)
    ensures Update(Playing([Point(63, 24)], RIGHT, Point(0, 0)), Input(keys, false, choice)).gameOver
  {
  }

  /** Heading down from (5, 5) leads the head onto its own body: game over. */
  lemma SelfCollisionScenario(choice: Point)
    requires InBounds(choice)
    ensures var s := Playing([Point(5, 5), Point(6, 5), Point(6, 6), Point(5, 6), Point(4, 6)], DOWN, Point(0, 0));
      var r := Update(s, Input(Keys(false, false, false, false), false, choice));
      r.gameOver && r.speed == DEFAULT_SPEED && r.score == s.score
  {
    var s := Playing([Point(5, 5), Point(6, 5), Point(6, 6), Point(5, 6), Point(4, 6)], DOWN, Point(0, 0));
    var moved := MovedBody(s.body, DOWN, 0);
    assert moved == [Point(5, 6), Point(5, 5), Point(6, 5), Point(6, 6), Point(5, 6)];
    assert moved[4] == moved[0];
    assert Collides(moved, moved[0]);
  }

  /** The food check runs after a collision in the same tick: a snake that bites itself where the food lies still scores and speeds up. */
  lemma DeathTickStillEats(choice: Point)
    requires InBounds(choice)
    ensures var s := Playing([Point(5, 5), Point(6, 5), Point(6, 6), Point(5, 6), Point(4, 6)], DOWN, Point(5, 6));
      var r := Update(s, Input(Keys(false, false, false, false), false, choice));
      r.gameOver && r.score == s.score + 1 && r.speed == DEFAULT_SPEED - 1 && r.growCounter == 1
  {
    var s := Playing([Point(5, 5), Point(6, 5), Point(6, 6), Point(5, 6), Point(4, 6)], DOWN, Point(5, 6));
    var moved := MovedBody(s.body, DOWN, 0);
    assert moved == [Point(5, 6), Point(5, 5), Point(6, 5), Point(6, 6), Point(5, 6)];
    assert moved[4] == moved[0];
    assert Collides(moved, moved[0]);
  }

  /** An arrow key pressed on the frame of a tick steers the tick after it, not this one. */
  lemma KeyTakesEffectNextTick(choice: Point)
    requires InBounds(choice)
    ensures var r := Update(Playing([Point(10, 10)], RIGHT, Point(0, 0)), Input(Keys(false, false, true, false), false, choice));
      r.body == [Point(11, 10)] && r.direction == UP && !r.gameOver
  {
  }

  /** Dying at the wall and pressing R: play resumes with score 0 at the default speed and a one-cell snake at the centre. */
  lemma EndToEndScenario(keys: Keys, choice: Point, next: Point)
    requires InBounds(choice) && InBounds(next)
    ensures var dead := Update(Playing([Point(63, 24)], RIGHT, Point(0, 0)), Input(keys, false, choice));
      var again := Update(dead, Input(keys, true, next));
      dead.gameOver && !again.gameOver && again.score == 0 && again.speed == DEFAULT_SPEED
      && again.body == [START] && again.food.position == next
  {
  }
}
