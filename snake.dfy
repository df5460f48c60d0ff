/** The snake: its body (head first), its heading and its pending growth, and the steering rule. */
module Snakes {
  import opened Geometry

  /** The cell where a fresh snake starts: the centre of the board, (32, 24). */
  const START := Point(SCREEN_WIDTH / TILE_SIZE / 2, SCREEN_HEIGHT / TILE_SIZE / 2)

  lemma StartIsCentre()
    ensures START == Point(32, 24) && InBounds(START)
  {
  }

  /** The body after one step in `direction`: the new head in front, the tail kept only while growth is pending. */
  function MovedBody(body: seq<Point>, direction: Point, growCounter: int): (r: seq<Point>)
    requires |body| >= 1
    ensures |r| == if growCounter > 0 then |body| + 1 else |body|
    ensures r[0] == Plus(body[0], direction)
    ensures forall i :: 1 <= i < |r| ==> r[i] == body[i - 1]
  {
    var grown := [Plus(body[0], direction)] + body;
    if growCounter > 0 then grown else grown[..|grown| - 1]
  }

  /** Which of the four arrow keys are held during a tick. */
  datatype Keys = Keys(left: bool, right: bool, up: bool, down: bool)

  /** A horizontal key is honoured only while the snake moves vertically, and a vertical key only while it moves horizontally. */
  predicate HorizontalAllowed(d: Point) { d.x == 0 }
  predicate VerticalAllowed(d: Point) { d.y == 0 }

  /**
   * The heading after the arrow keys are read: the first honoured key in the
   * order Left, Right, Up, Down wins; with no honoured key the heading stays.
   */
  function NextDirection(d: Point, keys: Keys): (r: Point)
    // the result is the old heading or one of the four unit headings, never a reversal
    ensures r == d || IsUnit(r)
    ensures IsUnit(d) ==> IsUnit(r) && r != Neg(d)
    // a turn happens only through a held key that the axis lock honours
    ensures r != d && r == LEFT ==> keys.left && HorizontalAllowed(d)
    ensures r != d && r == RIGHT ==> keys.right && HorizontalAllowed(d)
    ensures r != d && r == UP ==> keys.up && VerticalAllowed(d)
    ensures r != d && r == DOWN ==> keys.down && VerticalAllowed(d)
    // with no honoured key the heading is unchanged
    ensures !((keys.left || keys.right) && HorizontalAllowed(d)) && !((keys.up || keys.down) && VerticalAllowed(d)) ==> r == d
    // priority Left, Right, Up, Down among the honoured keys
    ensures keys.left && HorizontalAllowed(d) ==> r == LEFT
    ensures keys.right && HorizontalAllowed(d) && !keys.left ==> r == RIGHT
    ensures keys.up && VerticalAllowed(d) && !((keys.left || keys.right) && HorizontalAllowed(d)) ==> r == UP
    ensures keys.down && VerticalAllowed(d) && !((keys.left || keys.right) && HorizontalAllowed(d)) && !keys.up ==> r == DOWN
  {
    if keys.left && d.x == 0 then LEFT
    else if keys.right && d.x == 0 then RIGHT
    else if keys.up && d.y == 0 then UP
    else if keys.down && d.y == 0 then DOWN
    else d
  }

  /** The axis lock allows only perpendicular turns: a horizontal heading stays or turns Up or Down, a vertical one stays or turns Left or Right. */
  lemma TurnsArePerpendicular(d: Point, keys: Keys)
    requires IsUnit(d)
    ensures (d == LEFT || d == RIGHT) ==> NextDirection(d, keys) == d || NextDirection(d, keys) == UP || NextDirection(d, keys) == DOWN
    ensures (d == UP || d == DOWN) ==> NextDirection(d, keys) == d || NextDirection(d, keys) == LEFT || NextDirection(d, keys) == RIGHT
  {
    var r := NextDirection(d, keys);
    if d == LEFT || d == RIGHT {
      assert !HorizontalAllowed(d);
      assert r == d || r == UP || r == DOWN;
    } else {
      assert !VerticalAllowed(d);
      assert r == d || r == LEFT || r == RIGHT;
    }
  }

  /** Consecutive body cells share a side. */
  predicate Connected(body: seq<Point>)
  {
    forall i :: 0 <= i < |body| - 1 ==> Adjacent(body[i], body[i + 1])
  }

  /** A step along a unit heading keeps a connected body connected. */
  lemma MovePreservesConnected(body: seq<Point>, direction: Point, growCounter: int)
    requires |body| >= 1 && Connected(body) && IsUnit(direction)
    ensures Connected(MovedBody(body, direction, growCounter))
  {
    var r := MovedBody(body, direction, growCounter);
    forall i | 0 <= i < |r| - 1 ensures Adjacent(r[i], r[i + 1]) {
      if i == 0 {
        assert r[1] == body[0];
        assert Point(r[0].x - r[1].x, r[0].y - r[1].y) == direction;
      } else {
        assert r[i] == body[i - 1] && r[i + 1] == body[i];
      }
    }
  }

  class Snake {
    var body: seq<Point>
    var direction: Point
    var growCounter: int

    /** A one-cell snake at the centre, heading right, with nothing pending. */
    constructor ()
      ensures body == [START] && direction == RIGHT && growCounter == 0
    {
      body := [START];
      direction := RIGHT;
      growCounter := 0;
    }

    /** One step: push the new head; drop the tail unless growth is pending, in which case consume one unit of it. */
    method Move()
      requires |body| >= 1
      modifies this
      ensures body == MovedBody(old(body), old(direction), old(growCounter))
      ensures growCounter == if old(growCounter) > 0 then old(growCounter) - 1 else old(growCounter)
      ensures direction == old(direction)
    {
      var newHead := Point(body[0].x + direction.x, body[0].y + direction.y);
      body := [newHead] + body;
      if growCounter > 0 {
        growCounter := growCounter - 1;
      } else {
        body := body[..|body| - 1];
      }
    }
  }
}
