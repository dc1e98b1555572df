/**
 * The game-state engine: the `Snake` class with its fields, the constructor,
 * `Tick` and the apple-placement loop. Every method is specified against the
 * tick rules of module `Rules`.
 */
module SnakeCore {
  import opened Wrappers
  import opened Geometry
  import opened Rules
  import opened Random
  import Board

  class Snake {
    var state: SnakeState
    const boardSize: Vector2
    var apples: seq<Vector2>
    /** The body, head at index 0. */
    var snake: seq<Vector2>
    var snakeVelocity: Vector2

    ghost function Model(): Game
      reads this
    {
      Game(boardSize, snake, apples, snakeVelocity, state)
    }

    ghost predicate Valid()
      reads this
    {
      Inv(Model())
    }

    /**
     * A running engine with a one-segment snake at the centre heading right
     * and `apples` apples (none for a negative count) on distinct free cells.
     * With as many apples as free cells or more, `GetValidApplePosition`
     * never returns, so the constructor asks for fewer.
     */
    constructor (boardSize: Vector2, rng: RandomSource, apples: int := 1)
      requires boardSize.x >= 1 && boardSize.y >= 1
      requires apples < boardSize.x * boardSize.y
      requires rng.Valid() && rng.Fair(boardSize)
      modifies rng
      ensures Valid()
      ensures this.boardSize == boardSize && state == Running
      ensures snake == [Center(boardSize)] && snakeVelocity == Vector2(1, 0)
      ensures |this.apples| == if apples < 0 then 0 else apples
    {
      state := Running;
      this.boardSize := boardSize;
      snake := [Vector2(boardSize.x / 2, boardSize.y / 2)];
      snakeVelocity := Vector2(1, 0);
      this.apples := [];
      new;
      var i := 0;
      while i < apples
        invariant Valid() && Model() == Initial(boardSize).(apples := this.apples)
        invariant 0 <= i && |this.apples| == i
        invariant apples >= 0 ==> i <= apples
        invariant apples < 0 ==> i == 0
      {
        var position := GetValidApplePosition(rng);
        PlaceInv(Model(), position);
        this.apples := this.apples + [position];
        i := i + 1;
      }
    }

    /**
     * Rejection sampling: draw cells until one is neither a segment nor an
     * apple. It starts from the head, which is always taken, so it draws at
     * least once; it ends because a free cell exists (the board holds more
     * cells than segments and apples) and the random source draws every cell again
     * from any point on.
     */
    method GetValidApplePosition(rng: RandomSource) returns (position: Vector2)
      requires Valid() && state == Running
      requires |snake| + |apples| < boardSize.x * boardSize.y
      requires rng.Valid() && rng.Fair(boardSize)
      modifies rng
      ensures Free(Model(), position)
      ensures rng.calls >= old(rng.calls)
    {
      Board.FreeCellExists(boardSize, snake, apples);
      ghost var target :| InBounds(target, boardSize) && target !in snake && target !in apples;
      ghost var start := rng.calls;
      assert rng.HitsFrom(target, boardSize, start);
      ghost var k: nat :| start <= k && (k - start) % 2 == 0 && rng.Drawn(k, boardSize) == target;
      ghost var pairs: nat := (k - start) / 2;
      assert k == start + 2 * pairs;
      ghost var drawn: nat := 0;
      position := snake[0];
      while position in snake || position in apples
        invariant rng.calls == start + 2 * drawn
        invariant drawn <= pairs || (drawn == pairs + 1 && position == target)
        invariant position == snake[0] || InBounds(position, boardSize)
        decreases pairs + 1 - drawn
      {
        ghost var i := rng.calls;
        var rx := rng.Next();
        var ry := rng.Next();
        position := Vector2(Scale(rx, boardSize.x), Scale(ry, boardSize.y));
        assert position == rng.Drawn(i, boardSize);
        rng.DrawnInBounds(i, boardSize);
        drawn := drawn + 1;
      }
    }

    /**
     * One tick. Once dead nothing changes; an invalid input is refused
     * before any field changes; otherwise the velocity is steered and the
     * move committed as `Step` says, `placed` being the replacement apple
     * if one is eaten. When the snake eats with no free cell left, the
     * sampling loop of `GetValidApplePosition` never returns: the model reports `NoFreeCell`
     * and leaves the fields as they are when that loop starts.
     */
    method Tick(input: Option<Vector2>, rng: RandomSource) returns (r: TickResult, ghost placed: Vector2)
      requires Valid() && rng.Valid() && rng.Fair(boardSize)
      modifies this, rng
      ensures Valid()
      ensures old(state) != Running ==> r == Completed && Model() == old(Model()) && rng.calls == old(rng.calls)
      ensures r == InvalidInput <==>
        old(state) == Running && input.Some? && !ValidInput(input.value)
      ensures r == InvalidInput ==> Model() == old(Model()) && rng.calls == old(rng.calls)
      ensures r == Completed ==> PlacedFits(old(Model()), input, placed) && Step(old(Model()), input, placed) == Some(Model())
      ensures r == NoFreeCell ==>
        Meal(old(Model()), input) == Some(Model()) && forall c :: InBounds(c, boardSize) ==> !Free(Model(), c)
    {
      placed := Vector2(0, 0);
      if state != Running {
        return Completed, placed;
      }

      if input.Some? {
        var i := input.value;
        if i.x != 0 && i.y != 0 {
          return InvalidInput, placed;
        }
        if i.x > 1 || i.x < -1 || i.y > 1 || i.y < -1 {
          return InvalidInput, placed;
        }
        snakeVelocity :=
          if (i.x == 0 && i.y == 0) || (i.x == snakeVelocity.x * -1 && i.y == snakeVelocity.y * -1)
          then snakeVelocity else i;
      }
      assert Model() == Steered(old(Model()), input);
      r, placed := Move(rng);
    }

    /**
     * The move of a running tick, once the velocity is set: collision with
     * the body first, then with the edge; then the head is committed and
     * the snake either eats an apple (and one is placed anew) or drops its
     * tail.
     */
    method Move(rng: RandomSource) returns (r: TickResult, ghost placed: Vector2)
      requires Valid() && state == Running && rng.Valid() && rng.Fair(boardSize)
      modifies this, rng
      ensures Valid()
      ensures r != InvalidInput
      ensures r == Completed ==>
        (Classify(old(Model())) == Eat ==> Free(Eaten(old(Model())), placed)) &&
        Model() == Advance(old(Model()), placed)
      ensures r == NoFreeCell ==>
        Classify(old(Model())) == Eat && Model() == Eaten(old(Model())) &&
        forall c :: InBounds(c, boardSize) ==> !Free(Model(), c)
    {
      placed := Vector2(0, 0);
      ghost var h := Model();
      var newPosition := Vector2(snake[0].x + snakeVelocity.x, snake[0].y + snakeVelocity.y);
      assert newPosition == NextHead(h);
      if newPosition in snake {
        HitSelfInv(h);
        snake := [newPosition] + snake;
        state := Dead;
        return Completed, placed;
      } else if newPosition.x >= boardSize.x || newPosition.x < 0 || newPosition.y >= boardSize.y || newPosition.y < 0 {
        state := Dead;
        return Completed, placed;
      } else {
        snake := [newPosition] + snake;
      }

      if newPosition in apples {
        assert Classify(h) == Eat;
        EatenInv(h);
        var appleIndex := IndexOf(apples, snake[0]);
        assert appleIndex == IndexOf(h.apples, NextHead(h));
        apples := RemoveAt(apples, appleIndex);
        assert snake == Eaten(h).snake && apples == Eaten(h).apples;
        assert Model() == Eaten(h);
        if |snake| + |apples| < boardSize.x * boardSize.y {
          var position := GetValidApplePosition(rng);
          PlaceInv(Model(), position);
          placed := position;
          apples := apples + [position];
        } else {
          Board.BoardFull(boardSize, snake, apples);
          return NoFreeCell, placed;
        }
      } else {
        SlideInv(h);
        snake := snake[..|snake| - 1];
      }
      r := Completed;
    }
  }
}
