/** Concrete games on small boards, worked through the tick rules. */
module Scenarios {
  import opened Wrappers
  import opened Geometry
  import opened Rules
  import opened Random
  import opened SnakeCore

  /**
   * A 5 by 5 board without apples: the snake starts at (2, 2) heading
   * right, reaches (3, 2) and (4, 2), then dies at the edge with its length
   * still one and its head not moved off the board; further ticks change
   * nothing.
   */
  lemma RunsOffTheEdge(placed: Vector2)
    ensures Initial(Vector2(5, 5)) == Game(Vector2(5, 5), [Vector2(2, 2)], [], Vector2(1, 0), Running)
    ensures Step(Initial(Vector2(5, 5)), None, placed) == Some(Game(Vector2(5, 5), [Vector2(3, 2)], [], Vector2(1, 0), Running))
    ensures Step(Game(Vector2(5, 5), [Vector2(3, 2)], [], Vector2(1, 0), Running), None, placed)
      == Some(Game(Vector2(5, 5), [Vector2(4, 2)], [], Vector2(1, 0), Running))
    ensures Step(Game(Vector2(5, 5), [Vector2(4, 2)], [], Vector2(1, 0), Running), None, placed)
      == Some(Game(Vector2(5, 5), [Vector2(4, 2)], [], Vector2(1, 0), Dead))
    ensures Step(Game(Vector2(5, 5), [Vector2(4, 2)], [], Vector2(1, 0), Dead), None, placed)
      == Some(Game(Vector2(5, 5), [Vector2(4, 2)], [], Vector2(1, 0), Dead))
  {
    var g0 := Game(Vector2(5, 5), [Vector2(2, 2)], [], Vector2(1, 0), Running);
    var g1 := Game(Vector2(5, 5), [Vector2(3, 2)], [], Vector2(1, 0), Running);
    var g2 := Game(Vector2(5, 5), [Vector2(4, 2)], [], Vector2(1, 0), Running);
    assert NextHead(g0) == Vector2(3, 2) && Classify(g0) == Slide;
    assert [Vector2(3, 2)] + g0.snake[..0] == [Vector2(3, 2)];
    assert NextHead(g1) == Vector2(4, 2) && Classify(g1) == Slide;
    assert [Vector2(4, 2)] + g1.snake[..0] == [Vector2(4, 2)];
    assert NextHead(g2) == Vector2(5, 2) && Classify(g2) == HitWall;
  }

  /** Turning straight back is ignored: the snake keeps heading right. */
  lemma ReversalIgnored(placed: Vector2)
    ensures Step(Initial(Vector2(5, 5)), Some(Vector2(-1, 0)), placed)
      == Some(Game(Vector2(5, 5), [Vector2(3, 2)], [], Vector2(1, 0), Running))
  {
    var g0 := Game(Vector2(5, 5), [Vector2(2, 2)], [], Vector2(1, 0), Running);
    assert Steer(Vector2(1, 0), Some(Vector2(-1, 0))) == Vector2(1, 0);
    assert NextHead(g0) == Vector2(3, 2) && Classify(g0) == Slide;
    assert [Vector2(3, 2)] + g0.snake[..0] == [Vector2(3, 2)];
  }

  /** A diagonal input is refused while running. */
  lemma DiagonalRefused(g: Game, placed: Vector2)
    requires |g.snake| >= 1 && g.state == Running
    ensures Step(g, Some(Vector2(1, 1)), placed) == None
  {
  }

  /**
   * A 3 by 3 board, the apple at (2, 2) and the head at (1, 2) heading
   * right: the snake grows to two segments, the apple is replaced by one
   * on any free cell, and free cells exist.
   */
  lemma EatsAndGrows(placed: Vector2)
    requires InBounds(placed, Vector2(3, 3)) && placed != Vector2(2, 2) && placed != Vector2(1, 2)
    ensures Step(Game(Vector2(3, 3), [Vector2(1, 2)], [Vector2(2, 2)], Vector2(1, 0), Running), None, placed)
      == Some(Game(Vector2(3, 3), [Vector2(2, 2), Vector2(1, 2)], [placed], Vector2(1, 0), Running))
    ensures exists c :: Free(Meal(Game(Vector2(3, 3), [Vector2(1, 2)], [Vector2(2, 2)], Vector2(1, 0), Running), None).value, c)
  {
    var g := Game(Vector2(3, 3), [Vector2(1, 2)], [Vector2(2, 2)], Vector2(1, 0), Running);
    var e := Game(Vector2(3, 3), [Vector2(2, 2), Vector2(1, 2)], [], Vector2(1, 0), Running);
    assert Meal(g, None) == Some(e) by {
      assert Steered(g, None) == g;
      assert NextHead(g) == Vector2(2, 2) && Vector2(2, 2) !in g.snake && g.apples[0] == Vector2(2, 2);
      assert Classify(g) == Eat;
      assert RemoveAt(g.apples, IndexOf(g.apples, Vector2(2, 2))) == [];
      assert Eaten(g) == e;
    }
    assert Free(e, Vector2(0, 0));
    assert Step(g, None, placed) == Some(e.(apples := [placed])) by {
      assert [] + [placed] == [placed];
      assert Steered(g, None) == g;
      assert Advance(g, placed) == e.(apples := [] + [placed]);
    }
  }

  /**
   * The tail counts as body: turning into the cell the tail is about to
   * leave kills the snake, and the fatal head is put in front of the body.
   */
  lemma TailCountsAsBody(placed: Vector2)
    ensures Step(Game(Vector2(3, 3), [Vector2(1, 1), Vector2(1, 0), Vector2(0, 0), Vector2(0, 1)], [], Vector2(0, 1), Running), Some(Vector2(-1, 0)), placed)
      == Some(Game(Vector2(3, 3), [Vector2(0, 1), Vector2(1, 1), Vector2(1, 0), Vector2(0, 0), Vector2(0, 1)], [], Vector2(-1, 0), Dead))
  {
    var g0 := Game(Vector2(3, 3), [Vector2(1, 1), Vector2(1, 0), Vector2(0, 0), Vector2(0, 1)], [], Vector2(0, 1), Running);
    var g := Game(Vector2(3, 3), [Vector2(1, 1), Vector2(1, 0), Vector2(0, 0), Vector2(0, 1)], [], Vector2(-1, 0), Running);
    assert Steer(Vector2(0, 1), Some(Vector2(-1, 0))) == Vector2(-1, 0);
    assert Steered(g0, Some(Vector2(-1, 0))) == g;
    assert NextHead(g) == Vector2(0, 1) && g.snake[3] == Vector2(0, 1);
    assert Classify(g) == HitSelf;
    assert Advance(g, placed) == Game(Vector2(3, 3), [Vector2(0, 1), Vector2(1, 1), Vector2(1, 0), Vector2(0, 0), Vector2(0, 1)], [], Vector2(-1, 0), Dead);
    assert Step(g0, Some(Vector2(-1, 0)), placed) == Some(Advance(g, placed));
  }

  /**
   * A 3 by 1 board with two apples, which the constructor may build with
   * the apples at (0, 0) and (2, 0): the state is valid, and the first tick
   * eats and leaves no free cell, where the engine's sampling loop
   * never returns.
   */
  lemma FullBoardStalls()
    ensures Inv(Game(Vector2(3, 1), [Vector2(1, 0)], [Vector2(0, 0), Vector2(2, 0)], Vector2(1, 0), Running))
    ensures Meal(Game(Vector2(3, 1), [Vector2(1, 0)], [Vector2(0, 0), Vector2(2, 0)], Vector2(1, 0), Running), None)
      == Some(Game(Vector2(3, 1), [Vector2(2, 0), Vector2(1, 0)], [Vector2(0, 0)], Vector2(1, 0), Running))
    ensures forall c :: !Free(Game(Vector2(3, 1), [Vector2(2, 0), Vector2(1, 0)], [Vector2(0, 0)], Vector2(1, 0), Running), c)
  {
    var g := Game(Vector2(3, 1), [Vector2(1, 0)], [Vector2(0, 0), Vector2(2, 0)], Vector2(1, 0), Running);
    var m := Game(Vector2(3, 1), [Vector2(2, 0), Vector2(1, 0)], [Vector2(0, 0)], Vector2(1, 0), Running);
    assert Inv(g) by {
      assert Distinct(g.apples) && Disjoint(g.apples, g.snake);
    }
    FullBoardMeal();
    assert forall c :: !Free(m, c) by {
      forall c ensures !Free(m, c) {
        if InBounds(c, Vector2(3, 1)) {
          assert c.y == 0 && 0 <= c.x < 3;
          if c.x == 0 {
            assert c == m.apples[0];
          } else if c.x == 1 {
            assert c == m.snake[1];
          } else {
            assert c == m.snake[0];
          }
        }
      }
    }
  }

  /** The first tick on the full 3 by 1 board eats the apple at (2, 0). */
  lemma FullBoardMeal()
    ensures Meal(Game(Vector2(3, 1), [Vector2(1, 0)], [Vector2(0, 0), Vector2(2, 0)], Vector2(1, 0), Running), None)
      == Some(Game(Vector2(3, 1), [Vector2(2, 0), Vector2(1, 0)], [Vector2(0, 0)], Vector2(1, 0), Running))
  {
    var g := Game(Vector2(3, 1), [Vector2(1, 0)], [Vector2(0, 0), Vector2(2, 0)], Vector2(1, 0), Running);
    var head := Vector2(2, 0);
    assert Steered(g, None) == g;
    assert NextHead(g) == head && head !in g.snake && g.apples[1] == head;
    assert Classify(g) == Eat;
    var i := IndexOf(g.apples, head);
    assert i == 1 by {
      assert g.apples[0] != head;
    }
    assert RemoveAt(g.apples, i) == [Vector2(0, 0)] by {
      assert g.apples[..1] + g.apples[2..] == [Vector2(0, 0)];
    }
    assert [head] + g.snake == [Vector2(2, 0), Vector2(1, 0)];
    assert Eaten(g) == Game(Vector2(3, 1), [Vector2(2, 0), Vector2(1, 0)], [Vector2(0, 0)], Vector2(1, 0), Running);
  }

  /**
   * The 5 by 5 run through the engine itself: two ticks move the head to
   * (3, 2) and (4, 2), the third leaves the board and kills the snake
   * without adding a segment, the fourth does nothing.
   */
  method FiveByFiveEngine(rng: RandomSource)
    requires rng.Valid() && rng.Fair(Vector2(5, 5))
    modifies rng
  {
    var game := new Snake(Vector2(5, 5), rng, 0);
    assert game.Model() == Game(Vector2(5, 5), [Vector2(2, 2)], [], Vector2(1, 0), Running);
    assert Meal(game.Model(), None).None? by {
      assert Classify(game.Model()) == Slide;
    }
    var r, placed := game.Tick(None, rng);
    assert game.Model() == Game(Vector2(5, 5), [Vector2(3, 2)], [], Vector2(1, 0), Running) by {
      RunsOffTheEdge(placed);
    }
    assert Meal(game.Model(), None).None? by {
      assert NextHead(game.Model()) == Vector2(4, 2);
      assert Classify(game.Model()) == Slide;
    }
    r, placed := game.Tick(None, rng);
    assert game.Model() == Game(Vector2(5, 5), [Vector2(4, 2)], [], Vector2(1, 0), Running) by {
      RunsOffTheEdge(placed);
    }
    IntoTheWall(game, rng);
  }

  /** The last two ticks of the 5 by 5 run: the snake leaves the board, then nothing happens. */
  method IntoTheWall(game: Snake, rng: RandomSource)
    requires game.Valid() && game.Model() == Game(Vector2(5, 5), [Vector2(4, 2)], [], Vector2(1, 0), Running)
    requires rng.Valid() && rng.Fair(Vector2(5, 5))
    modifies game, rng
    ensures game.snake == [Vector2(4, 2)] && game.state == Dead
  {
    ghost var before := game.Model();
    assert Meal(before, None).None? by {
      assert Classify(before) == HitWall;
    }
    var r, placed := game.Tick(None, rng);
    assert r == Completed by {
      assert r != InvalidInput && r != NoFreeCell;
    }
    assert game.Model() == Game(Vector2(5, 5), [Vector2(4, 2)], [], Vector2(1, 0), Dead) by {
      RunsOffTheEdge(placed);
    }
    r, placed := game.Tick(None, rng);
    assert game.snake == [Vector2(4, 2)] && game.state == Dead && r == Completed;
  }
}
