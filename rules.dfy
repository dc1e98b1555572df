/**
 * The rules of one tick of the snake engine, stated on values: the engine's
 * fields as a `Game`, input checking, steering, the collision order and the
 * move. The `Snake` class is specified against `Step`; the lemmas here say
 * what every tick preserves.
 */
module Rules {
  import opened Wrappers
  import opened Geometry
  import Board

  datatype SnakeState = Running | Dead

  /**
   * How a call of `tick` ends: it completes, it throws `Invalid input`, or
   * it eats with no cell left for a new apple, where the engine's sampling
   * loop never returns.
   */
  datatype TickResult = Completed | InvalidInput | NoFreeCell

  /** The engine's fields: board size, body (head first), apples, velocity, state. */
  datatype Game = Game(size: Vector2, snake: seq<Vector2>, apples: seq<Vector2>, velocity: Vector2, state: SnakeState)

  /** The starting cell `(floor(w / 2), floor(h / 2))`. */
  function Center(size: Vector2): (c: Vector2)
    ensures 2 * c.x <= size.x < 2 * c.x + 2 && 2 * c.y <= size.y < 2 * c.y + 2
    ensures size.x >= 1 && size.y >= 1 ==> InBounds(c, size)
  {
    Vector2(size.x / 2, size.y / 2)
  }

  /** The state a new engine starts in, before any apple is placed. */
  function Initial(size: Vector2): Game {
    Game(size, [Center(size)], [], Vector2(1, 0), Running)
  }

  /** An input the tick accepts: no diagonal and no component beyond magnitude one. */
  predicate ValidInput(i: Vector2): (b: bool)
    ensures b <==> i == Vector2(0, 0) || IsUnit(i)
  {
    !(i.x != 0 && i.y != 0) && !(i.x > 1 || i.x < -1 || i.y > 1 || i.y < -1)
  }

  /**
   * The velocity after an input: the input, unless there is none, it is zero
   * or it turns the snake straight back.
   */
  function Steer(v: Vector2, input: Option<Vector2>): (r: Vector2)
    ensures r == v || (input.Some? && r == input.value)
    ensures IsUnit(v) ==> r != Neg(v)
    ensures IsUnit(v) && (input.None? || ValidInput(input.value)) ==> IsUnit(r)
    ensures input.Some? && input.value != Vector2(0, 0) && input.value != Neg(v) ==> r == input.value
  {
    match input
    case None => v
    case Some(i) =>
      if (i.x == 0 && i.y == 0) || (i.x == v.x * -1 && i.y == v.y * -1) then v else i
  }

  function Steered(g: Game, input: Option<Vector2>): Game {
    g.(velocity := Steer(g.velocity, input))
  }

  function NextHead(g: Game): Vector2
    requires |g.snake| >= 1
  {
    Add(g.snake[0], g.velocity)
  }

  /** What the next head runs into, tested in the engine's order. */
  datatype Move = HitSelf | HitWall | Eat | Slide

  function Classify(g: Game): (r: Move)
    requires |g.snake| >= 1
    ensures r == HitSelf <==> NextHead(g) in g.snake
    ensures r == HitWall <==> NextHead(g) !in g.snake && !InBounds(NextHead(g), g.size)
    ensures r == Eat <==>
      NextHead(g) !in g.snake && InBounds(NextHead(g), g.size) && NextHead(g) in g.apples
  {
    var head := NextHead(g);
    if head in g.snake then HitSelf
    else if head.x >= g.size.x || head.x < 0 || head.y >= g.size.y || head.y < 0 then HitWall
    else if head in g.apples then Eat
    else Slide
  }

  /** The head moved onto an apple and the apple removed, before a new one is placed. */
  function Eaten(g: Game): Game
    requires |g.snake| >= 1 && Classify(g) == Eat
  {
    var head := NextHead(g);
    g.(snake := [head] + g.snake, apples := RemoveAt(g.apples, IndexOf(g.apples, head)))
  }

  /** The move of a tick, with `placed` the replacement apple if one is eaten. */
  function Advance(g: Game, placed: Vector2): (r: Game)
    requires |g.snake| >= 1
    ensures r.size == g.size && r.velocity == g.velocity && |r.snake| >= 1
    ensures Classify(g) == HitWall ==> r.snake == g.snake && r.state == Dead
    ensures Classify(g) != HitWall ==> r.snake[0] == NextHead(g)
    ensures Classify(g) != Eat ==> r.apples == g.apples
  {
    var head := NextHead(g);
    match Classify(g)
    case HitSelf => g.(snake := [head] + g.snake, state := Dead)
    case HitWall => g.(state := Dead)
    case Eat => var e := Eaten(g); e.(apples := e.apples + [placed])
    case Slide => g.(snake := [head] + g.snake[..|g.snake| - 1])
  }

  /**
   * One tick: nothing once dead, no state at all (`tick` throws) for a
   * bad input, otherwise steer and move.
   */
  function Step(g: Game, input: Option<Vector2>, placed: Vector2): (r: Option<Game>)
    requires |g.snake| >= 1
    ensures r.Some? ==> r.value.size == g.size && |r.value.snake| >= 1
    ensures r.Some? && r.value.state == Running ==> g.state == Running
  {
    if g.state != Running then Some(g)
    else if input.Some? && !ValidInput(input.value) then None
    else Some(Advance(Steered(g, input), placed))
  }

  /** The state at which the tick looks for a replacement apple, if it eats one. */
  function Meal(g: Game, input: Option<Vector2>): Option<Game>
    requires |g.snake| >= 1
  {
    if g.state == Running && (input.None? || ValidInput(input.value)) && Classify(Steered(g, input)) == Eat
    then Some(Eaten(Steered(g, input)))
    else None
  }

  /** `c` is a cell a new apple may take in `g`. */
  predicate Free(g: Game, c: Vector2) {
    InBounds(c, g.size) && c !in g.snake && c !in g.apples
  }

  /** The replacement apple, when the tick eats one, goes to a free cell. */
  predicate PlacedFits(g: Game, input: Option<Vector2>, placed: Vector2)
    requires |g.snake| >= 1
  {
    Meal(g, input).Some? ==> Free(Meal(g, input).value, placed)
  }

  /**
   * What every state of the engine satisfies. The body is always on the
   * board and, while running, without repeats; only the killing tick of a
   * self-collision leaves the new head doubled. Apples are on the board,
   * distinct and off the body.
   */
  ghost predicate Inv(g: Game) {
    g.size.x >= 1 && g.size.y >= 1 && |g.snake| >= 1 && IsUnit(g.velocity) &&
    AllInBounds(g.snake, g.size) &&
    (g.state == Running ==> Distinct(g.snake)) &&
    (g.state == Dead ==> Distinct(g.snake) || (Distinct(g.snake[1..]) && g.snake[0] in g.snake[1..])) &&
    AllInBounds(g.apples, g.size) && Distinct(g.apples) && Disjoint(g.apples, g.snake)
  }

  lemma InitialInv(size: Vector2)
    requires size.x >= 1 && size.y >= 1
    ensures Inv(Initial(size))
    ensures Initial(size).snake == [Center(size)] && Initial(size).velocity == Vector2(1, 0)
  {
  }

  lemma EatenInv(g: Game)
    requires Inv(g) && g.state == Running && Classify(g) == Eat
    ensures Inv(Eaten(g)) && Eaten(g).state == Running
    ensures |Eaten(g).snake| == |g.snake| + 1 && |Eaten(g).apples| == |g.apples| - 1
  {
    var head := NextHead(g);
    var i := IndexOf(g.apples, head);
    var e := Eaten(g);
    PrependDistinct(head, g.snake);
    RemoveAtDistinct(g.apples, i);
    forall k | 0 <= k < |e.apples| ensures e.apples[k] !in e.snake {
      var p := e.apples[k];
      assert p in g.apples;
      assert p != head;
    }
    forall k | 0 <= k < |e.apples| ensures InBounds(e.apples[k], e.size) {
      assert e.apples[k] in g.apples;
    }
  }

  lemma PlaceInv(e: Game, placed: Vector2)
    requires Inv(e) && e.state == Running && Free(e, placed)
    ensures Inv(e.(apples := e.apples + [placed]))
  {
    var a := e.apples + [placed];
    forall i, j | 0 <= i < j < |a| ensures a[i] != a[j] {
      if j == |a| - 1 {
        assert a[i] == e.apples[i];
      }
    }
  }

  lemma SlideInv(g: Game)
    requires Inv(g) && g.state == Running && Classify(g) == Slide
    ensures Inv(Advance(g, Vector2(0, 0)))
  {
    var head := NextHead(g);
    var body := g.snake[..|g.snake| - 1];
    assert forall p :: p in body ==> p in g.snake;
    assert Distinct(body);
    PrependDistinct(head, body);
    var s := [head] + body;
    forall k | 0 <= k < |g.apples| ensures g.apples[k] !in s {
      assert g.apples[k] != head;
      assert g.apples[k] !in body;
    }
  }

  lemma HitSelfInv(g: Game)
    requires Inv(g) && g.state == Running && Classify(g) == HitSelf
    ensures Inv(Advance(g, Vector2(0, 0)))
    ensures Advance(g, Vector2(0, 0)).snake[0] in Advance(g, Vector2(0, 0)).snake[1..]
    ensures Advance(g, Vector2(0, 0)).apples == g.apples
  {
    var head := NextHead(g);
    var s := [head] + g.snake;
    assert s[1..] == g.snake;
    forall k | 0 <= k < |g.apples| ensures g.apples[k] !in s {
      assert g.apples[k] != head;
    }
  }

  /** A tick that completes keeps the invariant, whatever the input. */
  lemma StepPreservesInv(g: Game, input: Option<Vector2>, placed: Vector2)
    requires Inv(g) && PlacedFits(g, input, placed) && Step(g, input, placed).Some?
    ensures Inv(Step(g, input, placed).value)
  {
    if g.state == Running {
      var h := Steered(g, input);
      assert Inv(h);
      match Classify(h)
      case HitSelf => HitSelfInv(h);
      case HitWall =>
      case Eat =>
        EatenInv(h);
        PlaceInv(Eaten(h), placed);
      case Slide => SlideInv(h);
    }
  }

  /** A tick from a dead state changes nothing: death is final. */
  lemma DeadIsFinal(g: Game, input: Option<Vector2>, placed: Vector2)
    requires |g.snake| >= 1 && g.state == Dead
    ensures Step(g, input, placed) == Some(g)
  {
  }

  /** The tick rejects exactly the diagonal and over-long inputs, and only while running. */
  lemma RejectsExactlyInvalid(g: Game, input: Option<Vector2>, placed: Vector2)
    requires |g.snake| >= 1
    ensures Step(g, input, placed).None? <==>
      g.state == Running && input.Some? && ((input.value.x != 0 && input.value.y != 0) ||
        input.value.x > 1 || input.value.x < -1 || input.value.y > 1 || input.value.y < -1)
  {
  }

  /**
   * The two deaths: a self-collision puts the fatal head in front, so that
   * it appears twice; leaving the board keeps body and apples. Neither
   * touches the apples.
   */
  lemma DeathOutcomes(g: Game, input: Option<Vector2>, placed: Vector2)
    requires Inv(g) && g.state == Running && Step(g, input, placed).Some?
    requires Step(g, input, placed).value.state == Dead
    ensures var g' := Step(g, input, placed).value;
      var head := Add(g.snake[0], g'.velocity);
      g'.apples == g.apples && g'.velocity == Steer(g.velocity, input) &&
      ((head in g.snake && g'.snake == [head] + g.snake && g'.snake[0] in g'.snake[1..]) ||
       (head !in g.snake && !InBounds(head, g.size) && g'.snake == g.snake))
  {
    var h := Steered(g, input);
    if Classify(h) == HitSelf {
      assert ([NextHead(h)] + g.snake)[1..] == g.snake;
    }
  }

  /**
   * Running into the body kills: the fatal head is still put in front, and
   * only velocity, body and state change.
   */
  lemma HitSelfKills(g: Game, input: Option<Vector2>, placed: Vector2)
    requires Inv(g) && g.state == Running && (input.None? || ValidInput(input.value))
    requires Add(g.snake[0], Steer(g.velocity, input)) in g.snake
    ensures var v := Steer(g.velocity, input);
      Step(g, input, placed) == Some(g.(velocity := v, snake := [Add(g.snake[0], v)] + g.snake, state := Dead))
  {
    assert Classify(Steered(g, input)) == HitSelf;
  }

  /**
   * Leaving the board kills: the body stays where it was, and only velocity
   * and state change.
   */
  lemma LeavingBoardKills(g: Game, input: Option<Vector2>, placed: Vector2)
    requires Inv(g) && g.state == Running && (input.None? || ValidInput(input.value))
    requires var head := Add(g.snake[0], Steer(g.velocity, input));
      head !in g.snake && !InBounds(head, g.size)
    ensures Step(g, input, placed) == Some(g.(velocity := Steer(g.velocity, input), state := Dead))
  {
    assert Classify(Steered(g, input)) == HitWall;
  }

  /**
   * Eating: the snake stays alive and grows by the new head, which was an
   * apple; that apple leaves the apple list and the replacement joins it.
   */
  lemma EatMoves(g: Game, input: Option<Vector2>, placed: Vector2)
    requires Inv(g) && Meal(g, input).Some?
    ensures Step(g, input, placed).Some?
    ensures var g' := Step(g, input, placed).value;
      var head := Add(g.snake[0], g'.velocity);
      g'.state == Running && g'.snake == [head] + g.snake && head in g.apples &&
      multiset(g'.apples) == multiset(g.apples) - multiset{head} + multiset{placed}
  {
    var h := Steered(g, input);
    assert Classify(h) == Eat;
    var e := Eaten(h);
    var head := NextHead(h);
    assert multiset(e.apples) == multiset(g.apples) - multiset{head};
    assert multiset(e.apples + [placed]) == multiset(e.apples) + multiset{placed};
  }

  /**
   * Growth: a tick that eats makes the body one longer, any other tick
   * that keeps the snake alive leaves its length alone; the apple count
   * stays the same either way. The replacement apple has no influence on
   * the length.
   */
  lemma GrowthLaw(g: Game, input: Option<Vector2>, placed: Vector2)
    requires Inv(g) && g.state == Running && Step(g, input, placed).Some?
    requires Step(g, input, placed).value.state == Running
    ensures var g' := Step(g, input, placed).value;
      |g'.snake| == |g.snake| + (if Meal(g, input).Some? then 1 else 0) &&
      |g'.apples| == |g.apples|
  {
    var h := Steered(g, input);
    if Classify(h) == Eat {
      EatenInv(h);
    }
  }

  /**
   * A tick that neither eats nor dies translates the snake: a new head one
   * velocity step ahead, the old body without its last segment behind it.
   */
  lemma SlideMoves(g: Game, input: Option<Vector2>, placed: Vector2)
    requires Inv(g) && g.state == Running && Step(g, input, placed).Some?
    requires Step(g, input, placed).value.state == Running && Meal(g, input).None?
    ensures var g' := Step(g, input, placed).value;
      g'.snake[0] == Add(g.snake[0], g'.velocity) && g'.snake[1..] == g.snake[..|g.snake| - 1] &&
      g'.apples == g.apples && g'.snake[0] !in g.apples
  {
    var h := Steered(g, input);
    assert Classify(h) == Slide;
    var g' := Step(g, input, placed).value;
    assert g'.snake == [NextHead(h)] + g.snake[..|g.snake| - 1];
  }

  /** A running engine never holds more segments and apples than the board has cells. */
  lemma CountBound(g: Game)
    requires Inv(g) && g.state == Running
    ensures |g.snake| + |g.apples| <= g.size.x * g.size.y
  {
    Board.CountBound(g.size, g.snake, g.apples);
  }

  /**
   * When a tick eats an apple, a cell for the replacement exists exactly
   * when the board is not full.
   */
  lemma MealRoom(g: Game, input: Option<Vector2>)
    requires Inv(g) && Meal(g, input).Some?
    ensures var m := Meal(g, input).value;
      Inv(m) && m.state == Running && |m.snake| + |m.apples| == |g.snake| + |g.apples| &&
      ((exists c :: Free(m, c)) <==> |m.snake| + |m.apples| < m.size.x * m.size.y)
  {
    var h := Steered(g, input);
    EatenInv(h);
    var m := Eaten(h);
    if |m.snake| + |m.apples| < m.size.x * m.size.y {
      Board.FreeCellExists(m.size, m.snake, m.apples);
      var c :| InBounds(c, m.size) && c !in m.snake && c !in m.apples;
      assert Free(m, c);
    } else {
      Board.BoardFull(m.size, m.snake, m.apples);
    }
  }
}
