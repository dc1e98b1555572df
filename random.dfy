/**
 * The random source behind apple placement. `Math.random()` is modelled as a
 * fixed, unknown stream of reals in `[0, 1)` read one number per call, and
 * `Math.floor(Math.random() * n)` as `Scale` of the next number.
 */
module Random {
  import opened Geometry

  /** `Math.floor(r * n)`, on exact reals. */
  function Scale(r: real, n: int): int {
    (r * n as real).Floor
  }

  lemma ScaleInRange(r: real, n: int)
    requires 0.0 <= r < 1.0 && n >= 1
    ensures 0 <= Scale(r, n) < n
  {
    var m := n as real;
    assert 0.0 <= r * m by {
      assert 0.0 <= m;
    }
    assert r * m < m by {
      assert (1.0 - r) * m > 0.0;
    }
  }

  class RandomSource {
    /** The numbers the source hands out, in order. */
    const value: nat -> real
    /** How many numbers have been drawn so far. */
    var calls: nat

    ghost predicate Valid() {
      forall i: nat :: 0.0 <= value(i) < 1.0
    }

    /**
     * The cell `{x: floor(random() * size.x), y: floor(random() * size.y)}`
     * built from the draws number `i` and `i + 1`.
     */
    function Drawn(i: nat, size: Vector2): Vector2 {
      Vector2(Scale(value(i), size.x), Scale(value(i + 1), size.y))
    }

    /** Some cell built from draw `start`, `start + 2`, `start + 4`, ... is `c`. */
    ghost predicate HitsFrom(c: Vector2, size: Vector2, start: nat) {
      exists j: nat :: start <= j && (j - start) % 2 == 0 && Drawn(j, size) == c
    }

    /**
     * From any point on, every cell of the board is drawn again: the
     * hypothesis under which rejection sampling ends (a uniform source has
     * it with probability one).
     */
    ghost predicate Fair(size: Vector2) {
      forall start: nat, c: Vector2 :: InBounds(c, size) ==> HitsFrom(c, size, start)
    }

    constructor (value: nat -> real)
      requires forall i: nat :: 0.0 <= value(i) < 1.0
      ensures Valid() && this.value == value && calls == 0
    {
      this.value := value;
      calls := 0;
    }

    /** `Math.random()`. */
    method Next() returns (r: real)
      requires Valid()
      modifies this
      ensures r == value(old(calls)) && 0.0 <= r < 1.0
      ensures calls == old(calls) + 1
    {
      r := value(calls);
      calls := calls + 1;
    }

    lemma DrawnInBounds(i: nat, size: Vector2)
      requires Valid() && size.x >= 1 && size.y >= 1
      ensures InBounds(Drawn(i, size), size)
    {
      ScaleInRange(value(i), size.x);
      ScaleInRange(value(i + 1), size.y);
    }
  }
}
