/**
 * Integer positions on the board and the sequence facts the engine relies on:
 * bounds, pairwise distinctness, first-index search (`findIndex`) and
 * removal of one element (`splice(i, 1)`).
 */
module Geometry {
  /** A board position, a velocity or a board size (`Vector2`). */
  datatype Vector2 = Vector2(x: int, y: int)

  function Add(a: Vector2, b: Vector2): Vector2 {
    Vector2(a.x + b.x, a.y + b.y)
  }

  /** The vector pointing the opposite way. */
  function Neg(v: Vector2): Vector2 {
    Vector2(v.x * -1, v.y * -1)
  }

  /** One of the four axis unit vectors: no diagonal, not zero. */
  predicate IsUnit(v: Vector2) {
    (v.x == 0 && (v.y == 1 || v.y == -1)) || (v.y == 0 && (v.x == 1 || v.x == -1))
  }

  /** `p` lies in the board `[0, size.x) x [0, size.y)`. */
  predicate InBounds(p: Vector2, size: Vector2) {
    0 <= p.x < size.x && 0 <= p.y < size.y
  }

  predicate AllInBounds(s: seq<Vector2>, size: Vector2) {
    forall i :: 0 <= i < |s| ==> InBounds(s[i], size)
  }

  predicate Distinct<T(==)>(s: seq<T>) {
    forall i, j :: 0 <= i < j < |s| ==> s[i] != s[j]
  }

  /** No element of `a` occurs in `b`. */
  predicate Disjoint<T(==)>(a: seq<T>, b: seq<T>) {
    forall i :: 0 <= i < |a| ==> a[i] !in b
  }

  /** The first index at which `p` occurs in `s` (`findIndex` when it finds one). */
  function IndexOf<T(==)>(s: seq<T>, p: T): (i: nat)
    requires p in s
    ensures i < |s| && s[i] == p
    ensures forall j :: 0 <= j < i ==> s[j] != p
  {
    if s[0] == p then 0 else 1 + IndexOf(s[1..], p)
  }

  /** `s` with its `i`-th element taken out (`splice(i, 1)`). */
  function RemoveAt<T>(s: seq<T>, i: nat): (r: seq<T>)
    requires i < |s|
    ensures multiset(r) == multiset(s) - multiset{s[i]}
  {
    assert s == s[..i] + [s[i]] + s[i + 1..];
    s[..i] + s[i + 1..]
  }

  lemma RemoveAtDistinct<T>(s: seq<T>, i: nat)
    requires i < |s| && Distinct(s)
    ensures Distinct(RemoveAt(s, i))
    ensures s[i] !in RemoveAt(s, i)
    ensures forall p :: p in RemoveAt(s, i) ==> p in s
  {
    var r := RemoveAt(s, i);
    assert r == s[..i] + s[i + 1..];
    forall a, b | 0 <= a < b < |r| ensures r[a] != r[b] {
      var a' := if a < i then a else a + 1;
      var b' := if b < i then b else b + 1;
      assert r[a] == s[a'] && r[b] == s[b'];
    }
    forall p | p in r ensures p in s {
      assert multiset(r)[p] > 0;
    }
  }

  lemma PrependDistinct<T>(h: T, s: seq<T>)
    requires h !in s && Distinct(s)
    ensures Distinct([h] + s)
  {
    var r := [h] + s;
    forall a, b | 0 <= a < b < |r| ensures r[a] != r[b] {
      assert r[b] == s[b - 1];
      if a > 0 {
        assert r[a] == s[a - 1];
      }
    }
  }
}
