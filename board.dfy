/**
 * Counting cells of the board. The pigeonhole facts here decide when a free
 * cell for an apple exists: the sampling loop in the engine can only end when
 * one does.
 */
module Board {
  import opened Geometry

  /** The cells `(0, y) .. (w - 1, y)` of one row. */
  ghost function Row(y: int, w: nat): set<Vector2> {
    if w == 0 then {} else Row(y, w - 1) + {Vector2(w - 1, y)}
  }

  lemma {:induction false} RowFacts(y: int, w: nat)
    ensures |Row(y, w)| == w
    ensures forall p :: p in Row(y, w) <==> p.y == y && 0 <= p.x < w
  {
    if w > 0 {
      RowFacts(y, w - 1);
    }
  }

  /** Every cell of a `w` by `h` board. */
  ghost function Cells(w: nat, h: nat): set<Vector2> {
    if h == 0 then {} else Cells(w, h - 1) + Row(h - 1, w)
  }

  lemma {:induction false} CellMember(w: nat, h: nat, p: Vector2)
    ensures p in Cells(w, h) <==> 0 <= p.x < w && 0 <= p.y < h
  {
    if h > 0 {
      CellMember(w, h - 1, p);
      RowFacts(h - 1, w);
    }
  }

  lemma CellsMembers(w: nat, h: nat)
    ensures forall p :: p in Cells(w, h) <==> 0 <= p.x < w && 0 <= p.y < h
  {
    forall p ensures p in Cells(w, h) <==> 0 <= p.x < w && 0 <= p.y < h {
      CellMember(w, h, p);
    }
  }

  lemma {:induction false} CellsCard(w: nat, h: nat)
    ensures |Cells(w, h)| == w * h
  {
    if h > 0 {
      var prior, row := Cells(w, h - 1), Row(h - 1, w);
      assert |Cells(w, h)| == |prior| + |row| by {
        RowsApart(w, h - 1);
        assert Cells(w, h) == prior + row;
      }
      CellsCard(w, h - 1);
      RowFacts(h - 1, w);
      MulStep(w, h);
    }
  }

  lemma RowsApart(w: nat, h: nat)
    ensures Cells(w, h) !! Row(h, w)
  {
    CellsMembers(w, h);
    RowFacts(h, w);
  }

  lemma MulStep(w: nat, h: nat)
    requires h > 0
    ensures w * (h - 1) + w == w * h
  {
  }

  /** The set of positions a sequence holds. */
  ghost function Elements(s: seq<Vector2>): (r: set<Vector2>)
    ensures forall p :: p in r <==> p in s
  {
    if s == [] then {} else {s[0]} + Elements(s[1..])
  }

  lemma {:induction false} ElementsCard(s: seq<Vector2>)
    requires Distinct(s)
    ensures |Elements(s)| == |s|
  {
    if s != [] {
      assert Distinct(s[1..]);
      ElementsCard(s[1..]);
      assert s[0] !in s[1..];
    }
  }

  /**
   * Two sequences of cells that share the board without overlapping: all in
   * bounds, each without repeats, none of `a` in `b`.
   */
  ghost predicate Spread(size: Vector2, a: seq<Vector2>, b: seq<Vector2>) {
    AllInBounds(a, size) && AllInBounds(b, size) && Distinct(a) && Distinct(b) && Disjoint(a, b)
  }

  lemma Occupancy(size: Vector2, a: seq<Vector2>, b: seq<Vector2>)
    requires size.x >= 0 && size.y >= 0 && Spread(size, a, b)
    ensures |Elements(a) + Elements(b)| == |a| + |b|
    ensures Elements(a) + Elements(b) <= Cells(size.x, size.y)
    ensures |Cells(size.x, size.y)| == size.x * size.y
  {
    ElementsApart(a, b);
    ElementsInside(size, a, b);
    CellsCard(size.x, size.y);
  }

  lemma ElementsApart(a: seq<Vector2>, b: seq<Vector2>)
    requires Distinct(a) && Distinct(b) && Disjoint(a, b)
    ensures |Elements(a) + Elements(b)| == |a| + |b|
  {
    ElementsCard(a);
    ElementsCard(b);
    forall p | p in Elements(a) ensures p !in Elements(b) {
      var i :| 0 <= i < |a| && a[i] == p;
    }
  }

  lemma ElementsInside(size: Vector2, a: seq<Vector2>, b: seq<Vector2>)
    requires size.x >= 0 && size.y >= 0 && AllInBounds(a, size) && AllInBounds(b, size)
    ensures Elements(a) + Elements(b) <= Cells(size.x, size.y)
  {
    CellsMembers(size.x, size.y);
    forall p | p in Elements(a) + Elements(b) ensures p in Cells(size.x, size.y) {
      if p in a {
        var i :| 0 <= i < |a| && a[i] == p;
      } else {
        var i :| 0 <= i < |b| && b[i] == p;
      }
    }
  }

  /** Fewer occupied cells than the board has: some in-bounds cell is free. */
  lemma FreeCellExists(size: Vector2, a: seq<Vector2>, b: seq<Vector2>)
    requires size.x >= 0 && size.y >= 0 && Spread(size, a, b)
    requires |a| + |b| < size.x * size.y
    ensures exists c :: InBounds(c, size) && c !in a && c !in b
  {
    Occupancy(size, a, b);
    var occupied := Elements(a) + Elements(b);
    var all := Cells(size.x, size.y);
    assert |all - occupied| == |all| - |occupied| > 0;
    var c :| c in all - occupied;
    CellsMembers(size.x, size.y);
    assert InBounds(c, size) && c !in a && c !in b;
  }

  /** As many occupied cells as the board has: no cell is free. */
  lemma BoardFull(size: Vector2, a: seq<Vector2>, b: seq<Vector2>)
    requires size.x >= 0 && size.y >= 0 && Spread(size, a, b)
    requires |a| + |b| >= size.x * size.y
    ensures forall c :: InBounds(c, size) ==> c in a || c in b
  {
    Occupancy(size, a, b);
    var occupied := Elements(a) + Elements(b);
    var all := Cells(size.x, size.y);
    assert |all - occupied| == |all| - |occupied| == 0;
    CellsMembers(size.x, size.y);
    forall c | InBounds(c, size) ensures c in a || c in b {
      assert c in all;
      assert c !in all - occupied;
    }
  }

  /** Cells that share the board without overlapping never outnumber it. */
  lemma CountBound(size: Vector2, a: seq<Vector2>, b: seq<Vector2>)
    requires size.x >= 0 && size.y >= 0 && Spread(size, a, b)
    ensures |a| + |b| <= size.x * size.y
  {
    Occupancy(size, a, b);
    var occupied := Elements(a) + Elements(b);
    var all := Cells(size.x, size.y);
    assert |all| == |occupied| + |all - occupied|;
  }
}
