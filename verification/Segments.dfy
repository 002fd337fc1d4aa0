/** The arithmetic of cutting a long road segment into pieces of about 50 metres. */
module Segments {

  const MAX_DIST := 75.0
  const AVERAGE_DIST := 50.0

  // C round on nonnegative values: halves go up.
  function Round(x: real): int {
    (x + 0.5).Floor
  }

  // How many pieces a segment of length d ends up in.
  function Pieces(d: real): (n: int)
    ensures n >= 1
    ensures n >= 2 <==> d > MAX_DIST
  {
    if d > MAX_DIST then
      assert d / AVERAGE_DIST > 1.5;
      Round(d / AVERAGE_DIST)
    else 1
  }

  // The length of one piece, and of g pieces in a row, of a long segment.
  lemma PieceLength(d: real, g: int)
    requires d > MAX_DIST && 1 <= g <= Pieces(d)
    ensures 37.5 < d / Pieces(d) as real < 62.5
    ensures Pieces(g as real * (d / Pieces(d) as real)) == g
  {
    var a := Pieces(d);
    var n := a as real;
    var u := d / n;
    assert n * u == d;
    assert n - 0.5 <= d / 50.0 < n + 0.5;
    assert 50.0 * n - 25.0 <= n * u < 50.0 * n + 25.0;
    UnitBounds(n, u, a, d);
    var len := g as real * u;
    MultipleBounds(g as real, n, u);
    if g >= 2 {
      assert len >= 2.0 * u by { MulMonotone(2.0, g as real, u); }
      assert (g as real - 0.5) <= len / 50.0 < g as real + 0.5;
      assert Round(len / 50.0) == g;
    }
  }

  lemma UnitBounds(n: real, u: real, a: int, d: real)
    requires a >= 2 && n == a as real && n * u == d > 75.0
    requires 50.0 * n - 25.0 <= n * u < 50.0 * n + 25.0
    ensures 37.5 < u < 62.5
  {
    if u >= 62.5 {
      MulMonotone(62.5, u, n);
    }
    if a == 2 {
    } else if u <= 37.5 {
      MulMonotone(u, 37.5, n);
    }
  }

  lemma MulMonotone(x: real, y: real, n: real)
    requires x <= y && n >= 0.0
    ensures x * n <= y * n && n * x <= n * y
  {
  }

  // g of n pieces of length u deviate from 50 g by no more than the whole does from 50 n.
  lemma MultipleBounds(g: real, n: real, u: real)
    requires 1.0 <= g <= n
    requires 50.0 * n - 25.0 <= n * u < 50.0 * n + 25.0
    ensures 50.0 * g - 25.0 <= g * u < 50.0 * g + 25.0
  {
    var e := u - 50.0;
    assert n * e == n * u - 50.0 * n && g * e == g * u - 50.0 * g by { Distribute(n, u); Distribute(g, u); }
    if e >= 0.0 {
      MulMonotone(g, n, e);
      MulMonotone(0.0, e, g);
    } else {
      MulMonotone(g, n, -e);
      MulMonotone(0.0, -e, g);
    }
  }

  lemma Distribute(n: real, u: real)
    ensures n * (u - 50.0) == n * u - 50.0 * n
  {
  }

  // Cutting one piece off a segment of g pieces.
  lemma CutOne(d: real)
    requires d > MAX_DIST
    ensures Pieces(d / Pieces(d) as real) == 1
    ensures Pieces(d - d / Pieces(d) as real) == Pieces(d) - 1
  {
    var a := Pieces(d);
    var u := d / a as real;
    PieceLength(d, 1);
    PieceLength(d, a - 1);
    assert (a - 1) as real * u == d - u by {
      assert (a - 1) as real == a as real - 1.0;
      assert a as real * u == d;
    }
  }
}
