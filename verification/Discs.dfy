/** The filled disc: the curve it is bounded by, and the walk along it whose spans cover it. */
module Discs {

  function Abs(n: int): nat { if n < 0 then -n else n }

  /** The four spans drawn for one point (x, y) of the arc, about the centre. */
  predicate Spanned(x: int, y: int, dx: int, dy: int) {
    (Abs(dy) == y && Abs(dx) <= x) || (Abs(dy) == x && Abs(dx) <= y)
  }

  function NextX(x: int, error: int): int { if error < 0 then x else x - 1 }

  function NextError(x: int, y: int, error: int): int {
    if error < 0 then error + 2 * (y + 1) + 1 else error + 2 * (y + 1 - (x - 1)) + 1
  }

  /** Covered by the spans of this point of the arc or of one after it. The walk ends because x - y
      strictly falls. */
  predicate Remaining(x: int, y: int, error: int, dx: int, dy: int)
    decreases x - y + 1
  {
    x >= y && (Spanned(x, y, dx, dy) ||
               Remaining(NextX(x, error), y + 1, NextError(x, y, error), dx, dy))
  }

  function Larger(a: int, b: int): int { if a > b then a else b }

  function Smaller(a: int, b: int): int { if a < b then a else b }

  /** The pixel at (dx, dy) from the centre is one of the disc's: with a and b the greater and the lesser of
      its distances from the two axes, a^2 - a + b^2 < r^2, and the centre alone where the radius is zero. */
  predicate InDisc(radius: int, dx: int, dy: int) {
    var a, b := Larger(Abs(dx), Abs(dy)), Smaller(Abs(dx), Abs(dy));
    if radius <= 0 then radius == 0 && a == 0 else a * a - a + b * b < radius * radius
  }

  /** Where the walk stands: what the error measures, this column the last one of the row within the curve. */
  predicate Arc(radius: int, x: int, y: int, error: int) {
    && 0 <= y && x <= radius
    && error == x * x - x + (y + 1) * (y + 1) - radius * radius
    && x * x + x + y * y >= radius * radius
    && (x >= y ==> x * x - x + y * y < radius * radius)
  }

  lemma ArcBegins(radius: int)
    requires radius > 0
    ensures Arc(radius, radius, 0, 1 - radius)
  {
  }

  lemma ArcAdvances(radius: int, x: int, y: int, error: int)
    requires radius > 0 && x >= y && Arc(radius, x, y, error)
    ensures Arc(radius, NextX(x, error), y + 1, NextError(x, y, error))
  {
    assert (y + 2) * (y + 2) == (y + 1) * (y + 1) + 2 * y + 3;
    assert (y + 1) * (y + 1) == y * y + 2 * y + 1;
    assert (x - 1) * (x - 1) == x * x - 2 * x + 1;
  }

  lemma SquareMonotone(a: int, b: int)
    requires 0 <= a <= b
    ensures a * a <= b * b && a * a - a <= b * b - b && a * a + a <= b * b + b
  {
    var d := b - a;
    ProductNotNegative(a, d);
    if d > 0 {
      ProductNotNegative(d - 1, d);
      assert (d - 1) * d == d * d - d;
    }
    assert b * b == a * a + 2 * (a * d) + d * d;
  }

  lemma ProductNotNegative(a: int, b: int)
    requires 0 <= a && 0 <= b
    ensures 0 <= a * b
  {
  }

  lemma AbsSquare(a: int)
    ensures Abs(a) * Abs(a) == a * a
  {
  }

  /** What the walk covers from here on lies within the curve. */
  lemma {:induction false} RemainingInside(radius: int, x: int, y: int, error: int, dx: int, dy: int)
    requires radius > 0 && Arc(radius, x, y, error) && Remaining(x, y, error, dx, dy)
    ensures InDisc(radius, dx, dy)
    decreases x - y + 1
  {
    if Spanned(x, y, dx, dy) {
      SquareMonotone(Larger(Abs(dx), Abs(dy)), x);
      SquareMonotone(Smaller(Abs(dx), Abs(dy)), y);
    } else {
      ArcAdvances(radius, x, y, error);
      RemainingInside(radius, NextX(x, error), y + 1, NextError(x, y, error), dx, dy);
    }
  }

  /** A point within the curve goes beyond neither the walk's column nor, in that column, its row. */
  lemma WithinTheArc(radius: int, x: int, y: int, error: int, dx: int, dy: int)
    requires radius > 0 && x >= y && Arc(radius, x, y, error) && InDisc(radius, dx, dy)
    ensures Abs(dy) >= y ==> Abs(dx) <= x
    ensures error >= 0 && Abs(dy) == x ==> Abs(dx) <= y
  {
    var a, b := Larger(Abs(dx), Abs(dy)), Smaller(Abs(dx), Abs(dy));
    assert (x + 1) * (x + 1) - (x + 1) == x * x + x;
    if Abs(dy) >= y && Abs(dx) > x {
      SquareMonotone(x + 1, a);
      SquareMonotone(y, b);
    }
    if error >= 0 && Abs(dy) == x && Abs(dx) > y {
      SquareMonotone(x, a);
      SquareMonotone(y + 1, b);
    }
  }

  /** The walk covers from here on every point within the curve from its row to its column. */
  lemma {:induction false} CurveRemains(radius: int, x: int, y: int, error: int, dx: int, dy: int)
    requires radius > 0 && Arc(radius, x, y, error) && InDisc(radius, dx, dy)
    requires y <= Abs(dy) <= x
    ensures Remaining(x, y, error, dx, dy)
    decreases x - y + 1
  {
    hide InDisc, Arc;
    WithinTheArc(radius, x, y, error, dx, dy);
    if Abs(dy) > y && (error < 0 || Abs(dy) < x) {
      ArcAdvances(radius, x, y, error);
      CurveRemains(radius, NextX(x, error), y + 1, NextError(x, y, error), dx, dy);
    }
  }

  /** The spans of the walk cover exactly the disc. */
  lemma WalkCoversTheDisc(radius: int, dx: int, dy: int)
    requires radius >= 0
    ensures Remaining(radius, 0, 1 - radius, dx, dy) <==> InDisc(radius, dx, dy)
  {
    if radius == 0 {
      assert !Remaining(NextX(0, 1), 1, NextError(0, 0, 1), dx, dy);
    } else {
      ArcBegins(radius);
      if Remaining(radius, 0, 1 - radius, dx, dy) {
        RemainingInside(radius, radius, 0, 1 - radius, dx, dy);
      }
      if InDisc(radius, dx, dy) {
        assert (radius + 1) * (radius + 1) - (radius + 1) == radius * radius + radius;
        if Abs(dy) > radius {
          SquareMonotone(radius + 1, Larger(Abs(dx), Abs(dy)));
        }
        CurveRemains(radius, radius, 0, 1 - radius, dx, dy);
      }
    }
  }

  lemma NoDisc(radius: int)
    requires radius < 0
    ensures forall dx, dy :: !InDisc(radius, dx, dy)
  {
  }

  /** The disc of a radius covers every lattice point of the circle of that radius and none outside
      the circle of squared radius r^2 + r. */
  lemma DiscBetweenCircles(radius: int, dx: int, dy: int)
    requires radius >= 0
    ensures dx * dx + dy * dy <= radius * radius ==> InDisc(radius, dx, dy)
    ensures InDisc(radius, dx, dy) ==> dx * dx + dy * dy <= radius * radius + radius
  {
    var a, b := Larger(Abs(dx), Abs(dy)), Smaller(Abs(dx), Abs(dy));
    AbsSquare(dx);
    AbsSquare(dy);
    assert a * a + b * b == dx * dx + dy * dy;
    if a > radius {
      SquareMonotone(radius + 1, a);
      assert (radius + 1) * (radius + 1) - (radius + 1) == radius * radius + radius;
      assert b * b >= 0;
    }
  }

  /** No row from -r to r is left out, and each axis reaches exactly the radius. */
  lemma EveryRowIsPainted(radius: int, d: int)
    requires radius >= 0
    ensures InDisc(radius, 0, d) <==> -radius <= d <= radius
    ensures InDisc(radius, d, 0) <==> -radius <= d <= radius
  {
    DiscBetweenCircles(radius, 0, d);
    DiscBetweenCircles(radius, d, 0);
    AbsSquare(d);
    if Abs(d) <= radius {
      SquareMonotone(Abs(d), radius);
    } else {
      SquareMonotone(radius + 1, Abs(d));
      assert (radius + 1) * (radius + 1) == radius * radius + 2 * radius + 1;
    }
  }

  /** Turned over either axis, or over the diagonal, the disc is the same. */
  lemma DiscSymmetric(radius: int, dx: int, dy: int)
    ensures InDisc(radius, -dx, dy) <==> InDisc(radius, dx, dy)
    ensures InDisc(radius, dx, -dy) <==> InDisc(radius, dx, dy)
    ensures InDisc(radius, dy, dx) <==> InDisc(radius, dx, dy)
  {
  }
}
