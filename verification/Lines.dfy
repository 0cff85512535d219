/** Bresenham's line: which points it visits, said without the accumulated error. */
module Lines {
  import opened Rectangles

  function Distance(a: int, b: int): nat { if b > a then b - a else a - b }

  function Direction(a: int, b: int): int { if a < b then 1 else -1 }

  /** `k` steps along the minor axis are the nearest whole number to the ideal line's displacement
      after `n` steps along the major one: within half a step, and a tie goes to the smaller. */
  predicate Near(major: int, minor: int, n: int, k: int) {
    if major == 0 then k == 0 else -major <= 2 * (k * major - n * minor) < major
  }

  /** The point is one of the line from (x0, y0) to (x1, y1). */
  predicate OnLine(x0: int, y0: int, x1: int, y1: int, x: int, y: int) {
    var dx, dy := Distance(x0, x1), Distance(y0, y1);
    var i, j := (x - x0) * Direction(x0, x1), (y - y0) * Direction(y0, y1);
    if dx >= dy then 0 <= i <= dx && Near(dx, dy, i, j) else 0 <= j <= dy && Near(dy, dx, j, i)
  }

  /** How many points of the line stand before this one, counted along the major axis. */
  function Along(x0: int, y0: int, x1: int, y1: int, x: int, y: int): int {
    if Distance(x0, x1) >= Distance(y0, y1) then (x - x0) * Direction(x0, x1)
    else (y - y0) * Direction(y0, y1)
  }

  lemma ProductAtLeast(k: int, m: int)
    requires 0 < m
    ensures k >= 1 ==> k * m >= m
    ensures k <= -1 ==> k * m <= -m
  {
    if k >= 1 {
      assert (k - 1) * m >= 0;
    } else if k <= -1 {
      assert (-k - 1) * m >= 0;
    }
  }

  lemma NearIsUnique(major: int, minor: int, n: int, k: int, l: int)
    requires 0 <= major && Near(major, minor, n, k) && Near(major, minor, n, l)
    ensures k == l
  {
    if major > 0 {
      assert (k - l) * major == k * major - l * major;
      ProductAtLeast(k - l, major);
    }
  }

  lemma NearAtTheEnd(major: int, minor: int, k: int)
    requires 0 <= minor <= major && Near(major, minor, major, k)
    ensures k == minor
  {
    assert minor * major - major * minor == 0;
    NearIsUnique(major, minor, major, k, minor);
  }

  lemma NearOnDiagonal(side: int, n: int, k: int)
    requires 0 < side && Near(side, side, n, k)
    ensures k == n
  {
    NearIsUnique(side, side, n, k, n);
  }

  /** The minor displacement never leaves the line's bounding box. */
  lemma NearStaysInBox(major: int, minor: int, n: int, k: int)
    requires 0 <= minor <= major && 0 <= n <= major && Near(major, minor, n, k)
    ensures 0 <= k <= minor
  {
    if major > 0 {
      assert 0 <= n * minor <= major * minor;
      ProductAtLeast(k, major);
      ProductAtLeast(k - minor, major);
      assert (k - minor) * major == k * major - minor * major;
    }
  }

  lemma OnLineInBox(x0: int, y0: int, x1: int, y1: int, x: int, y: int)
    requires OnLine(x0, y0, x1, y1, x, y)
    ensures Min(x0, x1) <= x <= Max(x0, x1) && Min(y0, y1) <= y <= Max(y0, y1)
  {
    var dx, dy := Distance(x0, x1), Distance(y0, y1);
    var i, j := (x - x0) * Direction(x0, x1), (y - y0) * Direction(y0, y1);
    if dx >= dy {
      NearStaysInBox(dx, dy, i, j);
    } else {
      NearStaysInBox(dy, dx, j, i);
    }
  }

  /** No two points of a line stand at the same place along its major axis. */
  lemma OnePointEach(x0: int, y0: int, x1: int, y1: int, x: int, y: int, u: int, v: int)
    requires OnLine(x0, y0, x1, y1, x, y) && OnLine(x0, y0, x1, y1, u, v)
    requires Along(x0, y0, x1, y1, x, y) == Along(x0, y0, x1, y1, u, v)
    ensures x == u && y == v
  {
    var dx, dy := Distance(x0, x1), Distance(y0, y1);
    var i, j := (x - x0) * Direction(x0, x1), (y - y0) * Direction(y0, y1);
    var k, l := (u - x0) * Direction(x0, x1), (v - y0) * Direction(y0, y1);
    if dx >= dy {
      NearIsUnique(dx, dy, i, j, l);
    } else {
      NearIsUnique(dy, dx, j, i, k);
    }
  }

  // ----------------------------------------------------------------- the loop's state

  /** After i steps in x and j in y: the error is what has accumulated, and the place is the
      nearest to the ideal line. */
  predicate Tracking(dx: int, dy: int, i: int, j: int, error: int) {
    && error == (j + 1) * dx - (i + 1) * dy
    && if dx >= dy then 0 <= i <= dx && Near(dx, dy, i, j) else 0 <= j <= dy && Near(dy, dx, j, i)
  }

  function StepX(dy: int, error: int): int { if error * 2 > -dy then 1 else 0 }

  function StepY(dx: int, error: int): int { if error * 2 < dx then 1 else 0 }

  /** Between coordinates of 16 bits the doubled error never leaves the range of 32. */
  lemma ErrorFits32(dx: int, dy: int, i: int, j: int, error: int)
    requires 0 <= dx <= 0xFFFE && 0 <= dy <= 0xFFFE && Tracking(dx, dy, i, j, error)
    ensures -0x8000_0000 <= 2 * error < 0x8000_0000
  {
    assert (j + 1) * dx == j * dx + dx && (i + 1) * dy == i * dy + dy;
  }

  /** The major axis is stepped along every time, and the minor one just when that is nearer. */
  lemma StepTracks(dx: int, dy: int, i: int, j: int, error: int)
    requires 0 <= dx && 0 <= dy && Tracking(dx, dy, i, j, error) && !(i == dx && j == dy)
    ensures var sx, sy := StepX(dy, error), StepY(dx, error);
            && (if dx >= dy then sx == 1 && i < dx else sy == 1 && j < dy)
            && Tracking(dx, dy, i + sx, j + sy, error - sx * dy + sy * dx)
  {
    var sx, sy := StepX(dy, error), StepY(dx, error);
    assert (j + 1) * dx == j * dx + dx && (i + 1) * dy == i * dy + dy;
    assert (j + 2) * dx == j * dx + 2 * dx && (i + 2) * dy == i * dy + 2 * dy;
    if dx >= dy {
      if i == dx {
        NearAtTheEnd(dx, dy, j);
      }
      if dx == dy && dx > 0 {
        NearOnDiagonal(dx, i, j);
      }
    } else {
      if j == dy {
        NearAtTheEnd(dy, dx, i);
      }
    }
  }

  /** One turn of the loop. */
  method Step(dx: int, dy: int, stepX: int, stepY: int, x: int, y: int, error: int,
              ghost i: int, ghost j: int)
    returns (x': int, y': int, error': int, ghost i': int, ghost j': int)
    requires 0 <= dx && 0 <= dy && Tracking(dx, dy, i, j, error) && !(i == dx && j == dy)
    ensures Tracking(dx, dy, i', j', error')
    ensures (i' == i && x' == x) || (i' == i + 1 && x' == x + stepX)
    ensures (j' == j && y' == y) || (j' == j + 1 && y' == y + stepY)
    ensures if dx >= dy then i' == i + 1 else j' == j + 1
  {
    hide Tracking;
    StepTracks(dx, dy, i, j, error);
    x', y', error', i', j' := x, y, error, i, j;
    var doubled := error * 2;
    if doubled > -dy {
      error' := error' - dy;
      x' := x + stepX;
      i' := i + 1;
    }
    if doubled < dx {
      error' := error' + dx;
      y' := y + stepY;
      j' := j + 1;
    }
  }

  lemma TrackingAtTheEnd(dx: int, dy: int, i: int, j: int, error: int)
    requires 0 <= dx && 0 <= dy && Tracking(dx, dy, i, j, error)
    ensures i == dx && j == dy <==> (if dx >= dy then i else j) == Max(dx, dy)
  {
    if dx >= dy && i == dx {
      NearAtTheEnd(dx, dy, j);
    } else if dx < dy && j == dy {
      NearAtTheEnd(dy, dx, i);
    }
  }

  function Major(dx: int, dy: int, i: int, j: int): int { if dx >= dy then i else j }

  lemma TrackingBegins(dx: int, dy: int)
    requires 0 <= dx && 0 <= dy
    ensures Tracking(dx, dy, 0, 0, dx - dy)
  {
  }

  /** The place reached is the one point of the line so far along it. */
  lemma TrackingIsHere(x0: int, y0: int, x1: int, y1: int, i: int, j: int, error: int, x: int, y: int)
    requires Tracking(Distance(x0, x1), Distance(y0, y1), i, j, error)
    requires x == x0 + i * Direction(x0, x1) && y == y0 + j * Direction(y0, y1)
    ensures forall u, v :: OnLine(x0, y0, x1, y1, u, v) &&
              Along(x0, y0, x1, y1, u, v) == Major(Distance(x0, x1), Distance(y0, y1), i, j)
              <==> u == x && v == y
    ensures x == x1 && y == y1 <==> i == Distance(x0, x1) && j == Distance(y0, y1)
  {
    assert OnLine(x0, y0, x1, y1, x, y);
    forall u, v
      ensures OnLine(x0, y0, x1, y1, u, v) &&
              Along(x0, y0, x1, y1, u, v) == Major(Distance(x0, x1), Distance(y0, y1), i, j)
              <==> u == x && v == y
    {
      if OnLine(x0, y0, x1, y1, u, v) &&
         Along(x0, y0, x1, y1, u, v) == Along(x0, y0, x1, y1, x, y) {
        OnePointEach(x0, y0, x1, y1, u, v, x, y);
      }
    }
  }

  lemma AlongInRange(x0: int, y0: int, x1: int, y1: int)
    ensures forall u, v | OnLine(x0, y0, x1, y1, u, v) ::
              0 <= Along(x0, y0, x1, y1, u, v) <= Max(Distance(x0, x1), Distance(y0, y1))
  {
  }

  // ------------------------------------------------------------- drawn backwards

  /** Somewhere along the line the ideal displacement lies exactly half way between two pixels. */
  ghost predicate HasTie(major: int, minor: int) {
    exists n, k :: 0 <= n <= major && TieAt(major, minor, n, k)
  }

  predicate TieAt(major: int, minor: int, n: int, k: int) {
    major > 0 && 2 * (k * major - n * minor) == -major
  }

  /** The longer axis has more factors of two than the shorter: divided by what the two have in common
      it is even. */
  predicate MoreTwos(major: nat, minor: nat)
    decreases major
  {
    major != 0 && major % 2 == 0 && (minor % 2 == 1 || MoreTwos(major / 2, minor / 2))
  }

  lemma TieAtHalf(major: nat, minor: nat)
    requires 0 < major && major % 2 == 0 && minor % 2 == 1
    ensures TieAt(major, minor, major / 2, (minor - 1) / 2)
  {
    var m, k := major / 2, (minor - 1) / 2;
    assert k * (2 * m) == 2 * (k * m) && m * (2 * k + 1) == 2 * (k * m) + m;
  }

  lemma TieIsEven(major: nat, minor: nat, n: int, k: int)
    requires TieAt(major, minor, n, k)
    ensures major % 2 == 0
  {
    assert major == 2 * (n * minor - k * major);
  }

  lemma TieOfHalves(major: nat, minor: nat, n: int, k: int)
    ensures TieAt(2 * major, 2 * minor, n, k) <==> TieAt(major, minor, n, k)
  {
    assert k * (2 * major) - n * (2 * minor) == 2 * (k * major - n * minor);
  }

  lemma TieEarlier(major: nat, minor: nat, n: int, k: int)
    requires TieAt(major, minor, n, k)
    ensures TieAt(major, minor, n - major, k - minor)
  {
    assert (k - minor) * major - (n - major) * minor == k * major - n * minor;
  }

  /** Whether a tie stands upon a line can be told from its two extents. */
  lemma {:induction false} TiedByTwos(major: nat, minor: nat)
    ensures HasTie(major, minor) <==> MoreTwos(major, minor)
    decreases major
  {
    hide TieAt;
    if HasTie(major, minor) {
      var n, k :| 0 <= n <= major && TieAt(major, minor, n, k);
      TieIsEven(major, minor, n, k);
      TieNeedsExtent(major, minor, n, k);
      if minor % 2 == 0 {
        TieOfHalves(major / 2, minor / 2, n, k);
        if n > major / 2 {
          TieEarlier(major / 2, minor / 2, n, k);
        }
        assert HasTie(major / 2, minor / 2);
        TiedByTwos(major / 2, minor / 2);
      }
    }
    if MoreTwos(major, minor) {
      if minor % 2 == 1 {
        TieAtHalf(major, minor);
      } else {
        TiedByTwos(major / 2, minor / 2);
        var n, k :| 0 <= n <= major / 2 && TieAt(major / 2, minor / 2, n, k);
        TieOfHalves(major / 2, minor / 2, n, k);
      }
    }
  }

  lemma TieNeedsExtent(major: nat, minor: nat, n: int, k: int)
    requires TieAt(major, minor, n, k)
    ensures major > 0
  {
  }

  lemma NearBackwards(major: int, minor: int, n: int, k: int)
    requires 0 <= minor <= major
    ensures Near(major, minor, major - n, minor - k) <==>
            if major == 0 then k == 0 else -major < 2 * (k * major - n * minor) <= major
  {
    assert (minor - k) * major - (major - n) * minor == -(k * major - n * minor);
  }

  lemma OnLineBackwards(x0: int, y0: int, x1: int, y1: int, x: int, y: int)
    requires OnLine(x0, y0, x1, y1, x, y)
    requires !HasTie(Max(Distance(x0, x1), Distance(y0, y1)), Min(Distance(x0, x1), Distance(y0, y1)))
    ensures OnLine(x1, y1, x0, y0, x, y)
  {
    var dx, dy := Distance(x0, x1), Distance(y0, y1);
    var i, j := (x - x0) * Direction(x0, x1), (y - y0) * Direction(y0, y1);
    OnLineInBox(x0, y0, x1, y1, x, y);
    if dx >= dy {
      NearBackwards(dx, dy, i, j);
      assert !TieAt(dx, dy, i, j);
    } else {
      NearBackwards(dy, dx, j, i);
      assert !TieAt(dy, dx, j, i);
    }
  }

  /** A line drawn backwards visits the same points exactly unless its longer extent has more factors of
      two than its shorter: exactly unless somewhere along it a tie stands. */
  lemma SameBackwardsUnlessTied(x0: int, y0: int, x1: int, y1: int)
    ensures (forall x, y :: OnLine(x0, y0, x1, y1, x, y) <==> OnLine(x1, y1, x0, y0, x, y)) <==>
            !MoreTwos(Max(Distance(x0, x1), Distance(y0, y1)), Min(Distance(x0, x1), Distance(y0, y1)))
  {
    hide HasTie, OnLine;
    TiedByTwos(Max(Distance(x0, x1), Distance(y0, y1)), Min(Distance(x0, x1), Distance(y0, y1)));
    SameBackwardsWithoutTie(x0, y0, x1, y1);
  }

  lemma SameBackwardsWithoutTie(x0: int, y0: int, x1: int, y1: int)
    ensures (forall x, y :: OnLine(x0, y0, x1, y1, x, y) <==> OnLine(x1, y1, x0, y0, x, y)) <==>
            !HasTie(Max(Distance(x0, x1), Distance(y0, y1)), Min(Distance(x0, x1), Distance(y0, y1)))
  {
    var dx, dy := Distance(x0, x1), Distance(y0, y1);
    if HasTie(Max(dx, dy), Min(dx, dy)) {
      var n, k :| 0 <= n <= Max(dx, dy) && TieAt(Max(dx, dy), Min(dx, dy), n, k);
      NearBackwards(Max(dx, dy), Min(dx, dy), n, k);
      var x := x0 + (if dx >= dy then n else k) * Direction(x0, x1);
      var y := y0 + (if dx >= dy then k else n) * Direction(y0, y1);
      assert Near(Max(dx, dy), Min(dx, dy), n, k);
      NearStaysInBox(Max(dx, dy), Min(dx, dy), n, k);
      assert OnLine(x0, y0, x1, y1, x, y) && !OnLine(x1, y1, x0, y0, x, y);
    } else {
      forall x, y
        ensures OnLine(x0, y0, x1, y1, x, y) <==> OnLine(x1, y1, x0, y0, x, y)
      {
        if OnLine(x0, y0, x1, y1, x, y) {
          OnLineBackwards(x0, y0, x1, y1, x, y);
        }
        if OnLine(x1, y1, x0, y0, x, y) {
          OnLineBackwards(x1, y1, x0, y0, x, y);
        }
      }
    }
  }

  /** The shortest line with a tie: forwards it passes (1, 0), backwards (1, 1). */
  lemma BackwardsCanDiffer()
    ensures OnLine(0, 0, 2, 1, 1, 0) && !OnLine(2, 1, 0, 0, 1, 0)
    ensures !OnLine(0, 0, 2, 1, 1, 1) && OnLine(2, 1, 0, 0, 1, 1)
  {
  }
}
