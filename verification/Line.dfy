/**
  The line drawing of kernel/src/gui/line.c, proved against the points nearest
  to the ideal line. Integers are unbounded; ErrorBounded says how far the
  error term of the loop strays.
 */
module Line {
  import opened Bits

  datatype Point = Point(x: int, y: int)

  function Abs(a: int): nat { if a < 0 then -a else a }

  function Max(a: nat, b: nat): nat { if a < b then b else a }

  /** The direction of travel from a to b. */
  function Sign(a: int, b: int): int { if a < b then 1 else -1 }

  /** k*minor/major rounded to the nearest integer, halves towards zero. */
  function Rounded(k: nat, minor: nat, major: nat): nat
  {
    if major == 0 then 0 else
      assert 2 * k * minor >= 0;
      (2 * k * minor + major - 1) / (2 * major)
  }

  /** How far the line is from (x0,y0) along each axis after k steps. */
  function AlongX(k: nat, dx: nat, dy: nat): nat { if dx >= dy then k else Rounded(k, dx, dy) }

  function AlongY(k: nat, dx: nat, dy: nat): nat { if dx >= dy then Rounded(k, dy, dx) else k }

  function Centre(p: Point, q: Point, k: nat): Point {
    var dx, dy := Abs(q.x - p.x), Abs(q.y - p.y);
    Point(p.x + Sign(p.x, q.x) * AlongX(k, dx, dy), p.y + Sign(p.y, q.y) * AlongY(k, dx, dy))
  }

  function Steps(p: Point, q: Point): nat { Max(Abs(q.x - p.x), Abs(q.y - p.y)) }

  /** The first n points of the line from p to q. */
  function Centres(p: Point, q: Point, n: nat): (s: seq<Point>)
    ensures |s| == n && forall k | 0 <= k < n :: s[k] == Centre(p, q, k)
  {
    seq(n, k requires 0 <= k => Centre(p, q, k))
  }

  // ------------------------------------------------------- rounding

  /** b is the integer nearest to k*minor/major, the smaller one of two. */
  predicate Nearest(k: nat, minor: nat, major: nat, b: int) {
    0 - major <= 2 * (b * major - k * minor) < major
  }

  /** Rounded is the one integer that is nearest. */
  lemma NearestIsRounded(k: nat, minor: nat, major: nat, b: int)
    requires 0 < major
    ensures Nearest(k, minor, major, b) <==> b == Rounded(k, minor, major)
  {
    var n, d := 2 * k * minor + major - 1, 2 * major;
    assert n == 2 * (k * minor) + major - 1;
    assert b * d == 2 * (b * major);
    assert 2 * k * minor >= 0;
    if Nearest(k, minor, major, b) {
      ModUnique(n, d, b, n - d * b);
    }
    if b == n / d {
      assert n == d * b + n % d;
    }
  }

  /** Every point lies within half a pixel of the ideal line. */
  lemma WithinHalfPixel(p: Point, q: Point, k: nat)
    requires k <= Steps(p, q)
    ensures var dx, dy := Abs(q.x - p.x), Abs(q.y - p.y);
            2 * Abs(AlongY(k, dx, dy) * dx - AlongX(k, dx, dy) * dy) <= Max(dx, dy)
  {
    var dx, dy := Abs(q.x - p.x), Abs(q.y - p.y);
    if dx >= dy {
      if dx > 0 { NearestIsRounded(k, dy, dx, Rounded(k, dy, dx)); }
    } else {
      NearestIsRounded(k, dx, dy, Rounded(k, dx, dy));
    }
  }

  lemma RoundedEnds(minor: nat, major: nat)
    requires minor <= major
    ensures Rounded(0, minor, major) == 0 && Rounded(major, minor, major) == minor
  {
    if major > 0 {
      assert minor * major - major * minor == 0;
      NearestIsRounded(major, minor, major, minor);
      NearestIsRounded(0, minor, major, 0);
    }
  }

  /** One more step along the major axis moves the minor one by nothing or by one. */
  lemma RoundedStep(k: nat, minor: nat, major: nat)
    requires 0 < major && minor <= major
    ensures var b := Rounded(k, minor, major);
            Rounded(k + 1, minor, major) == if 2 * (b * major - k * minor) < 2 * minor - major then b + 1 else b
  {
    var b := Rounded(k, minor, major);
    NearestIsRounded(k, minor, major, b);
    assert (k + 1) * minor == k * minor + minor;
    assert (b + 1) * major == b * major + major;
    NearestIsRounded(k + 1, minor, major, b);
    NearestIsRounded(k + 1, minor, major, b + 1);
  }

  lemma {:induction false} RoundedMonotone(j: nat, k: nat, minor: nat, major: nat)
    requires j <= k && minor <= major
    ensures Rounded(j, minor, major) <= Rounded(k, minor, major)
    decreases k - j
  {
    if j < k && 0 < major {
      RoundedMonotone(j, k - 1, minor, major);
      RoundedStep(k - 1, minor, major);
    }
  }

  // ------------------------------------------------------- the line as a whole

  /** The line starts at p and ends at q. */
  lemma LineEnds(p: Point, q: Point)
    ensures Centre(p, q, 0) == p && Centre(p, q, Steps(p, q)) == q
  {
    var dx, dy := Abs(q.x - p.x), Abs(q.y - p.y);
    if dx >= dy { RoundedEnds(dy, dx); } else { RoundedEnds(dx, dy); }
  }

  /** It reaches q only with its last point. */
  lemma EndsAtLast(p: Point, q: Point, k: nat)
    requires k <= Steps(p, q) && Centre(p, q, k) == q
    ensures k == Steps(p, q)
  {
  }

  /** It never leaves the box between p and q. */
  lemma StaysBetween(p: Point, q: Point, k: nat)
    requires k <= Steps(p, q)
    ensures var dx, dy := Abs(q.x - p.x), Abs(q.y - p.y); AlongX(k, dx, dy) <= dx && AlongY(k, dx, dy) <= dy
  {
    var dx, dy := Abs(q.x - p.x), Abs(q.y - p.y);
    if dx >= dy {
      RoundedMonotone(k, dx, dy, dx);
      RoundedEnds(dy, dx);
    } else {
      RoundedMonotone(k, dy, dx, dy);
      RoundedEnds(dx, dy);
    }
  }

  /** Consecutive points touch: neither coordinate moves by more than one, and one of them does move. */
  lemma Connected(p: Point, q: Point, k: nat)
    requires k < Steps(p, q)
    ensures var c, d := Centre(p, q, k), Centre(p, q, k + 1);
            Abs(d.x - c.x) <= 1 && Abs(d.y - c.y) <= 1 && c != d
  {
    var dx, dy := Abs(q.x - p.x), Abs(q.y - p.y);
    if dx >= dy { RoundedStep(k, dy, dx); } else { RoundedStep(k, dx, dy); }
  }

  /** Swapping the axes swaps the coordinates of the line. */
  lemma Transposed(p: Point, q: Point, k: nat)
    requires k <= Steps(p, q)
    ensures var c := Centre(p, q, k); Centre(Point(p.y, p.x), Point(q.y, q.x), k) == Point(c.y, c.x)
  {
    var dx, dy := Abs(q.x - p.x), Abs(q.y - p.y);
    if dx == dy { RoundedDiagonal(k, dx); }
  }

  lemma RoundedDiagonal(k: nat, d: nat)
    requires k <= d
    ensures Rounded(k, d, d) == k
  {
    if d > 0 {
      assert k * d - k * d == 0;
      NearestIsRounded(k, d, d, k);
    }
  }

  // ------------------------------------------------------- the error term

  /** The error term after a steps in x and b steps in y. */
  function Error(dx: nat, dy: nat, a: nat, b: nat): int {
    dx - dy + b * dx - a * dy
  }

  /** Doubled, it stays within three times the longer side. */
  lemma ErrorBounded(p: Point, q: Point, k: nat)
    requires k <= Steps(p, q)
    ensures var dx, dy := Abs(q.x - p.x), Abs(q.y - p.y);
            Abs(2 * Error(dx, dy, AlongX(k, dx, dy), AlongY(k, dx, dy))) <= 3 * Steps(p, q)
  {
    WithinHalfPixel(p, q, k);
  }

  /** The two tests of the loop choose the next nearest point. */
  lemma TestsAreRight(p: Point, q: Point, k: nat)
    requires k < Steps(p, q)
    ensures var dx, dy := Abs(q.x - p.x), Abs(q.y - p.y);
            var a, b := AlongX(k, dx, dy), AlongY(k, dx, dy);
            var e2 := 2 * Error(dx, dy, a, b);
            && AlongX(k + 1, dx, dy) == (if e2 > 0 - dy then a + 1 else a)
            && AlongY(k + 1, dx, dy) == (if e2 < dx then b + 1 else b)
  {
    var dx, dy := Abs(q.x - p.x), Abs(q.y - p.y);
    if dx == dy {
      RoundedDiagonal(k, dx);
      RoundedDiagonal(k + 1, dx);
    } else if dx > dy {
      RoundedStep(k, dy, dx);
      NearestIsRounded(k, dy, dx, Rounded(k, dy, dx));
    } else {
      RoundedStep(k, dx, dy);
      NearestIsRounded(k, dx, dy, Rounded(k, dx, dy));
    }
  }

  // ------------------------------------------------------- thickness

  /** C division of the thickness by two. */
  function TruncHalf(t: int): int { if t >= 0 then t / 2 else -((-t) / 2) }

  /** The horizontal run of pixels from c.x-h on, n of them. */
  function Run(c: Point, h: int, n: nat): (s: seq<Point>)
    ensures |s| == n && forall i | 0 <= i < n :: s[i] == Point(c.x - h + i, c.y)
  {
    seq(n, i requires 0 <= i => Point(c.x - h + i, c.y))
  }

  function Span(c: Point, thickness: int): seq<Point> {
    var h := TruncHalf(thickness);
    Run(c, h, if h < 0 then 0 else 2 * h + 1)
  }

  function Thick(centres: seq<Point>, thickness: int): seq<Point> {
    if centres == [] then []
    else Thick(centres[..|centres| - 1], thickness) + Span(centres[|centres| - 1], thickness)
  }

  /** Within half the thickness to either side; a thickness of -1 still sets the centre. */
  predicate Beside(x: int, c: int, thickness: int) {
    2 * Abs(x - c) <= thickness || (thickness == -1 && x == c)
  }

  /** A pixel is set exactly if it lies within half the thickness of a centre of its row. */
  lemma {:induction false} ThickMembers(centres: seq<Point>, thickness: int, x: Point)
    ensures x in Thick(centres, thickness) <==>
            exists k :: 0 <= k < |centres| && x.y == centres[k].y && Beside(x.x, centres[k].x, thickness)
    decreases |centres|
  {
    if centres != [] {
      var n := |centres| - 1;
      var c := centres[n];
      ThickMembers(centres[..n], thickness, x);
      SpanMembers(c, thickness, x);
      if k :| 0 <= k < n && x.y == centres[k].y && Beside(x.x, centres[k].x, thickness) {
        assert centres[..n][k] == centres[k];
      }
    }
  }

  lemma SpanMembers(c: Point, thickness: int, x: Point)
    ensures x in Span(c, thickness) <==> x.y == c.y && Beside(x.x, c.x, thickness)
  {
    var h := TruncHalf(thickness);
    assert Abs(x.x - c.x) <= h <==> Beside(x.x, c.x, thickness);
    if x.y == c.y && Abs(x.x - c.x) <= h {
      assert Span(c, thickness)[x.x - c.x + h] == x;
    }
  }

  method DrawSpan(c: Point, thickness: int) returns (pixels: seq<Point>)
    ensures pixels == Span(c, thickness)
  {
    var h := TruncHalf(thickness);
    pixels := [];
    var i := -h;
    while i <= h
      invariant if h < 0 then i == -h else -h <= i <= h + 1
      invariant pixels == Run(c, h, i + h)
    {
      pixels := pixels + [Point(c.x + i, c.y)];
      i := i + 1;
    }
  }

  /** The centre and the error term after k steps. */
  ghost predicate At(p: Point, q: Point, k: nat, x: int, y: int, error: int) {
    var dx, dy := Abs(q.x - p.x), Abs(q.y - p.y);
    Point(x, y) == Centre(p, q, k) && error == Error(dx, dy, AlongX(k, dx, dy), AlongY(k, dx, dy))
  }

  /** The second half of the loop of draw_line. */
  method Advance(x: int, y: int, error: int, dx: nat, dy: nat, sx: int, sy: int,
                 ghost p: Point, ghost q: Point, ghost k: nat)
    returns (x': int, y': int, error': int)
    requires dx == Abs(q.x - p.x) && dy == Abs(q.y - p.y) && sx == Sign(p.x, q.x) && sy == Sign(p.y, q.y)
    requires k < Steps(p, q) && At(p, q, k, x, y, error)
    ensures At(p, q, k + 1, x', y', error')
  {
    ghost var a, b := AlongX(k, dx, dy), AlongY(k, dx, dy);
    TestsAreRight(p, q, k);
    ErrorSteps(dx, dy, a, b);
    SignSteps(p, q, a, b);
    x', y', error' := x, y, error;
    var error2 := error * 2;
    if error2 > 0 - dy {
      error' := error' - dy;
      x' := x' + sx;
    }
    if error2 < dx {
      error' := error' + dx;
      y' := y' + sy;
    }
  }

  lemma StartsRight(p: Point, q: Point)
    ensures At(p, q, 0, p.x, p.y, Abs(q.x - p.x) - Abs(q.y - p.y))
  {
    var dx, dy := Abs(q.x - p.x), Abs(q.y - p.y);
    if dx >= dy { RoundedEnds(dy, dx); } else { RoundedEnds(dx, dy); }
  }

  lemma SignSteps(p: Point, q: Point, a: nat, b: nat)
    ensures Sign(p.x, q.x) * (a + 1) == Sign(p.x, q.x) * a + Sign(p.x, q.x)
    ensures Sign(p.y, q.y) * (b + 1) == Sign(p.y, q.y) * b + Sign(p.y, q.y)
  {
  }

  /** draw_line; the pixels are listed in the order they are set. */
  method DrawLine(x0: int, y0: int, x1: int, y1: int, thickness: int) returns (pixels: seq<Point>)
    ensures var p, q := Point(x0, y0), Point(x1, y1);
            pixels == Thick(Centres(p, q, Steps(p, q) + 1), thickness)
  {
    ghost var p, q := Point(x0, y0), Point(x1, y1);
    var x, y := x0, y0;
    var dx: nat, dy: nat := Abs(x1 - x), Abs(y1 - y);
    var sx, sy := Sign(x, x1), Sign(y, y1);
    var error := dx - dy;
    ghost var k: nat := 0;
    pixels := [];
    LineEnds(p, q);
    StartsRight(p, q);
    while true
      invariant k <= Steps(p, q) && At(p, q, k, x, y, error)
      invariant pixels == Thick(Centres(p, q, k), thickness)
      decreases Steps(p, q) - k
    {
      var span := DrawSpan(Point(x, y), thickness);
      ThickGrows(p, q, k, thickness);
      pixels := pixels + span;
      if x == x1 && y == y1 {
        EndsAtLast(p, q, k);
        break;
      }
      x, y, error := Advance(x, y, error, dx, dy, sx, sy, p, q, k);
      k := k + 1;
    }
  }

  lemma ErrorSteps(dx: nat, dy: nat, a: nat, b: nat)
    ensures Error(dx, dy, a + 1, b) == Error(dx, dy, a, b) - dy
    ensures Error(dx, dy, a, b + 1) == Error(dx, dy, a, b) + dx
    ensures Error(dx, dy, a + 1, b + 1) == Error(dx, dy, a, b) - dy + dx
  {
    assert (a + 1) * dy == a * dy + dy && (b + 1) * dx == b * dx + dx;
  }

  lemma ThickGrows(p: Point, q: Point, k: nat, thickness: int)
    ensures Thick(Centres(p, q, k + 1), thickness)
            == Thick(Centres(p, q, k), thickness) + Span(Centre(p, q, k), thickness)
  {
    assert Centres(p, q, k + 1)[..k] == Centres(p, q, k);
  }
}
