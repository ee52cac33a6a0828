/** Integer line drawing: the error-term loop visits, for each step along the longer
    axis, the point nearest to the ideal segment. */
module Line {

  newtype Int32 = x: int | -0x8000_0000 <= x < 0x8000_0000

  datatype Point = Point(x: int, y: int)

  function Span(a: int, b: int): nat { if a < b then b - a else a - b }

  function Max(a: nat, b: nat): nat { if a < b then b else a }

  /** `n` pixels from `a` in the direction of `b`. */
  function Toward(a: int, b: int, n: int): int { if a < b then a + n else a - n }

  /** After `k` of `major` steps on a segment that is `minor` high: the nearest row,
      halves rounded away from the start. */
  function Nearest(k: nat, major: nat, minor: nat): nat {
    if major == 0 then 0 else (2 * k * minor + major) / (2 * major)
  }

  function Across(k: nat, dx: nat, dy: nat): nat { if dx >= dy then k else Nearest(k, dy, dx) }

  function Down(k: nat, dx: nat, dy: nat): nat { if dx >= dy then Nearest(k, dx, dy) else k }

  /** The `k`-th point of the line from `a` to `b`. */
  function Ideal(a: Point, b: Point, k: nat): Point {
    var dx, dy := Span(a.x, b.x), Span(a.y, b.y);
    Point(Toward(a.x, b.x, Across(k, dx, dy)), Toward(a.y, b.y, Down(k, dx, dy)))
  }

  function Length(a: Point, b: Point): nat { Max(Span(a.x, b.x), Span(a.y, b.y)) }

  function Path(a: Point, b: Point): seq<Point> { seq(Length(a, b) + 1, k requires k >= 0 => Ideal(a, b, k)) }

  // ------------------------------------------------------------ the nearest row

  /** `m` is within half a pixel of `k * minor / major`. */
  ghost predicate Close(k: nat, major: nat, minor: nat, m: int) {
    (2 * m - 1) * major <= 2 * (k * minor) < (2 * m + 1) * major
  }

  lemma NearestIsClose(k: nat, major: nat, minor: nat)
    requires major > 0
    ensures Close(k, major, minor, Nearest(k, major, minor))
  {
    var m, x := Nearest(k, major, minor), 2 * k * minor + major;
    assert x == (2 * major) * m + x % (2 * major);
  }

  lemma CloseIsUnique(k: nat, major: nat, minor: nat, m: int, n: int)
    requires Close(k, major, minor, m) && Close(k, major, minor, n)
    ensures m == n
  {
    if m < n { Grow(2 * m + 1, 2 * n - 1, major); }
    if n < m { Grow(2 * n + 1, 2 * m - 1, major); }
  }

  lemma Grow(p: int, q: int, d: nat)
    requires p <= q
    ensures p * d <= q * d
  {}

  /** One more step along the long axis moves the short one by one pixel exactly when
      the next half is reached. */
  lemma NearestStep(k: nat, major: nat, minor: nat)
    requires 0 < major && minor <= major
    ensures var m := Nearest(k, major, minor);
            Nearest(k + 1, major, minor) == m + if (2 * m + 1) * major <= 2 * (k * minor + minor) then 1 else 0
  {
    var m := Nearest(k, major, minor);
    var n := m + if (2 * m + 1) * major <= 2 * (k * minor + minor) then 1 else 0;
    NearestIsClose(k, major, minor);
    NearestIsClose(k + 1, major, minor);
    hide Nearest;
    assert (k + 1) * minor == k * minor + minor;
    assert (2 * m + 3) * major == (2 * m + 1) * major + 2 * major;
    CloseIsUnique(k + 1, major, minor, Nearest(k + 1, major, minor), n);
  }

  lemma NearestEnds(major: nat, minor: nat)
    requires major > 0
    ensures Nearest(0, major, minor) == 0 && Nearest(major, major, minor) == minor
  {
    NearestIsClose(0, major, minor);
    NearestIsClose(major, major, minor);
    hide Nearest;
    assert (2 * minor - 1) * major == 2 * (major * minor) - major
           && (2 * minor + 1) * major == 2 * (major * minor) + major;
    CloseIsUnique(0, major, minor, Nearest(0, major, minor), 0);
    CloseIsUnique(major, major, minor, Nearest(major, major, minor), minor);
  }

  // ------------------------------------------------------------ the whole path

  /** The path has one point per step of the longer axis, from `a` to `b`. */
  lemma PathEnds(a: Point, b: Point)
    ensures |Path(a, b)| == Max(Span(a.x, b.x), Span(a.y, b.y)) + 1
    ensures Path(a, b)[0] == a && Path(a, b)[Length(a, b)] == b
  {
    var dx, dy := Span(a.x, b.x), Span(a.y, b.y);
    if dx >= dy && dx > 0 { NearestEnds(dx, dy); }
    if dx < dy { NearestEnds(dy, dx); }
    hide Nearest;
  }

  /** Consecutive points are neighbours: at most one pixel apart on each axis, exactly
      one on the longer axis, and never moving away from `b`. */
  lemma PathConnected(a: Point, b: Point, k: nat)
    requires k < Length(a, b)
    ensures var p, q := Path(a, b)[k], Path(a, b)[k + 1];
            && (q.x == p.x || q.x == Toward(p.x, b.x, 1)) && (q.y == p.y || q.y == Toward(p.y, b.y, 1))
            && (Span(a.x, b.x) >= Span(a.y, b.y) ==> q.x != p.x) && (Span(a.x, b.x) <= Span(a.y, b.y) ==> q.y != p.y)
  {
    var dx, dy := Span(a.x, b.x), Span(a.y, b.y);
    if dx >= dy { StaysShort(k, dx, dy); } else { StaysShort(k, dy, dx); }
    hide Nearest;
  }

  lemma StaysShort(k: nat, major: nat, minor: nat)
    requires k < major && minor <= major
    ensures Nearest(k, major, minor) <= minor && Nearest(k + 1, major, minor) <= minor
    ensures Nearest(k + 1, major, minor) == Nearest(k, major, minor)
            || Nearest(k + 1, major, minor) == Nearest(k, major, minor) + 1
    ensures minor == major ==> Nearest(k + 1, major, minor) != Nearest(k, major, minor)
  {
    NearestStep(k, major, minor);
    Below(k, major, minor);
    Below(k + 1, major, minor);
    if minor == major { Diagonal(k, major); Diagonal(k + 1, major); }
  }

  lemma Below(k: nat, major: nat, minor: nat)
    requires k <= major && 0 < major
    ensures Nearest(k, major, minor) <= minor
  {
    NearestIsClose(k, major, minor);
    var m := Nearest(k, major, minor);
    hide Nearest;
    Grow(k, major, minor);
    assert (2 * minor + 1) * major == 2 * (major * minor) + major;
    if m > minor { Grow(2 * minor + 1, 2 * m - 1, major); }
  }

  lemma Diagonal(k: nat, n: nat)
    requires 0 < n
    ensures Nearest(k, n, n) == k
  {
    NearestIsClose(k, n, n);
    hide Nearest;
    assert (2 * k - 1) * n == 2 * (k * n) - n && (2 * k + 1) * n == 2 * (k * n) + n;
    CloseIsUnique(k, n, n, Nearest(k, n, n), k);
  }

  /** Every point is within half a pixel of the ideal segment, measured along the
      shorter axis. */
  lemma PathWithinHalf(a: Point, b: Point, k: nat)
    requires k <= Length(a, b) && Length(a, b) > 0
    ensures var dx, dy, p := Span(a.x, b.x), Span(a.y, b.y), Path(a, b)[k];
            if dx >= dy then
              p.x == Toward(a.x, b.x, k) && -(dx as int) <= 2 * k * dy - 2 * dx * Span(a.y, p.y) <= dx
            else
              p.y == Toward(a.y, b.y, k) && -(dy as int) <= 2 * k * dx - 2 * dy * Span(a.x, p.x) <= dy
  {
    var dx, dy, p := Span(a.x, b.x), Span(a.y, b.y), Path(a, b)[k];
    if dx >= dy {
      NearestIsClose(k, dx, dy);
      Half(k, dx, dy, Span(a.y, p.y));
    } else {
      NearestIsClose(k, dy, dx);
      Half(k, dy, dx, Span(a.x, p.x));
    }
  }

  lemma Half(k: nat, major: nat, minor: nat, m: nat)
    requires Close(k, major, minor, m)
    ensures -(major as int) <= 2 * k * minor - 2 * major * m <= major
  {}

  // ------------------------------------------------------------ the loop

  /** The error term after `i` steps across and `j` steps down. */
  function Err(i: nat, j: nat, dx: nat, dy: nat): int { j * dx + dx - (i * dy + dy) }

  /** The two tests of one round take exactly the step to the next ideal point, and no
      intermediate value is larger than three times the longer span. */
  lemma Tests(k: nat, dx: nat, dy: nat)
    requires k < Max(dx, dy)
    ensures var i, j := Across(k, dx, dy), Down(k, dx, dy);
            var e2 := 2 * Err(i, j, dx, dy);
            && Across(k + 1, dx, dy) == i + (if e2 >= -(dy as int) then 1 else 0)
            && Down(k + 1, dx, dy) == j + (if e2 <= dx then 1 else 0)
            && -3 * Max(dx, dy) <= e2 <= 3 * Max(dx, dy)
  {
    var i, j := Across(k, dx, dy), Down(k, dx, dy);
    if dx >= dy {
      NearestIsClose(k, dx, dy);
      NearestStep(k, dx, dy);
      hide Nearest;
      Spread(k, dx, dy, j);
    } else {
      NearestIsClose(k, dy, dx);
      NearestStep(k, dy, dx);
      hide Nearest;
      Spread(k, dy, dx, i);
    }
  }

  lemma Spread(k: nat, major: nat, minor: nat, m: nat)
    requires Close(k, major, minor, m)
    ensures 2 * (m * major) - major <= 2 * (k * minor) < 2 * (m * major) + major
    ensures (2 * m + 1) * major == 2 * (m * major) + major
  {}

  /** The error term on reaching the `k`-th point. */
  ghost function ErrAt(a: Point, b: Point, k: nat): int {
    var dx, dy := Span(a.x, b.x), Span(a.y, b.y);
    Err(Across(k, dx, dy), Down(k, dx, dy), dx, dy)
  }

  /** One round before the end: the point is not yet `b`, and the two tests lead to the
      next point and its error term. */
  lemma Round(a: Point, b: Point, k: nat)
    requires k < Length(a, b)
    ensures Ideal(a, b, k) != b
    ensures var dx, dy, p, q, e := Span(a.x, b.x), Span(a.y, b.y), Ideal(a, b, k), Ideal(a, b, k + 1), ErrAt(a, b, k);
            && q.x == p.x + (if 2 * e >= -(dy as int) then Sign(a.x, b.x) else 0)
            && q.y == p.y + (if 2 * e <= dx then Sign(a.y, b.y) else 0)
            && ErrAt(a, b, k + 1) == e - (if 2 * e >= -(dy as int) then dy else 0) + (if 2 * e <= dx then dx else 0)
            && -3 * Length(a, b) <= 2 * e <= 3 * Length(a, b)
    ensures Between(a.x, Ideal(a, b, k + 1).x, b.x) && Between(a.y, Ideal(a, b, k + 1).y, b.y)
  {
    hide Nearest;
    var dx, dy := Span(a.x, b.x), Span(a.y, b.y);
    Tests(k, dx, dy);
    RoundErr(Across(k, dx, dy), Down(k, dx, dy), dx, dy);
    if dx >= dy { Below(k + 1, dx, dy); } else { Below(k + 1, dy, dx); }
    assert dx >= dy ==> Across(k, dx, dy) == k < dx && Across(k + 1, dx, dy) <= dx;
    assert dx < dy ==> Down(k, dx, dy) == k < dy && Down(k + 1, dx, dy) <= dy;
    assert Across(k + 1, dx, dy) <= dx && Down(k + 1, dx, dy) <= dy;
    hide Across, Down, Err;
  }

  function Sign(a: int, b: int): int { if a < b then 1 else -1 }

  predicate Between(a: int, m: int, b: int) { a <= m <= b || b <= m <= a }

  lemma RoundErr(i: nat, j: nat, dx: nat, dy: nat)
    ensures Err(i + 1, j, dx, dy) == Err(i, j, dx, dy) - dy
    ensures Err(i, j + 1, dx, dy) == Err(i, j, dx, dy) + dx
    ensures Err(i + 1, j + 1, dx, dy) == Err(i, j, dx, dy) + dx - dy
  {
    assert (i + 1) * dy == i * dy + dy && (j + 1) * dx == j * dx + dx;
  }

  lemma Start(a: Point, b: Point)
    ensures ErrAt(a, b, 0) == Span(a.x, b.x) - Span(a.y, b.y)
  {
    var dx, dy := Span(a.x, b.x), Span(a.y, b.y);
    if dx > 0 { NearestEnds(dx, dy); }
    if dy > 0 { NearestEnds(dy, dx); }
    hide Nearest;
  }

  class Screen {
    const width: Int32
    const height: Int32
    var pixels: array2<int>

    ghost predicate Valid()
      reads this
    {
      0 <= width && 0 <= height && pixels.Length0 == width as int && pixels.Length1 == height as int
    }

    ghost predicate Shows(x: int, y: int) { 0 <= x < width as int && 0 <= y < height as int }

    /** `put_pixel` behind the bounds test of the caller. */
    method PutVisible(x: Int32, y: Int32, color: int)
      requires Valid()
      modifies pixels
      ensures forall u, v :: Shows(u, v) ==>
                pixels[u, v] == (if u == x as int && v == y as int then color else old(pixels[u, v]))
    {
      if x >= 0 && y >= 0 && x < width && y < height { pixels[x as int, y as int] := color; }
    }

    /** `gfx_draw_line`: colours exactly the on-screen points of the ideal path. All
        locals are 32-bit; they cannot overflow while three times the longer span fits. */
    method DrawLine(x0: Int32, y0: Int32, x1: Int32, y1: Int32, color: int)
      requires Valid()
      requires 3 * Length(Point(x0 as int, y0 as int), Point(x1 as int, y1 as int)) < 0x8000_0000
      modifies pixels
      ensures Valid()
      ensures var path := Path(Point(x0 as int, y0 as int), Point(x1 as int, y1 as int));
              forall x, y :: Shows(x, y) ==> pixels[x, y] == (if Point(x, y) in path then color else old(pixels[x, y]))
    {
      hide Nearest, Across, Down, Err;
      ghost var a, b := Point(x0 as int, y0 as int), Point(x1 as int, y1 as int);
      ghost var path := Path(a, b);
      PathEnds(a, b);
      Start(a, b);
      var dx := if x1 > x0 then x1 - x0 else x0 - x1;
      var sx: Int32 := if x0 < x1 then 1 else -1;
      var dy := if y1 > y0 then y0 - y1 else y1 - y0;
      var sy: Int32 := if y0 < y1 then 1 else -1;
      var err := dx + dy;
      var x, y := x0, y0;
      ghost var k := 0;
      while true
        invariant 0 <= k <= Length(a, b) && Point(x as int, y as int) == path[k]
        invariant err as int == ErrAt(a, b, k)
        invariant forall u, v :: Shows(u, v) ==>
                    pixels[u, v] == (if Point(u, v) in path[..k] then color else old(pixels[u, v]))
        decreases Length(a, b) - k
      {
        PutVisible(x, y, color);
        assert path[..k + 1] == path[..k] + [path[k]];
        if x == x1 && y == y1 {
          if k < Length(a, b) { Round(a, b, k); }
          assert path[..k + 1] == path;
          break;
        }
        Round(a, b, k);
        hide ErrAt, Ideal;
        var e2 := 2 * err;
        if e2 >= dy { err := err + dy; x := x + sx; }
        if e2 <= dx { err := err + dx; y := y + sy; }
        k := k + 1;
      }
    }
  }
}
