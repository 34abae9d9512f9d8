// bot_canvas_draw_line of sdk/botui/src/canvas.c, against a closed form of the line it draws.
module CanvasLine {
  import opened Arithmetic
  import opened BotCanvas

  // The point k units from a towards b along one axis.
  function Toward(a: int, b: int, k: int): int {
    if a < b then a + k else a - k
  }

  // k * minor / major rounded to the nearest integer, halves up.
  function Nearest(k: nat, minor: nat, major: nat): int {
    if major == 0 then 0 else (2 * k * minor + major) / (2 * major)
  }

  // The number of moves from one end to the other: the longer of the two extents.
  function Steps(a: Point, b: Point): nat {
    Max(Abs(b.x - a.x), Abs(b.y - a.y))
  }

  // The k-th point of the digital line: k along the longer axis, the nearest pixel across it.
  function LinePoint(a: Point, b: Point, k: nat): Point {
    var dx, dy := Abs(b.x - a.x), Abs(b.y - a.y);
    if dx >= dy
    then Point(Toward(a.x, b.x, k), Toward(a.y, b.y, Nearest(k, dy, dx)))
    else Point(Toward(a.x, b.x, Nearest(k, dx, dy)), Toward(a.y, b.y, k))
  }

  // How far along the longer axis p is from a.
  function Along(a: Point, b: Point, p: Point): nat {
    if Abs(b.x - a.x) >= Abs(b.y - a.y) then Abs(p.x - a.x) else Abs(p.y - a.y)
  }

  predicate OnLine(a: Point, b: Point, p: Point) {
    Along(a, b, p) <= Steps(a, b) && p == LinePoint(a, b, Along(a, b, p))
  }

  // Twice the area spanned by a-b and a-p: zero exactly on the true line, and its ratio to
  // the longer extent is p's distance from the line along the shorter axis.
  function Cross(a: Point, b: Point, p: Point): int {
    (p.y - a.y) * (b.x - a.x) - (p.x - a.x) * (b.y - a.y)
  }

  // What rounding added: major times the distance of the k-th point from the line.
  function Rest(k: nat, minor: nat, major: nat): int {
    Nearest(k, minor, major) * major - k * minor
  }

  // The rest stays in the half-open interval (-major/2, major/2], and decides whether the
  // next step moves across.
  lemma NearestStep(k: nat, minor: nat, major: nat)
    requires 0 < major && minor <= major
    ensures var rest := Rest(k, minor, major);
            var across := if 2 * rest <= 2 * minor - major then 1 else 0;
            && 0 - major < 2 * rest <= major
            && Nearest(k + 1, minor, major) == Nearest(k, minor, major) + across
            && Rest(k + 1, minor, major) == rest - minor + across * major
  {
    var n, m := 2 * k * minor + major, 2 * major;
    var q := n / m;
    var rest := q * major - k * minor;
    assert n == q * m + n % m;
    assert 2 * (q * major) == q * m;
    assert 2 * rest == major - n % m;
    var n' := 2 * (k + 1) * minor + major;
    assert n' == q * m + (n % m + 2 * minor);
    var across := if 2 * rest <= 2 * minor - major then 1 else 0;
    assert (q + across) * m == q * m + across * m;
    QuotientIs(n', m, q + across, n % m + 2 * minor - across * m);
    assert (q + across) * major == q * major + across * major;
  }

  lemma NearestEnds(minor: nat, major: nat)
    requires minor <= major
    ensures Nearest(0, minor, major) == 0
    ensures Nearest(major, minor, major) == minor
  {
    if 0 < major {
      QuotientIs(major, 2 * major, 0, major);
      assert 2 * major * minor + major == minor * (2 * major) + major;
      QuotientIs(2 * major * minor + major, 2 * major, minor, major);
    }
  }

  lemma LineEnds(a: Point, b: Point)
    ensures LinePoint(a, b, 0) == a
    ensures LinePoint(a, b, Steps(a, b)) == b
  {
    var dx, dy := Abs(b.x - a.x), Abs(b.y - a.y);
    NearestEnds(Min(dx, dy), Max(dx, dy));
  }

  // Consecutive points are neighbours: one pixel apart along the longer axis, at most one across.
  lemma LineConnected(a: Point, b: Point, k: nat)
    requires k < Steps(a, b)
    ensures var p, q := LinePoint(a, b, k), LinePoint(a, b, k + 1);
            && Abs(q.x - p.x) <= 1 && Abs(q.y - p.y) <= 1
            && Along(a, b, q) == Along(a, b, p) + 1
  {
    var dx, dy := Abs(b.x - a.x), Abs(b.y - a.y);
    NearestStep(k, Min(dx, dy), Max(dx, dy));
  }

  // Every point is within half a pixel of the true line, measured along the shorter axis.
  lemma LineHalfPixel(a: Point, b: Point, k: nat)
    ensures Abs(2 * Cross(a, b, LinePoint(a, b, k))) <= Steps(a, b)
  {
    var dx, dy := Abs(b.x - a.x), Abs(b.y - a.y);
    if Steps(a, b) > 0 {
      NearestStep(k, Min(dx, dy), Max(dx, dy));
      CrossIsRest(a, b, k);
    }
  }

  // No pixel of the same column (row, for a steep line) is closer to the true line.
  lemma LineNearest(a: Point, b: Point, k: nat, q: Point)
    requires var p := LinePoint(a, b, k);
             if Abs(b.x - a.x) >= Abs(b.y - a.y) then q.x == p.x else q.y == p.y
    ensures Abs(Cross(a, b, LinePoint(a, b, k))) <= Abs(Cross(a, b, q))
  {
    var p := LinePoint(a, b, k);
    LineHalfPixel(a, b, k);
    hide LinePoint;
    if Abs(b.x - a.x) >= Abs(b.y - a.y) {
      CrossShift(p.y - a.y, q.y - a.y, b.x - a.x);
      OffByMultiple(Cross(a, b, p), q.y - p.y, b.x - a.x);
    } else {
      CrossShift(p.x - a.x, q.x - a.x, b.y - a.y);
      OffByMultiple(-Cross(a, b, p), q.x - p.x, b.y - a.y);
    }
  }

  lemma CrossShift(s: int, s': int, t: int)
    ensures s' * t == s * t + (s' - s) * t
  {
  }

  lemma OffByMultiple(cross: int, off: int, extent: int)
    requires Abs(2 * cross) <= Abs(extent)
    ensures Abs(cross) <= Abs(cross + off * extent)
  {
    if off != 0 {
      AbsMultiple(off, extent);
    }
  }

  // The points of the line are exactly the walk of its closed form.
  lemma OnLineIsWalk(a: Point, b: Point, p: Point)
    ensures OnLine(a, b, p) <==> exists k: nat :: k <= Steps(a, b) && p == LinePoint(a, b, k)
  {
    if k: nat :| k <= Steps(a, b) && p == LinePoint(a, b, k) {
      AlongLinePoint(a, b, k);
    }
  }

  lemma CrossIsRest(a: Point, b: Point, k: nat)
    ensures var minor := Min(Abs(b.x - a.x), Abs(b.y - a.y));
            Abs(Cross(a, b, LinePoint(a, b, k))) ==
            Abs(Rest(k, minor, Steps(a, b)))
  {
    var dx, dy, p := Abs(b.x - a.x), Abs(b.y - a.y), LinePoint(a, b, k);
    var r := Nearest(k, Min(dx, dy), Max(dx, dy));
    var u, v := if dx >= dy then k else r, if dx >= dy then r else k;
    var right, up := a.x < b.x, a.y < b.y;
    SignedProduct(up, right, v, dx);
    SignedProduct(right, up, u, dy);
    assert p.y - a.y == Signed(up, v) && b.x - a.x == Signed(right, dx);
    assert p.x - a.x == Signed(right, u) && b.y - a.y == Signed(up, dy);
    assert Cross(a, b, p) == Signed(up == right, v * dx) - Signed(up == right, u * dy);
  }

  function Signed(positive: bool, v: int): int {
    if positive then v else -v
  }

  lemma SignedProduct(p: bool, q: bool, v: int, d: int)
    ensures Signed(p, v) * Signed(q, d) == Signed(p == q, v * d)
  {
  }

  // The error term of the code after k moves: off by what rounding added.
  ghost function ErrorTerm(a: Point, b: Point, k: nat): int {
    var dx, dy := Abs(b.x - a.x), Abs(b.y - a.y);
    if dx >= dy then dx - dy + Rest(k, dy, dx) else dx - dy - Rest(k, dx, dy)
  }

  lemma ErrorStart(a: Point, b: Point)
    ensures ErrorTerm(a, b, 0) == Abs(b.x - a.x) - Abs(b.y - a.y)
  {
    var dx, dy := Abs(b.x - a.x), Abs(b.y - a.y);
    NearestEnds(Min(dx, dy), Max(dx, dy));
  }

  // One loop iteration: the two tests on the doubled error move exactly to the next line point.
  lemma ErrorStep(a: Point, b: Point, k: nat)
    requires a.x != b.x && a.y != b.y
    ensures var dx, dy, err := Abs(b.x - a.x), -Abs(b.y - a.y), ErrorTerm(a, b, k);
            var p, q := LinePoint(a, b, k), LinePoint(a, b, k + 1);
            && q.x == (if 2 * err >= dy then Toward(a.x, b.x, 1) - a.x + p.x else p.x)
            && q.y == (if 2 * err <= dx then Toward(a.y, b.y, 1) - a.y + p.y else p.y)
            && ErrorTerm(a, b, k + 1) == err + (if 2 * err >= dy then dy else 0) + (if 2 * err <= dx then dx else 0)
  {
    hide Nearest, Rest;
    var dx, dy := Abs(b.x - a.x), Abs(b.y - a.y);
    NearestStep(k, Min(dx, dy), Max(dx, dy));
  }

  // What drawing a line is: each of its points composited exactly once, the rest untouched.
  ghost function LineDrawn(img: Image, a: Point, b: Point, color: Color): Image {
    Paint(img, (p: Point) => if OnLine(a, b, p) then 1 else 0, color)
  }

  // The image after the first k line points were plotted.
  ghost predicate DrawnTo(before: Image, now: Image, a: Point, b: Point, k: nat, color: Color) {
    && now.Keys == before.Keys
    && forall p :: p in now ==>
         now[p] == BlendTimes(before[p], color, if OnLine(a, b, p) && Along(a, b, p) < k then 1 else 0)
  }

  lemma DrawnStart(before: Image, a: Point, b: Point, color: Color)
    ensures DrawnTo(before, before, a, b, 0, color)
  {
  }

  lemma AlongLinePoint(a: Point, b: Point, k: nat)
    ensures Along(a, b, LinePoint(a, b, k)) == k
  {
  }

  lemma DrawnStep(before: Image, now: Image, a: Point, b: Point, k: nat, color: Color)
    requires DrawnTo(before, now, a, b, k, color) && k <= Steps(a, b)
    ensures DrawnTo(before, Plot(now, LinePoint(a, b, k), color), a, b, k + 1, color)
  {
    hide LinePoint, AlphaBlend;
    AlongLinePoint(a, b, k);
  }

  lemma DrawnDone(before: Image, now: Image, a: Point, b: Point, color: Color)
    requires DrawnTo(before, now, a, b, Steps(a, b) + 1, color)
    ensures now == LineDrawn(before, a, b, color)
  {
  }

  method DrawLine(c: Canvas, x1: int, y1: int, x2: int, y2: int, color: Color)
    requires c.Valid()
    modifies c.pixels
    ensures c.Image() == LineDrawn(old(c.Image()), Point(x1, y1), Point(x2, y2), color)
  {
    hide Canvas.Index, Canvas.Image, BlendTimes, ErrorTerm, LinePoint, DrawnTo, LineDrawn;
    ghost var a, b := Point(x1, y1), Point(x2, y2);
    if y1 == y2 {
      AxisAlignedPaint(c.Image(), a, b, color);
      c.HLine(x1, x2, y1, color);
      return;
    }
    if x1 == x2 {
      AxisAlignedPaint(c.Image(), a, b, color);
      c.VLine(x1, y1, y2, color);
      return;
    }
    var dx, dy := Abs(x2 - x1), -Abs(y2 - y1);
    var sx, sy := if x1 < x2 then 1 else -1, if y1 < y2 then 1 else -1;
    var err := dx + dy;
    var x, y := x1, y1;
    ghost var k := 0;
    LineEnds(a, b);
    ErrorStart(a, b);
    DrawnStart(c.Image(), a, b, color);
    while true
      invariant k <= Steps(a, b)
      invariant Point(x, y) == LinePoint(a, b, k)
      invariant err == ErrorTerm(a, b, k)
      invariant DrawnTo(old(c.Image()), c.Image(), a, b, k, color)
      decreases Steps(a, b) - k
    {
      DrawnStep(old(c.Image()), c.Image(), a, b, k, color);
      AlongLinePoint(a, b, k);
      c.PutPixel(x, y, color);
      if x == x2 && y == y2 {
        DrawnDone(old(c.Image()), c.Image(), a, b, color);
        break;
      }
      ErrorStep(a, b, k);
      var e2 := 2 * err;
      if e2 >= dy {
        err, x := err + dy, x + sx;
      }
      if e2 <= dx {
        err, y := err + dx, y + sy;
      }
      k := k + 1;
    }
  }

  // On an axis-aligned line the closed form is the whole span.
  lemma AxisAligned(a: Point, b: Point)
    requires a.x == b.x || a.y == b.y
    ensures forall p :: OnLine(a, b, p) <==> InSpan(a.x, b.x, p.x) && InSpan(a.y, b.y, p.y)
  {
    forall k: nat ensures Nearest(k, 0, Steps(a, b)) == 0 {
      if 0 < Steps(a, b) {
        assert k * 0 == 0;
        QuotientIs(Steps(a, b), 2 * Steps(a, b), 0, Steps(a, b));
      }
    }
    forall p ensures OnLine(a, b, p) <==> InSpan(a.x, b.x, p.x) && InSpan(a.y, b.y, p.y) {
      assert Nearest(Along(a, b, p), 0, Steps(a, b)) == 0;
    }
  }

  lemma AxisAlignedPaint(img: Image, a: Point, b: Point, color: Color)
    requires a.x == b.x || a.y == b.y
    ensures a.y == b.y ==>
              Paint(img, (p: Point) => if InSpan(a.x, b.x, p.x) && p.y == a.y then 1 else 0, color) == LineDrawn(img, a, b, color)
    ensures a.x == b.x ==>
              Paint(img, (p: Point) => if InSpan(a.y, b.y, p.y) && p.x == a.x then 1 else 0, color) == LineDrawn(img, a, b, color)
  {
    hide OnLine, AlphaBlend;
    AxisAligned(a, b);
  }
}
