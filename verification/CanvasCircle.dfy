// bot_canvas_draw_circle and bot_canvas_fill_circle of sdk/botui/src/canvas.c, against the
// circle they approximate.
module CanvasCircle {
  import opened Arithmetic
  import opened BotCanvas

  // a is the nearest integer to the square root of s.
  predicate IsNearestRoot(a: int, s: int) {
    a * a - a <= s < a * a + a
  }

  // The offset (u, v) from the centre is a pixel of the digital circle: its larger coordinate
  // is the nearest integer to the height of the true circle over the smaller one.
  predicate OnCircle(r: int, u: int, v: int) {
    var a, b := Max(Abs(u), Abs(v)), Min(Abs(u), Abs(v));
    IsNearestRoot(a, r * r - b * b)
  }

  // How often the eight-way symmetry plots an offset: the axis and diagonal points twice.
  function TimesPlotted(r: int, u: int, v: int): nat {
    if !OnCircle(r, u, v) then 0
    else if u == 0 || v == 0 || Abs(u) == Abs(v) then 2
    else 1
  }

  // The offsets on some row between two pixels of the circle.
  ghost predicate InDisc(r: int, u: int, v: int) {
    exists w :: Abs(u) <= w && OnCircle(r, w, v)
  }

  // ----- The octant walk

  // What holds before each iteration of either circle loop.
  ghost predicate Octant(r: int, x: int, y: int, d: int) {
    && 0 < r && 0 <= y <= x + 2 && 0 <= x <= r
    && d == (y + 1) * (y + 1) + x * x - x - r * r
    && r * r - y * y < x * x + x
    && (x >= y ==> IsNearestRoot(x, r * r - y * y))
  }

  lemma OctantStart(r: int)
    requires 0 < r
    ensures Octant(r, r, 0, 1 - r)
  {
  }

  lemma OctantStep(r: int, x: int, y: int, d: int)
    requires Octant(r, x, y, d) && x >= y
    ensures 0 < x
    ensures d <= 0 ==> Octant(r, x, y + 1, d + 2 * (y + 1) + 1)
    ensures d > 0 ==> Octant(r, x - 1, y + 1, d + 2 * ((y + 1) - (x - 1)) + 1)
  {
    var y' := y + 1;
    assert y' * y' == y * y + 2 * y + 1;
    assert (y' + 1) * (y' + 1) == y' * y' + 2 * y' + 1;
    if d > 0 {
      var x' := x - 1;
      assert x' * x' == x * x - 2 * x + 1;
    }
  }

  // Two nearest roots of the same number agree.
  lemma NearestRootUnique(a: int, a': int, s: int)
    requires 0 <= a && 0 <= a' && IsNearestRoot(a, s) && IsNearestRoot(a', s)
    ensures a == a'
  {
    if a < a' {
      PronicGrows(a, a');
    } else if a' < a {
      PronicGrows(a', a);
    }
  }

  // On the octant's row y only the walk's x is on the circle.
  lemma OctantRow(r: int, x: int, y: int, d: int, u: int, v: int)
    requires Octant(r, x, y, d) && x >= y && Min(Abs(u), Abs(v)) == y
    ensures OnCircle(r, u, v) <==> Max(Abs(u), Abs(v)) == x
  {
    if OnCircle(r, u, v) {
      NearestRootUnique(Max(Abs(u), Abs(v)), x, r * r - y * y);
    }
  }

  // When the walk stops every pixel of the circle has been visited.
  lemma OctantEnd(r: int, x: int, y: int, d: int, u: int, v: int)
    requires Octant(r, x, y, d) && x < y && OnCircle(r, u, v)
    ensures Min(Abs(u), Abs(v)) < y
  {
    var a, b := Max(Abs(u), Abs(v)), Min(Abs(u), Abs(v));
    if b >= y {
      SquareGrows(y, b);
      PronicGrows(x, a);
    }
  }

  // ----- The outline

  // How often an offset occurs among the four sign choices of (a, b).
  function FourTimes(a: int, b: int, u: int, v: int): nat {
    if Abs(u) != a || Abs(v) != b then 0
    else (if a == 0 then 2 else 1) * (if b == 0 then 2 else 1)
  }

  // Every point composited as often as the eight symmetric points of (x, y) name it.
  ghost predicate PlottedEight(before: Image, now: Image, cx: int, cy: int, x: int, y: int, color: Color) {
    && now.Keys == before.Keys
    && forall p :: p in now ==>
         now[p] == BlendTimes(before[p], color,
                              FourTimes(x, y, p.x - cx, p.y - cy) + FourTimes(y, x, p.x - cx, p.y - cy))
  }

  // The image once the octant rows below `upto` were plotted.
  ghost predicate OutlinedTo(before: Image, now: Image, cx: int, cy: int, r: int, upto: int, color: Color) {
    && now.Keys == before.Keys
    && forall p :: p in now ==>
         now[p] == BlendTimes(before[p], color,
                              if Min(Abs(p.x - cx), Abs(p.y - cy)) < upto then TimesPlotted(r, p.x - cx, p.y - cy) else 0)
  }

  // What drawing a circle is, for every colour and every centre.
  ghost function Outlined(img: Image, cx: int, cy: int, r: int, color: Color): Image {
    if r <= 0 then img
    else Paint(img, (p: Point) => TimesPlotted(r, p.x - cx, p.y - cy), color)
  }

  lemma {:induction false} BlendMore(dst: Color, color: Color, m: nat, n: nat)
    ensures BlendTimes(BlendTimes(dst, color, m), color, n) == BlendTimes(dst, color, m + n)
  {
    hide AlphaBlend, Opaque;
    if n > 0 {
      BlendMore(dst, color, m, n - 1);
    }
  }

  // The eight symmetric points of (x, y) are what the circle has on the octant's row y.
  lemma EightAdd(r: int, x: int, y: int, d: int, u: int, v: int)
    requires Octant(r, x, y, d) && x >= y
    ensures (if Min(Abs(u), Abs(v)) < y then TimesPlotted(r, u, v) else 0) + FourTimes(x, y, u, v) + FourTimes(y, x, u, v)
            == if Min(Abs(u), Abs(v)) < y + 1 then TimesPlotted(r, u, v) else 0
  {
    if Min(Abs(u), Abs(v)) == y {
      OctantRow(r, x, y, d, u, v);
    }
    hide OnCircle;
  }

  lemma OutlinedStep(before: Image, now: Image, now': Image, cx: int, cy: int, r: int, x: int, y: int, d: int, color: Color)
    requires Octant(r, x, y, d) && x >= y
    requires OutlinedTo(before, now, cx, cy, r, y, color)
    requires PlottedEight(now, now', cx, cy, x, y, color)
    ensures OutlinedTo(before, now', cx, cy, r, y + 1, color)
  {
    hide AlphaBlend, BlendTimes, Octant, TimesPlotted, FourTimes;
    forall p | p in now'
      ensures now'[p] == BlendTimes(before[p], color,
                              if Min(Abs(p.x - cx), Abs(p.y - cy)) < y + 1 then TimesPlotted(r, p.x - cx, p.y - cy) else 0)
    {
      var u, v := p.x - cx, p.y - cy;
      var m := if Min(Abs(u), Abs(v)) < y then TimesPlotted(r, u, v) else 0;
      var n := FourTimes(x, y, u, v) + FourTimes(y, x, u, v);
      BlendMore(before[p], color, m, n);
      EightAdd(r, x, y, d, u, v);
    }
  }

  lemma OutlinedDone(before: Image, now: Image, cx: int, cy: int, r: int, x: int, y: int, d: int, color: Color)
    requires Octant(r, x, y, d) && x < y
    requires OutlinedTo(before, now, cx, cy, r, y, color)
    ensures now == Outlined(before, cx, cy, r, color)
  {
    hide OnCircle, BlendTimes;
    forall p: Point | OnCircle(r, p.x - cx, p.y - cy) ensures Min(Abs(p.x - cx), Abs(p.y - cy)) < y {
      OctantEnd(r, x, y, d, p.x - cx, p.y - cy);
    }
  }

  function Is(p: Point, q: Point): nat {
    if p == q then 1 else 0
  }

  lemma PlotAt(img: Image, q: Point, color: Color, p: Point)
    requires p in img
    ensures Plot(img, q, color).Keys == img.Keys
    ensures Plot(img, q, color)[p] == BlendTimes(img[p], color, Is(p, q))
  {
    hide AlphaBlend;
  }

  lemma PlotsKeys(img: Image, q1: Point, q2: Point, q3: Point, q4: Point, color: Color)
    ensures Plot(Plot(Plot(Plot(img, q1, color), q2, color), q3, color), q4, color).Keys == img.Keys
  {
    hide BlendTimes;
  }

  // Four pixel writes in a row composite a point once per write that names it.
  lemma PlotsAdd(img: Image, q1: Point, q2: Point, q3: Point, q4: Point, color: Color, p: Point)
    requires p in img
    ensures var now := Plot(Plot(Plot(Plot(img, q1, color), q2, color), q3, color), q4, color);
            now.Keys == img.Keys && now[p] == BlendTimes(img[p], color, Is(p, q1) + Is(p, q2) + Is(p, q3) + Is(p, q4))
  {
    PlotsKeys(img, q1, q2, q3, q4, color);
    hide Plot, BlendTimes, Is;
    var img1 := Plot(img, q1, color);
    var img2 := Plot(img1, q2, color);
    var img3 := Plot(img2, q3, color);
    PlotAt(img, q1, color, p);
    PlotAt(img1, q2, color, p);
    PlotAt(img2, q3, color, p);
    PlotAt(img3, q4, color, p);
    BlendMore(img[p], color, Is(p, q1), Is(p, q2));
    BlendMore(img[p], color, Is(p, q1) + Is(p, q2), Is(p, q3));
    BlendMore(img[p], color, Is(p, q1) + Is(p, q2) + Is(p, q3), Is(p, q4));
  }

  lemma FourPoints(cx: int, cy: int, a: int, b: int, p: Point)
    requires 0 <= a && 0 <= b
    ensures Is(p, Point(cx + a, cy + b)) + Is(p, Point(cx - a, cy + b)) + Is(p, Point(cx + a, cy - b)) + Is(p, Point(cx - a, cy - b))
            == FourTimes(a, b, p.x - cx, p.y - cy)
  {
  }

  lemma FourPlots(img: Image, cx: int, cy: int, a: int, b: int, color: Color)
    requires 0 <= a && 0 <= b
    ensures Plot(Plot(Plot(Plot(img, Point(cx + a, cy + b), color), Point(cx - a, cy + b), color),
                      Point(cx + a, cy - b), color), Point(cx - a, cy - b), color)
            == Paint(img, (p: Point) => FourTimes(a, b, p.x - cx, p.y - cy), color)
  {
    hide BlendTimes, Plot, Is, FourTimes;
    var q1, q2, q3, q4 := Point(cx + a, cy + b), Point(cx - a, cy + b), Point(cx + a, cy - b), Point(cx - a, cy - b);
    var now := Plot(Plot(Plot(Plot(img, q1, color), q2, color), q3, color), q4, color);
    PlotsKeys(img, q1, q2, q3, q4, color);
    forall p | p in img ensures now[p] == BlendTimes(img[p], color, FourTimes(a, b, p.x - cx, p.y - cy)) {
      PlotsAdd(img, q1, q2, q3, q4, color, p);
      FourPoints(cx, cy, a, b, p);
    }
  }

  // The four pixels at (+-a, +-b) from the centre, clipped.
  method PlotFour(c: Canvas, cx: int, cy: int, a: int, b: int, color: Color)
    requires c.Valid() && 0 <= a && 0 <= b
    modifies c.pixels
    ensures c.Image() == Paint(old(c.Image()), (p: Point) => FourTimes(a, b, p.x - cx, p.y - cy), color)
  {
    hide Canvas.Index, Canvas.Image, Plot, BlendTimes, FourTimes;
    FourPlots(c.Image(), cx, cy, a, b, color);
    c.PutPixel(cx + a, cy + b, color);
    c.PutPixel(cx - a, cy + b, color);
    c.PutPixel(cx + a, cy - b, color);
    c.PutPixel(cx - a, cy - b, color);
  }

  method PlotEight(c: Canvas, cx: int, cy: int, x: int, y: int, color: Color)
    requires c.Valid() && 0 <= x && 0 <= y
    modifies c.pixels
    ensures PlottedEight(old(c.Image()), c.Image(), cx, cy, x, y, color)
  {
    hide Canvas.Index, Canvas.Image, BlendTimes, FourTimes;
    ghost var before := c.Image();
    PlotFour(c, cx, cy, x, y, color);
    PlotFour(c, cx, cy, y, x, color);
    forall p | p in before
      ensures c.Image()[p] == BlendTimes(before[p], color,
                              FourTimes(x, y, p.x - cx, p.y - cy) + FourTimes(y, x, p.x - cx, p.y - cy))
    {
      BlendMore(before[p], color, FourTimes(x, y, p.x - cx, p.y - cy), FourTimes(y, x, p.x - cx, p.y - cy));
    }
  }

  method DrawCircle(c: Canvas, cx: int, cy: int, radius: int, color: Color)
    requires c.Valid()
    modifies c.pixels
    ensures c.Image() == Outlined(old(c.Image()), cx, cy, radius, color)
  {
    hide Canvas.Index, Canvas.Image, BlendTimes, Octant, Outlined, OutlinedTo, PlottedEight;
    if radius <= 0 {
      OutlinedNothing(c.Image(), cx, cy, radius, color);
      return;
    }
    ghost var before := c.Image();
    var x, y, d := radius, 0, 1 - radius;
    OctantStart(radius);
    OutlinedStart(before, cx, cy, radius, color);
    while x >= y
      invariant 0 <= x && 0 <= y
      invariant Octant(radius, x, y, d)
      invariant OutlinedTo(before, c.Image(), cx, cy, radius, y, color)
      decreases x - y
    {
      ghost var now := c.Image();
      PlotEight(c, cx, cy, x, y, color);
      OutlinedStep(before, now, c.Image(), cx, cy, radius, x, y, d, color);
      OctantStep(radius, x, y, d);
      y := y + 1;
      if d <= 0 {
        d := d + 2 * y + 1;
      } else {
        x := x - 1;
        d := d + 2 * (y - x) + 1;
      }
    }
    OutlinedDone(before, c.Image(), cx, cy, radius, x, y, d, color);
  }

  lemma OutlinedNothing(img: Image, cx: int, cy: int, r: int, color: Color)
    requires r <= 0
    ensures Outlined(img, cx, cy, r, color) == img
  {
  }

  lemma OutlinedStart(img: Image, cx: int, cy: int, r: int, color: Color)
    ensures OutlinedTo(img, img, cx, cy, r, 0, color)
  {
  }

  // ----- The disc

  // The two spans of half-width `half` at distance `row` above and below the centre; on the
  // centre's own row they are one span, drawn twice.
  function SpanTimes(half: int, row: int, u: int, v: int): nat {
    if Abs(v) != row || Abs(u) > half then 0 else if row == 0 then 2 else 1
  }

  // Some pixel of the circle at least as far out as (u, v) lies on row v, in the flat octants.
  ghost predicate InWideSpan(r: int, u: int, v: int) {
    exists w :: Abs(u) <= w && Abs(v) <= w && OnCircle(r, w, v)
  }

  // The circle's pixels on row v in the steep octants that are at least as far out as u.
  ghost function SteepPixels(r: int, u: int, v: int): set<int> {
    set w | Abs(u) <= w <= Abs(v) && OnCircle(r, w, v)
  }

  // How often filling composites an offset: once for the wide span of its row, twice on the centre's
  // row, and once more for every steep pixel of the row from it outwards.
  ghost function TimesFilled(r: int, u: int, v: int): nat {
    (if !InWideSpan(r, u, v) then 0 else if v == 0 then 2 else 1) + |SteepPixels(r, u, v)|
  }

  // The same for the spans of the octant rows below `upto`.
  ghost function SteepTo(r: int, upto: int, u: int, v: int): set<int> {
    set w | Abs(u) <= w <= Abs(v) && OnCircle(r, w, v) && w < upto
  }

  ghost function TimesFilledTo(r: int, upto: int, u: int, v: int): nat {
    (if Abs(v) >= upto || !InWideSpan(r, u, v) then 0 else if v == 0 then 2 else 1) + |SteepTo(r, upto, u, v)|
  }

  ghost predicate FilledTo(before: Image, now: Image, cx: int, cy: int, r: int, upto: int, color: Color) {
    && now.Keys == before.Keys
    && forall p :: p in now ==> now[p] == BlendTimes(before[p], color, TimesFilledTo(r, upto, p.x - cx, p.y - cy))
  }

  lemma WideStep(r: int, x: int, y: int, d: int, u: int, v: int)
    requires Octant(r, x, y, d) && x >= y && Abs(v) == y
    ensures InWideSpan(r, u, v) <==> Abs(u) <= x
  {
    hide Octant, OnCircle;
    if w :| Abs(u) <= w && Abs(v) <= w && OnCircle(r, w, v) {
      OctantRow(r, x, y, d, w, v);
    }
    OctantRow(r, x, y, d, x, v);
  }

  lemma SteepStep(r: int, x: int, y: int, d: int, u: int, v: int)
    requires Octant(r, x, y, d) && x >= y
    ensures |SteepTo(r, y + 1, u, v)| == |SteepTo(r, y, u, v)| + (if Abs(v) == x && Abs(u) <= y then 1 else 0)
  {
    if Abs(u) <= y <= Abs(v) {
      OctantRow(r, x, y, d, y, v);
    }
    hide OnCircle;
    var more := if Abs(v) == x && Abs(u) <= y then {y} else {};
    assert SteepTo(r, y + 1, u, v) == SteepTo(r, y, u, v) + more;
  }

  // One pass draws exactly the spans that are missing up to the next row.
  lemma SpansAdd(r: int, x: int, y: int, d: int, u: int, v: int)
    requires Octant(r, x, y, d) && x >= y
    ensures TimesFilledTo(r, y + 1, u, v) == TimesFilledTo(r, y, u, v) + SpanTimes(x, y, u, v) + SpanTimes(y, x, u, v)
  {
    OctantStep(r, x, y, d);
    SteepStep(r, x, y, d, u, v);
    if Abs(v) == y {
      WideStep(r, x, y, d, u, v);
    }
    hide SteepTo, InWideSpan, Octant;
  }

  lemma SpansEnd(r: int, x: int, y: int, d: int, u: int, v: int)
    requires Octant(r, x, y, d) && x < y
    ensures TimesFilledTo(r, y, u, v) == TimesFilled(r, u, v)
  {
    hide Octant, OnCircle;
    if w :| Abs(u) <= w && Abs(v) <= w && OnCircle(r, w, v) {
      OctantEnd(r, x, y, d, w, v);
    }
    forall w | w in SteepPixels(r, u, v) ensures w < y {
      OctantEnd(r, x, y, d, w, v);
    }
    assert SteepTo(r, y, u, v) == SteepPixels(r, u, v);
  }

  ghost predicate SpansFilled(before: Image, now: Image, cx: int, cy: int, half: int, row: int, color: Color) {
    && now.Keys == before.Keys
    && forall p :: p in now ==> now[p] == BlendTimes(before[p], color, SpanTimes(half, row, p.x - cx, p.y - cy))
  }

  // How often a horizontal run composites a point.
  function RunTimes(left: int, right: int, y: int, p: Point): nat {
    if InSpan(left, right, p.x) && p.y == y then 1 else 0
  }

  lemma TwoRuns(cx: int, cy: int, half: int, row: int, p: Point)
    requires 0 <= half && 0 <= row
    ensures RunTimes(cx - half, cx + half, cy + row, p) + RunTimes(cx - half, cx + half, cy - row, p)
            == SpanTimes(half, row, p.x - cx, p.y - cy)
  {
  }

  method FillSpans(c: Canvas, cx: int, cy: int, half: int, row: int, color: Color)
    requires c.Valid() && 0 <= half && 0 <= row
    modifies c.pixels
    ensures SpansFilled(old(c.Image()), c.Image(), cx, cy, half, row, color)
  {
    hide Canvas.Index, Canvas.Image, BlendTimes, SpanTimes, InSpan, SpansFilled;
    ghost var before := c.Image();
    c.HLine(cx - half, cx + half, cy + row, color);
    ghost var mid := c.Image();
    c.HLine(cx - half, cx + half, cy - row, color);
    RunsFill(before, mid, c.Image(), cx, cy, half, row, color);
  }

  lemma RunsFill(before: Image, mid: Image, now: Image, cx: int, cy: int, half: int, row: int, color: Color)
    requires 0 <= half && 0 <= row && mid.Keys == before.Keys && now.Keys == before.Keys
    requires forall p :: p in before ==> mid[p] == BlendTimes(before[p], color, RunTimes(cx - half, cx + half, cy + row, p))
    requires forall p :: p in before ==> now[p] == BlendTimes(mid[p], color, RunTimes(cx - half, cx + half, cy - row, p))
    ensures SpansFilled(before, now, cx, cy, half, row, color)
  {
    hide BlendTimes, SpanTimes, RunTimes;
    forall p | p in before ensures now[p] == BlendTimes(before[p], color, SpanTimes(half, row, p.x - cx, p.y - cy)) {
      BlendMore(before[p], color, RunTimes(cx - half, cx + half, cy + row, p), RunTimes(cx - half, cx + half, cy - row, p));
      TwoRuns(cx, cy, half, row, p);
    }
  }

  lemma FilledStep(before: Image, now: Image, mid: Image, now': Image, cx: int, cy: int, r: int,
                   x: int, y: int, d: int, color: Color)
    requires Octant(r, x, y, d) && x >= y
    requires FilledTo(before, now, cx, cy, r, y, color)
    requires SpansFilled(now, mid, cx, cy, x, y, color) && SpansFilled(mid, now', cx, cy, y, x, color)
    ensures FilledTo(before, now', cx, cy, r, y + 1, color)
  {
    hide Octant, TimesFilledTo, SpanTimes, BlendTimes;
    forall p | p in now'
      ensures now'[p] == BlendTimes(before[p], color, TimesFilledTo(r, y + 1, p.x - cx, p.y - cy))
    {
      var u, v := p.x - cx, p.y - cy;
      var m, wide, steep := TimesFilledTo(r, y, u, v), SpanTimes(x, y, u, v), SpanTimes(y, x, u, v);
      BlendMore(before[p], color, m, wide);
      BlendMore(before[p], color, m + wide, steep);
      SpansAdd(r, x, y, d, u, v);
    }
  }

  // What filling a circle is, for every colour and every centre.
  ghost function FilledDisc(img: Image, cx: int, cy: int, r: int, color: Color): Image {
    if r <= 0 then img
    else Paint(img, (p: Point) => TimesFilled(r, p.x - cx, p.y - cy), color)
  }

  lemma FilledDone(before: Image, now: Image, cx: int, cy: int, r: int, x: int, y: int, d: int, color: Color)
    requires 0 < r && Octant(r, x, y, d) && x < y
    requires FilledTo(before, now, cx, cy, r, y, color)
    ensures now == FilledDisc(before, cx, cy, r, color)
  {
    hide Octant, TimesFilled, TimesFilledTo, BlendTimes;
    forall p | p in now ensures now[p] == BlendTimes(before[p], color, TimesFilled(r, p.x - cx, p.y - cy)) {
      SpansEnd(r, x, y, d, p.x - cx, p.y - cy);
    }
  }

  lemma FilledStart(img: Image, cx: int, cy: int, r: int, color: Color)
    ensures FilledTo(img, img, cx, cy, r, 0, color)
  {
    forall p: Point ensures TimesFilledTo(r, 0, p.x - cx, p.y - cy) == 0 {
      assert SteepTo(r, 0, p.x - cx, p.y - cy) == {};
    }
    hide TimesFilledTo;
  }

  method FillCircle(c: Canvas, cx: int, cy: int, radius: int, color: Color)
    requires c.Valid()
    modifies c.pixels
    ensures c.Image() == FilledDisc(old(c.Image()), cx, cy, radius, color)
  {
    hide Canvas.Index, Canvas.Image, Octant, FilledTo, SpansFilled, TimesFilled, BlendTimes;
    if radius <= 0 {
      return;
    }
    hide FilledDisc;
    ghost var before := c.Image();
    var x, y, d := radius, 0, 1 - radius;
    OctantStart(radius);
    FilledStart(before, cx, cy, radius, color);
    while x >= y
      invariant 0 <= x && 0 <= y
      invariant Octant(radius, x, y, d)
      invariant FilledTo(before, c.Image(), cx, cy, radius, y, color)
      decreases x - y
    {
      ghost var now := c.Image();
      FillSpans(c, cx, cy, x, y, color);
      ghost var mid := c.Image();
      FillSpans(c, cx, cy, y, x, color);
      FilledStep(before, now, mid, c.Image(), cx, cy, radius, x, y, d, color);
      OctantStep(radius, x, y, d);
      y := y + 1;
      if d <= 0 {
        d := d + 2 * y + 1;
      } else {
        x := x - 1;
        d := d + 2 * (y - x) + 1;
      }
    }
    FilledDone(before, c.Image(), cx, cy, radius, x, y, d, color);
  }

  // Exactly the disc is composited at all.
  lemma TimesFilledMeans(r: int, u: int, v: int)
    ensures 0 < TimesFilled(r, u, v) <==> InDisc(r, u, v)
  {
    hide OnCircle;
    if w :| Abs(u) <= w && OnCircle(r, w, v) {
      assert w <= Abs(v) ==> w in SteepPixels(r, u, v);
    }
    if w :| w in SteepPixels(r, u, v) {
      assert OnCircle(r, w, v);
    } else {
      assert SteepPixels(r, u, v) == {};
    }
  }

  // So an opaque colour fills exactly the disc, and no colour changes anything outside it.
  lemma OpaqueDisc(img: Image, cx: int, cy: int, r: int, color: Color, p: Point)
    requires p in img
    ensures var now := FilledDisc(img, cx, cy, r, color);
            && now.Keys == img.Keys
            && (if r <= 0 || !InDisc(r, p.x - cx, p.y - cy) then now[p] == img[p] else Opaque(color) ==> now[p] == color)
  {
    hide TimesFilled, InDisc, AlphaBlend;
    TimesFilledMeans(r, p.x - cx, p.y - cy);
  }

  // ----- What outline and disc mean

  // Every number from 1 on has a nearest integer root, and zero has 1.
  lemma NearestRootExists(s: nat) returns (a: nat)
    ensures 0 < a && IsNearestRoot(a, s)
  {
    a := 1;
    while s >= a * a + a
      invariant 0 < a && a * a - a <= s
      decreases s - a
    {
      var a' := a + 1;
      assert a' * a' == a * a + 2 * a + 1;
      a := a';
    }
  }

  // Every row and column within the radius meets the circle, at the rounded height of the true circle.
  lemma CircleMeetsRow(r: int, v: int, w: nat)
    requires 0 < r && Abs(v) <= r && 0 < w && IsNearestRoot(w, r * r - v * v)
    ensures OnCircle(r, w, v)
  {
    var b := Abs(v);
    assert b * b == v * v;
  }

  // The filled disc holds every pixel of the true disc.
  lemma TrueDiscInDisc(r: int, u: int, v: int)
    requires 0 < r && u * u + v * v <= r * r
    ensures InDisc(r, u, v)
  {
    assert v * v <= r * r;
    SmallerSquare(v, r, r * r);
    var w := NearestRootExists(r * r - v * v);
    CircleMeetsRow(r, v, w);
    SmallerSquare(u, w, r * r - v * v);
  }

  lemma SmallerSquare(u: int, w: int, s: int)
    requires 0 < w && u * u <= s < w * w + w
    ensures Abs(u) <= w
  {
    SquareAbs(u);
    if Abs(u) > w {
      PronicGrows(w, Abs(u));
    }
  }

  // It holds no pixel beyond the radius, nor any whose squared distance exceeds r^2 + r.
  lemma DiscIsRound(r: int, u: int, v: int)
    requires 0 < r && InDisc(r, u, v)
    ensures Abs(u) <= r && Abs(v) <= r
    ensures u * u + v * v <= r * r + r
  {
    var w :| Abs(u) <= w && OnCircle(r, w, v);
    CircleRadius(r, w, v);
    SquareAbs(u);
    SquareGrows(Abs(u), w);
  }

  lemma CircleRadius(r: int, u: int, v: int)
    requires 0 < r && OnCircle(r, u, v)
    ensures r * r - r <= u * u + v * v <= r * r + r
    ensures Abs(u) <= r && Abs(v) <= r
  {
    SquareAbs(u);
    SquareAbs(v);
    CircleBand(r, Max(Abs(u), Abs(v)), Min(Abs(u), Abs(v)));
  }

  lemma CircleBand(r: int, a: int, b: int)
    requires 0 < r && 0 <= b <= a && IsNearestRoot(a, r * r - b * b)
    ensures a <= r && r * r - r <= a * a + b * b <= r * r + r
  {
    ProductNonNegative(b, b);
    if a > r {
      PronicGrows(r, a);
    }
  }

  // The filled row is the hull of what the outline plots on that row.
  lemma DiscRowIsHull(r: int, u: int, v: int)
    ensures InDisc(r, u, v) <==>
            exists left, right :: left <= u <= right && TimesPlotted(r, left, v) > 0 && TimesPlotted(r, right, v) > 0
  {
    if w :| Abs(u) <= w && OnCircle(r, w, v) {
      assert OnCircle(r, -w, v);
      assert TimesPlotted(r, -w, v) > 0 && TimesPlotted(r, w, v) > 0;
    }
    if left, right :| left <= u <= right && TimesPlotted(r, left, v) > 0 && TimesPlotted(r, right, v) > 0 {
      assert OnCircle(r, Abs(left), v) && OnCircle(r, Abs(right), v);
    }
  }
}
