// The paint program's bucket tool: flood_fill of apps/botpaint/src/botpaint.c.
module FloodFill {
  import opened Arithmetic
  import opened BotCanvas

  // Points sharing an edge.
  predicate Adjacent(p: Point, q: Point) {
    Abs(p.x - q.x) + Abs(p.y - q.y) == 1
  }

  // A walk over edge-sharing points that all show the target colour.
  ghost predicate IsPath(img: Image, target: Color, path: seq<Point>) {
    && (forall i :: 0 <= i < |path| ==> path[i] in img && img[path[i]] == target)
    && (forall i :: 0 <= i < |path| - 1 ==> Adjacent(path[i], path[i + 1]))
  }

  ghost predicate Joins(path: seq<Point>, p: Point, q: Point) {
    |path| > 0 && path[0] == p && path[|path| - 1] == q
  }

  // q lies in the 4-connected component of p's colour in img.
  ghost predicate Connected(img: Image, p: Point, q: Point)
    requires p in img
  {
    exists path :: Joins(path, p, q) && IsPath(img, img[p], path)
  }

  // What the bucket tool is for: the seed's component takes the fill colour, nothing else changes.
  ghost function Filled(img: Image, seed: Point, fill: Color): Image {
    if seed !in img then img
    else map p | p in img :: if Connected(img, seed, p) then fill else img[p]
  }

  lemma SeedConnected(img: Image, p: Point)
    requires p in img
    ensures Connected(img, p, p)
  {
    assert Joins([p], p, p) && IsPath(img, img[p], [p]);
  }

  lemma ConnectedStep(img: Image, p: Point, q: Point, r: Point)
    requires p in img && Connected(img, p, q)
    requires r in img && img[r] == img[p] && Adjacent(q, r)
    ensures Connected(img, p, r)
  {
    var path :| Joins(path, p, q) && IsPath(img, img[p], path);
    assert Joins(path + [r], p, r) && IsPath(img, img[p], path + [r]);
  }

  lemma ConnectedColor(img: Image, p: Point, q: Point)
    requires p in img && Connected(img, p, q)
    ensures q in img && img[q] == img[p]
  {
    var path :| Joins(path, p, q) && IsPath(img, img[p], path);
    assert path[|path| - 1] == q;
  }

  // A set that holds the seed and every target-coloured neighbour of its members holds the component.
  lemma ClosedHoldsComponent(img: Image, seed: Point, done: iset<Point>, q: Point)
    requires seed in img && seed in done
    requires forall p, r :: p in done && r in img && img[r] == img[seed] && Adjacent(p, r) ==> r in done
    requires Connected(img, seed, q)
    ensures q in done
  {
    var path :| Joins(path, seed, q) && IsPath(img, img[seed], path);
    var i := 0;
    while i < |path| - 1
      invariant 0 <= i < |path| && path[i] in done
    {
      assert Adjacent(path[i], path[i + 1]);
      i := i + 1;
    }
  }

  // The image while filling: recoloured points are in the component, the others are as before.
  ghost predicate Progress(before: Image, now: Image, seed: Point, fill: Color)
    requires seed in before
  {
    && now.Keys == before.Keys
    && (forall p :: p in before ==>
          now[p] == before[p] || (now[p] == fill && Connected(before, seed, p)))
  }

  // p was recoloured.
  ghost predicate Done(before: Image, now: Image, p: Point) {
    p in before && p in now && now[p] != before[p]
  }

  // q is recoloured, not of the seed's colour, or waiting on the stack.
  ghost predicate Settled(before: Image, now: Image, seed: Point, waiting: seq<Point>, q: Point)
    requires seed in before
  {
    q in before && before[q] == before[seed] ==> Done(before, now, q) || q in waiting
  }

  // The invariant of the outer loop; `waiting` is the live part of the stack.
  ghost predicate Inv(before: Image, now: Image, seed: Point, fill: Color, waiting: seq<Point>) {
    && seed in before && before[seed] != fill
    && Progress(before, now, seed, fill)
    && (forall i :: 0 <= i < |waiting| ==> Connected(before, seed, waiting[i]))
    && Settled(before, now, seed, waiting, seed)
    && (forall p, q :: Done(before, now, p) && Adjacent(p, q) ==> Settled(before, now, seed, waiting, q))
  }

  lemma InvStart(before: Image, seed: Point, fill: Color)
    requires seed in before && before[seed] != fill
    ensures Inv(before, before, seed, fill, [seed])
  {
    SeedConnected(before, seed);
  }

  lemma InvDone(before: Image, now: Image, seed: Point, fill: Color)
    requires Inv(before, now, seed, fill, [])
    ensures now == Filled(before, seed, fill)
  {
    var done := iset p | Done(before, now, p);
    forall q | Connected(before, seed, q) ensures now[q] == fill {
      ClosedHoldsComponent(before, seed, done, q);
    }
  }

  // The bounds check on a popped entry never fires.
  lemma InvInBounds(before: Image, now: Image, seed: Point, fill: Color, waiting: seq<Point>, p: Point)
    requires Inv(before, now, seed, fill, waiting + [p])
    ensures p in now
  {
    assert (waiting + [p])[|waiting|] == p;
    ConnectedColor(before, seed, p);
  }

  // Dropping an entry that no longer shows the target colour.
  lemma InvSkip(before: Image, now: Image, seed: Point, fill: Color, waiting: seq<Point>, p: Point)
    requires Inv(before, now, seed, fill, waiting + [p])
    requires p in now && now[p] != before[seed]
    ensures Inv(before, now, seed, fill, waiting)
  {
    assert (waiting + [p])[|waiting|] == p;
    ConnectedColor(before, seed, p);
    forall i | 0 <= i < |waiting| ensures Connected(before, seed, waiting[i]) {
      assert (waiting + [p])[i] == waiting[i];
    }
  }

  // The horizontal run [left..right] of row y.
  predicate InRun(y: int, left: int, right: int, q: Point) {
    q.y == y && left <= q.x <= right
  }

  // A maximal run of one colour.
  ghost predicate IsRun(img: Image, target: Color, y: int, left: int, right: int) {
    && left <= right
    && (forall q :: InRun(y, left, right, q) ==> q in img && img[q] == target)
    && (Point(left - 1, y) in img ==> img[Point(left - 1, y)] != target)
    && (Point(right + 1, y) in img ==> img[Point(right + 1, y)] != target)
  }

  ghost function PaintedRun(img: Image, y: int, left: int, right: int, fill: Color): Image {
    map q | q in img :: if InRun(y, left, right, q) then fill else img[q]
  }

  // Entries pushed for the run's columns before `upto`: target-coloured points right above and below.
  ghost predicate PushedFor(img: Image, target: Color, y: int, left: int, upto: int, pushed: seq<Point>) {
    && (forall i :: 0 <= i < |pushed| ==>
          && pushed[i] in img && img[pushed[i]] == target
          && left <= pushed[i].x < upto && Abs(pushed[i].y - y) == 1)
    && (forall q :: q in img && img[q] == target && left <= q.x < upto && Abs(q.y - y) == 1 ==>
          q in pushed)
  }

  // The push of one neighbour, if it is inside and target-coloured.
  ghost function Hit(img: Image, target: Color, q: Point): seq<Point> {
    if q in img && img[q] == target then [q] else []
  }

  lemma PushedNone(img: Image, target: Color, y: int, left: int)
    ensures PushedFor(img, target, y, left, left, [])
  {
  }

  lemma PushedStep(img: Image, target: Color, y: int, left: int, i: int, pushed: seq<Point>)
    requires left <= i && PushedFor(img, target, y, left, i, pushed)
    ensures PushedFor(img, target, y, left, i + 1,
                      pushed + Hit(img, target, Point(i, y - 1)) + Hit(img, target, Point(i, y + 1)))
  {
    var above, below := Hit(img, target, Point(i, y - 1)), Hit(img, target, Point(i, y + 1));
    forall q | q in img && img[q] == target && left <= q.x < i + 1 && Abs(q.y - y) == 1
      ensures q in pushed + above + below
    {
      if q.x == i {
        assert q in above || q in below;
      }
    }
  }

  lemma RunConnected(before: Image, seed: Point, y: int, left: int, right: int, x: int, x': int)
    requires seed in before && left <= x <= right && left <= x' <= right
    requires forall q :: InRun(y, left, right, q) ==> q in before && before[q] == before[seed]
    requires Connected(before, seed, Point(x, y))
    ensures Connected(before, seed, Point(x', y))
    decreases Abs(x' - x)
  {
    if x != x' {
      var x'' := if x < x' then x' - 1 else x' + 1;
      RunConnected(before, seed, y, left, right, x, x'');
      assert InRun(y, left, right, Point(x', y));
      ConnectedStep(before, seed, Point(x'', y), Point(x', y));
    }
  }

  // Recolouring the popped point's run and pushing its vertical neighbours.
  lemma InvRun(before: Image, now: Image, seed: Point, fill: Color, waiting: seq<Point>, p: Point,
               left: int, right: int, pushed: seq<Point>)
    requires Inv(before, now, seed, fill, waiting + [p])
    requires InRun(p.y, left, right, p) && IsRun(now, before[seed], p.y, left, right)
    requires PushedFor(PaintedRun(now, p.y, left, right, fill), before[seed], p.y, left, right + 1, pushed)
    ensures Inv(before, PaintedRun(now, p.y, left, right, fill), seed, fill, waiting + pushed)
  {
    var target, now' := before[seed], PaintedRun(now, p.y, left, right, fill);
    assert (waiting + [p])[|waiting|] == p;
    forall q | InRun(p.y, left, right, q) ensures before[q] == target && Connected(before, seed, q) {
      assert forall r :: InRun(p.y, left, right, r) ==> r in before && before[r] == target;
      RunConnected(before, seed, p.y, left, right, p.x, q.x);
      assert q == Point(q.x, p.y);
    }
    assert Progress(before, now', seed, fill);
    assert forall q :: Done(before, now', q) <==> Done(before, now, q) || InRun(p.y, left, right, q);
    forall i | 0 <= i < |waiting + pushed| ensures Connected(before, seed, (waiting + pushed)[i]) {
      var q := (waiting + pushed)[i];
      if i < |waiting| {
        assert (waiting + [p])[i] == q;
      } else {
        assert q == pushed[i - |waiting|];
        ConnectedStep(before, seed, Point(q.x, p.y), q);
      }
    }
    forall q | Settled(before, now, seed, waiting + [p], q)
      ensures Settled(before, now', seed, waiting + pushed, q)
    {
    }
    forall r, q | InRun(p.y, left, right, r) && Adjacent(r, q)
      ensures Settled(before, now', seed, waiting + pushed, q)
    {
      if q in before && before[q] == target && !Done(before, now', q) {
        assert now'[q] == target && now[q] == target;
        assert q != Point(left - 1, p.y) && q != Point(right + 1, p.y);
        assert q in pushed;
      }
    }
  }

  ghost function TargetPoints(img: Image, target: Color): set<Point> {
    set p | p in img && img[p] == target
  }

  lemma TargetShrinks(img: Image, target: Color, p: Point, left: int, right: int, fill: Color)
    requires target != fill && p in img && img[p] == target && InRun(p.y, left, right, p)
    ensures TargetPoints(PaintedRun(img, p.y, left, right, fill), target) < TargetPoints(img, target)
  {
    assert p in TargetPoints(img, target) - TargetPoints(PaintedRun(img, p.y, left, right, fill), target);
  }

  // Extends left and right from a target-coloured point.
  method ScanRun(c: Canvas, p: Point, target: Color) returns (left: int, right: int)
    requires c.Valid() && c.InBounds(p) && c.At(p) == target
    ensures 0 <= left <= p.x <= right < c.width
    ensures IsRun(c.Image(), target, p.y, left, right)
  {
    left, right := p.x, p.x;
    while left > 0 && c.At(Point(left - 1, p.y)) == target
      invariant 0 <= left <= p.x
      invariant forall q :: InRun(p.y, left, p.x, q) ==> c.At(q) == target
    {
      left := left - 1;
    }
    while right < c.width - 1 && c.At(Point(right + 1, p.y)) == target
      invariant p.x <= right < c.width
      invariant forall q :: InRun(p.y, left, right, q) ==> c.At(q) == target
    {
      right := right + 1;
    }
  }

  method PaintRun(c: Canvas, y: int, left: int, right: int, fill: Color)
    requires c.Valid()
    requires 0 <= y < c.height && 0 <= left <= right < c.width
    modifies c.pixels
    ensures c.Image() == PaintedRun(old(c.Image()), y, left, right, fill)
  {
    hide Canvas.Index, Canvas.Image;
    for i := left to right + 1
      invariant c.Image() == PaintedRun(old(c.Image()), y, left, i - 1, fill)
    {
      RunGrows(old(c.Image()), y, left, i, fill);
      c.Store(Point(i, y), fill);
    }
    hide PaintedRun;
  }

  lemma RunGrows(img: Image, y: int, left: int, i: int, fill: Color)
    requires left <= i && Point(i, y) in img
    ensures PaintedRun(img, y, left, i, fill) == PaintedRun(img, y, left, i - 1, fill)[Point(i, y) := fill]
  {
  }

  // Pushes a point if it is on the canvas and target-coloured.
  method PushHit(c: Canvas, q: Point, target: Color, stack: array<Point>, top: nat) returns (top': nat)
    requires c.Valid() && (stack as object) != c.pixels && top < stack.Length
    modifies stack
    ensures top <= top' <= top + 1
    ensures c.Image() == old(c.Image())
    ensures stack[..top'] == old(stack[..top]) + Hit(old(c.Image()), target, q)
  {
    hide Canvas.Index, Canvas.Image;
    top' := top;
    if c.InBounds(q) && c.At(q) == target {
      stack[top] := q;
      top' := top + 1;
    }
  }

  // Pushes the run's target-coloured vertical neighbours, doubling the stack when it is nearly full.
  method PushNeighbours(c: Canvas, y: int, left: int, right: int, target: Color,
                        stack: array<Point>, top: nat)
    returns (stack': array<Point>, top': nat, ghost pushed: seq<Point>)
    requires c.Valid() && 0 <= y < c.height && 0 <= left <= right < c.width
    requires (stack as object) != c.pixels && 4096 <= stack.Length && top < stack.Length
    modifies stack
    ensures stack' == stack || fresh(stack')
    ensures 4096 <= stack'.Length && top' < stack'.Length
    ensures stack'[..top'] == old(stack[..top]) + pushed
    ensures PushedFor(c.Image(), target, y, left, right + 1, pushed)
  {
    hide Canvas.Index, Canvas.Image, PushedFor;
    stack', top', pushed := stack, top, [];
    ghost var img := c.Image();
    assert PushedFor(img, target, y, left, left, pushed) by { PushedNone(img, target, y, left); }
    for i := left to right + 1
      invariant stack' == stack || fresh(stack')
      invariant 4096 <= stack'.Length && top' < stack'.Length
      invariant stack'[..top'] == old(stack[..top]) + pushed
      invariant PushedFor(img, target, y, left, i, pushed) && c.Image() == img
    {
      if top' + 2 >= stack'.Length {
        stack' := Grow(stack', top');
      }
      assert c.Image() == img;
      ghost var above, below := Hit(img, target, Point(i, y - 1)), Hit(img, target, Point(i, y + 1));
      top' := PushHit(c, Point(i, y - 1), target, stack', top');
      top' := PushHit(c, Point(i, y + 1), target, stack', top');
      PushedStep(img, target, y, left, i, pushed);
      pushed := pushed + above + below;
    }
  }

  // realloc to twice the capacity.
  method Grow(stack: array<Point>, top: nat) returns (bigger: array<Point>)
    requires 0 < stack.Length && top < stack.Length
    ensures fresh(bigger) && bigger.Length == 2 * stack.Length
    ensures bigger[..top] == stack[..top]
  {
    bigger := new Point[2 * stack.Length](_ => Point(0, 0));
    for i := 0 to top
      invariant bigger[..i] == stack[..i]
    {
      bigger[i] := stack[i];
    }
  }

  lemma SameColor(img: Image, seed: Point)
    requires seed in img
    ensures Filled(img, seed, img[seed]) == img
  {
    forall p | p in img && Connected(img, seed, p) ensures img[p] == img[seed] {
      ConnectedColor(img, seed, p);
    }
  }

  method Fill(c: Canvas, sx: int, sy: int, fill: Color)
    requires c.Valid()
    modifies c.pixels
    ensures c.Image() == Filled(old(c.Image()), Point(sx, sy), fill)
  {
    hide Canvas.Index, Canvas.Image, Inv, IsRun, PushedFor, PaintedRun, Connected;
    var w, h := c.width, c.height;
    var seed := Point(sx, sy);
    if sx < 0 || sx >= w || sy < 0 || sy >= h {
      return;
    }
    ghost var before := c.Image();
    var target := c.At(seed);
    if target == fill {
      SameColor(before, seed);
      return;
    }
    var stack := new Point[4096](_ => Point(0, 0));
    stack[0] := seed;
    var top := 1;
    InvStart(before, seed, fill);
    assert stack[..top] == [seed];
    while top > 0
      invariant 4096 <= stack.Length && fresh(stack) && 0 <= top < stack.Length
      invariant Inv(before, c.Image(), seed, fill, stack[..top])
      decreases TargetPoints(c.Image(), target), top
    {
      top := top - 1;
      var p := stack[top];
      ghost var now, waiting := c.Image(), stack[..top];
      assert stack[..top + 1] == waiting + [p];
      InvInBounds(before, now, seed, fill, waiting, p);
      if p.x < 0 || p.x >= w || p.y < 0 || p.y >= h || c.At(p) != target {
        InvSkip(before, now, seed, fill, waiting, p);
      } else {
        var left, right := ScanRun(c, p, target);
        PaintRun(c, p.y, left, right, fill);
        ghost var pushed;
        stack, top, pushed := PushNeighbours(c, p.y, left, right, target, stack, top);
        InvRun(before, now, seed, fill, waiting, p, left, right, pushed);
        TargetShrinks(now, target, p, left, right, fill);
      }
    }
    assert stack[..top] == [];
    InvDone(before, c.Image(), seed, fill);
  }
}
