/** Bresenham lines: which pixels are drawn, and how close they stay to the ideal line. */
module Lines {
  import opened Machine
  import opened Framebuffers

  datatype Line = Line(x1: nat, y1: nat, x2: nat, y2: nat) {
    function Dx(): int { if x1 <= x2 then x2 - x1 else x1 - x2 }

    function Dy(): int { if y1 <= y2 then y2 - y1 else y1 - y2 }

    function Major(): int { Max(Dx(), Dy()) }

    function Minor(): int { Min(Dx(), Dy()) }
  }

  /** `num / den` rounded to the nearest whole number, ties downwards. */
  function RoundHalfDown(num: int, den: int): nat
    requires num >= 0 && den > 0
  {
    (2 * num + den - 1) / (2 * den)
  }

  lemma Nearest(num: int, den: int)
    requires num >= 0 && den > 0
    ensures -den < 2 * num - 2 * (RoundHalfDown(num, den) * den) <= den
  {
    var n, d := 2 * num + den - 1, 2 * den;
    assert n == d * (n / d) + n % d;
    assert d * (n / d) == 2 * ((n / d) * den);
  }

  lemma RoundingIsUnique(a: int, m: int, n: int, d: int)
    requires d > 0 && -d < 2 * a - 2 * (m * d) <= d && -d < 2 * a - 2 * (n * d) <= d
    ensures m == n
  {
    if m < n {
      MultiplesApart(m, n, d);
    } else if n < m {
      MultiplesApart(n, m, d);
    }
  }

  lemma ExactRounding(m: nat, d: int)
    requires d > 0
    ensures m * d >= 0 && RoundHalfDown(m * d, d) == m
  {
    assert m * d >= 0;
    Nearest(m * d, d);
    RoundingIsUnique(m * d, m, RoundHalfDown(m * d, d), d);
  }

  lemma RoundedStep(num: int, step: int, den: int)
    requires num >= 0 && 0 <= step <= den && den > 0
    ensures var q := RoundHalfDown(num, den);
      RoundHalfDown(num + step, den) == q + if 2 * num - 2 * (q * den) + 2 * step > den then 1 else 0
  {
    var q := RoundHalfDown(num, den);
    var up := 2 * num - 2 * (q * den) + 2 * step > den;
    Nearest(num, den);
    Nearest(num + step, den);
    assert (q + 1) * den == q * den + den;
    RoundingIsUnique(num + step, q + if up then 1 else 0, RoundHalfDown(num + step, den), den);
  }

  /** Steps along the shorter side after `k` steps along the longer one. */
  function MinorAt(l: Line, k: nat): nat
    requires l.Major() > 0
  {
    assert k * l.Minor() >= 0;
    RoundHalfDown(k * l.Minor(), l.Major())
  }

  /** How far the point after `k` steps is off the ideal line along the shorter side, scaled by the longer side. */
  function Offset(l: Line, k: nat): (r: int)
    requires l.Major() > 0
    ensures -l.Major() < 2 * r <= l.Major()
  {
    Nearest(k * l.Minor(), l.Major());
    k * l.Minor() - MinorAt(l, k) * l.Major()
  }

  /** One more step along the longer side takes one along the shorter exactly when the offset would leave its range. */
  lemma NextStep(l: Line, k: nat)
    requires l.Major() > 0
    ensures var up := 2 * (Offset(l, k) + l.Minor()) > l.Major();
      && MinorAt(l, k + 1) == MinorAt(l, k) + (if up then 1 else 0)
      && Offset(l, k + 1) == Offset(l, k) + l.Minor() - (if up then l.Major() else 0)
  {
    var d, m := l.Major(), MinorAt(l, k);
    assert (k + 1) * l.Minor() == k * l.Minor() + l.Minor();
    assert (m + 1) * d == m * d + d;
    RoundedStep(k * l.Minor(), l.Minor(), d);
  }

  // ------------------------------------------------------------------ the points

  function Along(from: nat, to: nat, steps: nat): int { if from < to then from + steps else from - steps }

  function XSteps(l: Line, k: nat): nat { if l.Major() == 0 then 0 else if l.Dx() >= l.Dy() then k else MinorAt(l, k) }

  function YSteps(l: Line, k: nat): nat { if l.Major() == 0 then 0 else if l.Dx() >= l.Dy() then MinorAt(l, k) else k }

  /** The point after `k` steps along the longer side. */
  function PointAt(l: Line, k: nat): (int, int) {
    (Along(l.x1, l.x2, XSteps(l, k)), Along(l.y1, l.y2, YSteps(l, k)))
  }

  lemma StartOffset(l: Line)
    requires l.Major() > 0
    ensures MinorAt(l, 0) == 0 && Offset(l, 0) == 0
  {
    assert 0 * l.Minor() == 0;
    assert (2 * 0 + l.Major() - 1) / (2 * l.Major()) == 0;
  }

  lemma EndOffset(l: Line)
    requires l.Major() > 0
    ensures MinorAt(l, l.Major()) == l.Minor()
  {
    var d, m := l.Major(), l.Minor();
    ExactRounding(m, d);
    assert d * m == m * d;
  }

  /** The line starts at its first end and, after as many steps as its longer side, is at the other. */
  lemma LineEnds(l: Line)
    ensures PointAt(l, 0) == (l.x1, l.y1) && PointAt(l, l.Major()) == (l.x2, l.y2)
  {
    if l.Major() > 0 {
      StartOffset(l);
      EndOffset(l);
    }
  }

  /** Each step goes to one of the eight neighbours, one along the longer side. */
  lemma LineSteps(l: Line, k: nat)
    requires k < l.Major()
    ensures var (x, y), (x', y') := PointAt(l, k), PointAt(l, k + 1);
      && -1 <= x' - x <= 1 && -1 <= y' - y <= 1
      && (if l.Dx() >= l.Dy() then x' != x else y' != y)
  {
    NextStep(l, k);
  }

  /** No point is drawn twice, so a complete line has one more point than its longer side has steps. */
  lemma LinePointsDiffer(l: Line, j: nat, k: nat)
    requires j < k <= l.Major()
    ensures PointAt(l, j) != PointAt(l, k)
  {
    if l.Dx() >= l.Dy() {
      assert PointAt(l, j).0 != PointAt(l, k).0;
    } else {
      assert PointAt(l, j).1 != PointAt(l, k).1;
    }
  }

  /** After `i` steps in x and `j` in y the point is within half a pixel of the ideal line, along the shorter side. */
  lemma LineError(l: Line, k: nat)
    requires k <= l.Major()
    ensures var i, j := XSteps(l, k), YSteps(l, k);
      -l.Major() <= 2 * (i * l.Dy() - j * l.Dx()) <= l.Major()
  {
    if l.Major() > 0 { var _ := Offset(l, k); }
  }

  lemma {:induction false} MinorGrows(l: Line, j: nat, k: nat)
    requires l.Major() > 0 && j <= k
    ensures MinorAt(l, j) <= MinorAt(l, k)
    decreases k - j
  {
    if j < k {
      NextStep(l, j);
      MinorGrows(l, j + 1, k);
    }
  }

  /** No point leaves the box spanned by the two ends. */
  lemma LineStaysInBox(l: Line, k: nat)
    requires k <= l.Major()
    ensures var (x, y) := PointAt(l, k);
      && Min(l.x1, l.x2) <= x <= Max(l.x1, l.x2) && Min(l.y1, l.y2) <= y <= Max(l.y1, l.y2)
  {
    if l.Major() > 0 {
      MinorGrows(l, k, l.Major());
      EndOffset(l);
    }
  }

  // -------------------------------------------------------------- 64-bit arithmetic

  predicate FitsI64(v: int) { I64_MIN <= v <= I64_MAX }

  /** The algorithm's error term after `k` steps. */
  function Error(l: Line, k: nat): int {
    l.Dx() - l.Dy() + if l.Major() == 0 then 0 else if l.Dx() >= l.Dy() then -Offset(l, k) else Offset(l, k)
  }

  predicate GoesX(l: Line, k: nat) { 2 * Error(l, k) > -l.Dy() }

  predicate GoesY(l: Line, k: nat) { 2 * Error(l, k) < l.Dx() }

  /** Every intermediate result of round `k` fits 64 bits. */
  predicate StepFits(l: Line, k: nat) {
    && FitsI64(2 * Error(l, k))
    && (GoesX(l, k) ==> FitsI64(Error(l, k) - l.Dy()))
    && (GoesY(l, k) ==> FitsI64(Error(l, k + 1)))
  }

  /** The last step drawn: the end, or the first one after which something overflows. */
  function LastDrawn(l: Line, k: nat): (n: nat)
    requires k <= l.Major()
    ensures k <= n <= l.Major()
    decreases l.Major() - k
  {
    if k == l.Major() || !StepFits(l, k) then k else LastDrawn(l, k + 1)
  }

  lemma {:induction false} StopsAtOverflow(l: Line, k: nat)
    requires k <= l.Major()
    ensures forall j :: k <= j < LastDrawn(l, k) ==> StepFits(l, j)
    ensures LastDrawn(l, k) < l.Major() ==> !StepFits(l, LastDrawn(l, k))
    decreases l.Major() - k
  {
    if k < l.Major() && StepFits(l, k) { StopsAtOverflow(l, k + 1); }
  }

  // ------------------------------------------------------------------- on the screen

  /** The loop's variables: where the next pixel goes, and the error term. */
  datatype Pen = Pen(x: int, y: int, error: int)

  function PenAt(l: Line, k: nat): Pen { Pen(PointAt(l, k).0, PointAt(l, k).1, Error(l, k)) }

  /** The first `n` positions of the pen. */
  function LinePath(l: Line, n: nat): seq<Pen> { seq(n, k requires 0 <= k < n => PenAt(l, k)) }

  predicate Visible(g: Geometry, p: Pen) { 0 <= p.x < g.width && 0 <= p.y < g.height }

  /** The pixel indices of the visible positions of a path. */
  function VisiblePixels(g: Geometry, path: seq<Pen>): set<nat> {
    if path == [] then {}
    else
      var p := path[|path| - 1];
      VisiblePixels(g, path[..|path| - 1]) + if Visible(g, p) then {RowStart(p.y, g.stride) + p.x} else {}
  }

  lemma {:induction false} InVisiblePixels(g: Geometry, path: seq<Pen>, q: nat)
    ensures q in VisiblePixels(g, path) <==>
            exists k :: 0 <= k < |path| && Visible(g, path[k]) && RowStart(path[k].y, g.stride) + path[k].x == q
  {
    if path != [] {
      var front := path[..|path| - 1];
      InVisiblePixels(g, front, q);
      assert forall k :: 0 <= k < |front| ==> front[k] == path[k];
    }
  }

  lemma {:induction false} NothingVisible(g: Geometry, path: seq<Pen>)
    requires g.width == 0 || g.height == 0
    ensures VisiblePixels(g, path) == {}
  {
    if path != [] { NothingVisible(g, path[..|path| - 1]); }
  }

  /** What drawing the line makes of the bytes. */
  ghost function LineDrawn(s: seq<Byte>, g: Geometry, l: Line, color: Color): seq<Byte> {
    if IsDrawable(g) && Max(Max(l.x1, l.y1), Max(l.x2, l.y2)) <= I64_MAX then
      Painted(s, g.format, color, VisiblePixels(g, LinePath(l, LastDrawn(l, 0) + 1)))
    else s
  }

  /** Byte `b` is a colour byte of the pixel under the point after `k` steps, which is on the screen. */
  predicate DrawsByte(g: Geometry, l: Line, k: nat, b: nat) {
    var (x, y) := PointAt(l, k);
    0 <= x < g.width && 0 <= y < g.height && ColorByte(g, b, x, y)
  }

  lemma LinePainted(s: seq<Byte>, g: Geometry, l: Line, color: Color, b: nat)
    requires IsDrawable(g) && b < |s| && Max(Max(l.x1, l.y1), Max(l.x2, l.y2)) <= I64_MAX
    ensures LineDrawn(s, g, l, color)[b] ==
            if exists k: nat :: k <= LastDrawn(l, 0) && DrawsByte(g, l, k, b) then Channel(g.format, color, b % 4) else s[b]
  {
    var path := LinePath(l, LastDrawn(l, 0) + 1);
    InVisiblePixels(g, path, PixelOf(b));
    if k: nat :| k <= LastDrawn(l, 0) && DrawsByte(g, l, k, b) {
      assert Visible(g, path[k]) && RowStart(path[k].y, g.stride) + path[k].x == PixelOf(b);
    } else if k :| 0 <= k < |path| && Visible(g, path[k]) && RowStart(path[k].y, g.stride) + path[k].x == PixelOf(b) {
      assert b % 4 < 3 ==> DrawsByte(g, l, k, b);
    }
  }

  lemma LineStarts(l: Line)
    ensures PenAt(l, 0) == Pen(l.x1, l.y1, l.Dx() - l.Dy())
  {
    LineEnds(l);
    if l.Major() > 0 { StartOffset(l); }
  }

  /** The end is reached after the longer side's number of steps and not before. */
  lemma AtEnd(l: Line, k: nat)
    requires k <= l.Major()
    ensures PointAt(l, k) == (l.x2, l.y2) <==> k == l.Major()
  {
    LineEnds(l);
  }

  lemma EqualSides(l: Line, k: nat)
    requires l.Dx() == l.Dy() > 0
    ensures Offset(l, k) == 0
  {
    ExactRounding(k, l.Major());
  }

  function StepX(l: Line): int { if l.x1 < l.x2 then 1 else -1 }

  function StepY(l: Line): int { if l.y1 < l.y2 then 1 else -1 }

  /** One round: the two tests on the doubled error take exactly the steps to the next point. */
  lemma RoundStep(l: Line, k: nat)
    requires k < l.Major()
    ensures PenAt(l, k + 1) ==
            Pen(PenAt(l, k).x + if GoesX(l, k) then StepX(l) else 0,
                PenAt(l, k).y + if GoesY(l, k) then StepY(l) else 0,
                Error(l, k) - (if GoesX(l, k) then l.Dy() else 0) + if GoesY(l, k) then l.Dx() else 0)
  {
    NextStep(l, k);
    if l.Dx() == l.Dy() { EqualSides(l, k); }
  }

  /** A drawable screen with any pixels at all fits signed coordinates. */
  lemma ScreenFitsSigned(g: Geometry)
    requires IsDrawable(g)
    ensures g.height > 0 ==> g.width <= I64_MAX
    ensures g.width > 0 ==> g.height <= I64_MAX
  {
    if g.height > 0 { ProductGrows(1, g.height, g.stride); }
    if g.width > 0 { ProductGrows(1, g.stride, g.height); }
  }

  /** One round of the loop, or nothing when an intermediate result overflows. */
  function Round(pen: Pen, dx: int, dy: int, stepX: int, stepY: int): Option<Pen> {
    var doubled := pen.error * 2;
    if !FitsI64(doubled) then None
    else
      var goX := doubled > -dy;
      if goX && (!FitsI64(pen.error - dy) || !FitsI64(pen.x + stepX)) then None
      else
        var error, x := if goX then pen.error - dy else pen.error, if goX then pen.x + stepX else pen.x;
        if doubled < dx then
          if !FitsI64(error + dx) || !FitsI64(pen.y + stepY) then None else Some(Pen(x, pen.y + stepY, error + dx))
        else Some(Pen(x, pen.y, error))
  }

  /** The point a round leads to; when the coordinates stay in range, only the error term can overflow. */
  lemma RoundGoesTo(pen: Pen, dx: int, dy: int, stepX: int, stepY: int, to: Pen)
    requires var goX, goY := 2 * pen.error > -dy, 2 * pen.error < dx;
      && to.x == pen.x + (if goX then stepX else 0) && to.y == pen.y + (if goY then stepY else 0)
      && to.error == pen.error - (if goX then dy else 0) + (if goY then dx else 0)
    requires 0 <= to.x <= I64_MAX && 0 <= to.y <= I64_MAX
    ensures var fits := FitsI64(2 * pen.error) && (2 * pen.error > -dy ==> FitsI64(pen.error - dy))
                        && (2 * pen.error < dx ==> FitsI64(to.error));
      Round(pen, dx, dy, stepX, stepY) == if fits then Some(to) else None
  {
  }

  lemma RoundIsNext(l: Line, k: nat)
    requires k < l.Major() && Max(Max(l.x1, l.y1), Max(l.x2, l.y2)) <= I64_MAX
    ensures Round(PenAt(l, k), l.Dx(), l.Dy(), StepX(l), StepY(l)) ==
            if StepFits(l, k) then Some(PenAt(l, k + 1)) else None
  {
    RoundStep(l, k);
    LineStaysInBox(l, k + 1);
    RoundGoesTo(PenAt(l, k), l.Dx(), l.Dy(), StepX(l), StepY(l), PenAt(l, k + 1));
  }

  /** The position after `pen`, unless it is the end or something overflows. */
  function GoesOn(pen: Pen, dx: int, dy: int, stepX: int, stepY: int, x2: int, y2: int): Option<Pen> {
    if pen.x == x2 && pen.y == y2 then None else Round(pen, dx, dy, stepX, stepY)
  }

  ghost predicate LeadsOn(path: seq<Pen>, k: nat, dx: int, dy: int, stepX: int, stepY: int, x2: int, y2: int)
    requires k < |path|
  {
    GoesOn(path[k], dx, dy, stepX, stepY, x2, y2) == if k == |path| - 1 then None else Some(path[k + 1])
  }

  /** Each position leads to the next, and the last one nowhere. */
  ghost predicate Follows(path: seq<Pen>, dx: int, dy: int, stepX: int, stepY: int, x2: int, y2: int) {
    path != [] && forall k :: 0 <= k < |path| ==> LeadsOn(path, k, dx, dy, stepX, stepY, x2, y2)
  }

  lemma LineLeadsOn(l: Line, k: nat)
    requires Max(Max(l.x1, l.y1), Max(l.x2, l.y2)) <= I64_MAX && k <= LastDrawn(l, 0)
    ensures GoesOn(PenAt(l, k), l.Dx(), l.Dy(), StepX(l), StepY(l), l.x2, l.y2) ==
            if k == LastDrawn(l, 0) then None else Some(PenAt(l, k + 1))
  {
    StopsAtOverflow(l, 0);
    AtEnd(l, k);
    if k < l.Major() { RoundIsNext(l, k); }
  }

  lemma LineFollows(l: Line)
    requires Max(Max(l.x1, l.y1), Max(l.x2, l.y2)) <= I64_MAX
    ensures Follows(LinePath(l, LastDrawn(l, 0) + 1), l.Dx(), l.Dy(), StepX(l), StepY(l), l.x2, l.y2)
  {
    var path := LinePath(l, LastDrawn(l, 0) + 1);
    forall k | 0 <= k < |path| ensures LeadsOn(path, k, l.Dx(), l.Dy(), StepX(l), StepY(l), l.x2, l.y2) {
      LineLeadsOn(l, k);
    }
  }

  /** Draws the visible points of the line and nothing else. */
  method DrawLine(fb: Framebuffer, x1: U64, y1: U64, x2: U64, y2: U64, color: Color)
    requires fb.Valid()
    modifies fb.bytes
    ensures fb.bytes[..] == LineDrawn(old(fb.bytes[..]), fb.g, Line(x1, y1, x2, y2), color)
    ensures forall b :: 0 <= b < fb.bytes.Length ==>
      fb.bytes[b] == if IsDrawable(fb.g) && x1 <= I64_MAX && y1 <= I64_MAX && x2 <= I64_MAX && y2 <= I64_MAX
                        && exists k: nat ::
                             k <= LastDrawn(Line(x1, y1, x2, y2), 0) && DrawsByte(fb.g, Line(x1, y1, x2, y2), k, b)
                     then Channel(fb.g.format, color, b % 4) else old(fb.bytes[b])
  {
    var g := fb.g;
    ghost var l, start := Line(x1, y1, x2, y2), fb.bytes[..];
    if !IsDrawable(g) {
      return;
    }
    PaintNone(start, g.format, color);
    if g.width > I64_MAX || g.height > I64_MAX {
      ScreenFitsSigned(g);
      NothingVisible(g, LinePath(l, LastDrawn(l, 0) + 1));
      return;
    }
    if x2 > I64_MAX || y2 > I64_MAX || x1 > I64_MAX || y1 > I64_MAX {
      return;
    }
    LineStarts(l);
    LineFollows(l);
    WalkLine(fb, x1, y1, x2, y2, color, LinePath(l, LastDrawn(l, 0) + 1));
    forall b: nat | b < fb.bytes.Length ensures fb.bytes[b] ==
      if exists k: nat :: k <= LastDrawn(l, 0) && DrawsByte(g, l, k, b) then Channel(g.format, color, b % 4) else start[b]
    {
      LinePainted(start, g, l, color, b);
    }
  }

  method WalkLine(fb: Framebuffer, x1: nat, y1: nat, x2: nat, y2: nat, color: Color, ghost path: seq<Pen>)
    requires fb.Valid() && IsDrawable(fb.g)
    requires var l := Line(x1, y1, x2, y2);
      && Follows(path, l.Dx(), l.Dy(), StepX(l), StepY(l), x2, y2)
      && path[0] == Pen(x1, y1, l.Dx() - l.Dy())
    modifies fb.bytes
    ensures fb.bytes[..] == Painted(old(fb.bytes[..]), fb.g.format, color, VisiblePixels(fb.g, path))
  {
    var dx, dy := if x1 < x2 then x2 - x1 else x1 - x2, if y1 < y2 then y2 - y1 else y1 - y2;
    var stepX, stepY := if x1 < x2 then 1 else -1, if y1 < y2 then 1 else -1;
    var pen := Pen(x1, y1, dx - dy);
    ghost var start, k := fb.bytes[..], 0;
    assert Follows(path, dx, dy, stepX, stepY, x2, y2);
    PaintNone(start, fb.g.format, color);
    while true
      invariant k < |path| && pen == path[k]
      invariant fb.bytes[..] == Painted(start, fb.g.format, color, VisiblePixels(fb.g, path[..k]))
      decreases |path| - k
    {
      assert LeadsOn(path, k, dx, dy, stepX, stepY, x2, y2);
      assert path[..k + 1][..k] == path[..k];
      DrawVisible(fb, start, path[..k + 1], pen.x, pen.y, color);
      if pen.x == x2 && pen.y == y2 {
        break;
      }
      var next := Round(pen, dx, dy, stepX, stepY);
      if next.None? {
        break;
      }
      pen := next.value;
      k := k + 1;
    }
    assert path[..k + 1] == path;
  }

  method DrawVisible(fb: Framebuffer, ghost start: seq<Byte>, ghost path: seq<Pen>, x: int, y: int, color: Color)
    requires fb.Valid() && IsDrawable(fb.g) && |start| == fb.bytes.Length
    requires path != [] && x == path[|path| - 1].x && y == path[|path| - 1].y
    requires fb.bytes[..] == Painted(start, fb.g.format, color, VisiblePixels(fb.g, path[..|path| - 1]))
    modifies fb.bytes
    ensures fb.bytes[..] == Painted(start, fb.g.format, color, VisiblePixels(fb.g, path))
  {
    ghost var before := VisiblePixels(fb.g, path[..|path| - 1]);
    if x >= 0 && y >= 0 && x < fb.g.width && y < fb.g.height {
      fb.PaintPixel(start, before, x, y, color);
    } else {
      assert VisiblePixels(fb.g, path) == before;
    }
  }
}
