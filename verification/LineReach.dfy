/** Which lines are drawn to their end before the 64-bit error term gives out. */
module LineReach {
  import opened Machine
  import opened Euclid
  import opened Framebuffers
  import opened Lines

  /** The greatest common divisor of the two sides; every offset from the ideal line is a multiple of it. */
  function Common(l: Line): nat
    requires l.Major() > 0
  {
    Gcd(l.Major(), l.Minor())
  }

  /** After so many steps along the longer side the offsets repeat. */
  function Period(l: Line): (n: nat)
    requires l.Major() > 0
    ensures n > 0
  {
    GcdFits(l.Major(), l.Minor());
    l.Major() / Common(l)
  }

  /** How far offsets reach below the ideal line. */
  function Below(l: Line): int
    requires l.Major() > 0
  {
    Common(l) * ((Period(l) - 1) / 2)
  }

  /** How far offsets reach above it. */
  function Above(l: Line): int
    requires l.Major() > 0
  {
    Common(l) * (Period(l) / 2)
  }

  /** The sides are enough to tell: diagonals always fit; otherwise the extreme error terms have to. */
  predicate LineFits(l: Line) {
    if l.Dx() == l.Dy() then true
    else if l.Dx() > l.Dy() then
      2 * (l.Dx() - l.Dy() + Below(l)) <= I64_MAX && l.Dx() - 2 * l.Dy() - Above(l) >= I64_MIN
    else
      2 * (l.Dx() - l.Dy() - Below(l)) >= I64_MIN && (l.Dx() > 0 ==> -Below(l) - l.Dy() >= I64_MIN)
  }

  // ------------------------------------------------------------- the extreme offsets

  lemma PeriodDivides(l: Line) returns (p: nat)
    requires l.Major() > 0
    ensures l.Major() == Period(l) * Common(l) && l.Minor() == p * Common(l)
  {
    var g, q := Common(l), 0;
    q, p := GcdDivides(l.Major(), l.Minor());
    assert q * g / g == q by { QuotientOfMultiple(q, g); }
  }

  lemma QuotientOfMultiple(q: nat, g: int)
    requires g > 0
    ensures q * g / g == q
  {
    var x := q * g;
    assert x == (x / g) * g + x % g;
    if x / g < q {
      MultiplesApart(x / g, q, g);
    } else if q < x / g {
      MultiplesApart(q, x / g, g);
    }
  }

  lemma CommonFactor(k: int, p: int, m: int, n: int, g: int)
    ensures k * (p * g) - m * (n * g) == (k * p - m * n) * g
  {
    assert k * (p * g) == (k * p) * g;
    assert m * (n * g) == (m * n) * g;
  }

  lemma BalancedMultiple(c: int, n: int, g: int)
    requires g > 0 && n > 0
    ensures -(n * g) < 2 * (c * g) <= n * g <==> -((n - 1) / 2) <= c <= n / 2
  {
    assert 2 * (c * g) == (2 * c) * g && (-n) * g == -(n * g);
    ProductOrder(2 * c, -n, g);
    ProductOrder(2 * c, n, g);
  }

  /** A balanced multiple of `g` lies between the extreme balanced multiples. */
  lemma ExtremeMultiples(c: int, n: int, g: int)
    requires g > 0 && -((n - 1) / 2) <= c <= n / 2
    ensures -(g * ((n - 1) / 2)) <= c * g <= g * (n / 2)
  {
    var lo, hi := (n - 1) / 2, n / 2;
    ProductOrder(-lo, c, g);
    ProductOrder(c, hi, g);
    assert (-lo) * g == -(g * lo) && hi * g == g * hi;
  }

  lemma OffsetIsMultiple(l: Line, k: nat) returns (c: int)
    requires l.Major() > 0
    ensures Offset(l, k) == c * Common(l)
  {
    var p := PeriodDivides(l);
    CommonFactor(k, p, MinorAt(l, k), Period(l), Common(l));
    c := k * p - MinorAt(l, k) * Period(l);
  }

  lemma OffsetsAreBounded(l: Line, k: nat)
    requires l.Major() > 0
    ensures -Below(l) <= Offset(l, k) <= Above(l)
  {
    var _ := PeriodDivides(l);
    var c := OffsetIsMultiple(l, k);
    BalancedMultiple(c, Period(l), Common(l));
    ExtremeMultiples(c, Period(l), Common(l));
  }

  lemma OffsetIs(l: Line, k: nat, w: int)
    requires l.Major() > 0 && -l.Major() < 2 * (k * l.Minor() - w * l.Major()) <= l.Major()
    ensures Offset(l, k) == k * l.Minor() - w * l.Major()
  {
    var _ := Offset(l, k);
    RoundingIsUnique(k * l.Minor(), w, MinorAt(l, k), l.Major());
  }

  /** Within one period every balanced multiple of the common divisor occurs as an offset. */
  lemma OffsetIsMet(l: Line, c: int) returns (k: nat)
    requires l.Major() > 0 && -((Period(l) - 1) / 2) <= c <= Period(l) / 2
    ensures 1 <= k <= l.Major() && Offset(l, k) == c * Common(l)
  {
    var _ := PeriodDivides(l);
    var d, g, n := l.Major(), Common(l), Period(l);
    var w;
    k, w := MultipleMet(d, l.Minor(), n, c);
    BalancedMultiple(c, n, g);
    OffsetIs(l, k, w);
    FactorIsSmaller(n, g);
  }

  lemma LowestIsMet(l: Line) returns (k: nat)
    requires l.Major() > 0
    ensures 1 <= k <= l.Major() && Offset(l, k) == -Below(l)
  {
    var c := (Period(l) - 1) / 2;
    k := OffsetIsMet(l, -c);
    assert (-c) * Common(l) == -(Common(l) * c);
  }

  lemma HighestIsMet(l: Line) returns (k: nat)
    requires l.Major() > 0
    ensures 1 <= k <= l.Major() && Offset(l, k) == Above(l)
  {
    var _ := PeriodDivides(l);
    k := OffsetIsMet(l, Period(l) / 2);
  }

  /** At the last point the offset is what it was at the first. */
  lemma OffsetAtEnds(l: Line)
    requires l.Major() > 0
    ensures Offset(l, 0) == 0 && Offset(l, l.Major()) == 0
  {
    StartOffset(l);
    EndOffset(l);
    assert l.Major() * l.Minor() == l.Minor() * l.Major();
  }

  // -------------------------------------------------------------------- the rounds

  predicate AllRoundsFit(l: Line) { forall k :: 0 <= k < l.Major() ==> StepFits(l, k) }

  lemma AllRoundsFitIff(l: Line)
    ensures LastDrawn(l, 0) == l.Major() <==> AllRoundsFit(l)
  {
    StopsAtOverflow(l, 0);
  }

  lemma ShallowRound(l: Line, k: nat)
    requires l.Dy() < l.Dx() <= I64_MAX && LineFits(l)
    ensures StepFits(l, k)
  {
    OffsetsAreBounded(l, k);
    OffsetsAreBounded(l, k + 1);
  }

  lemma ShallowNeeds(l: Line)
    requires l.Dy() < l.Dx() && AllRoundsFit(l)
    ensures LineFits(l)
  {
    OffsetAtEnds(l);
    var low := LowestIsMet(l);
    var high := HighestIsMet(l);
    assert StepFits(l, if low < l.Major() then low else 0);
    assert StepFits(l, if high < l.Major() then high else 0);
    OffsetsAreBounded(l, 0);
  }

  lemma SteepRound(l: Line, k: nat)
    requires l.Dx() < l.Dy() <= I64_MAX && LineFits(l)
    ensures StepFits(l, k)
  {
    OffsetsAreBounded(l, k);
    OffsetsAreBounded(l, k + 1);
    NextStep(l, k);
  }

  lemma SteepNeeds(l: Line)
    requires l.Dx() < l.Dy() && AllRoundsFit(l)
    ensures LineFits(l)
  {
    OffsetAtEnds(l);
    var low := LowestIsMet(l);
    assert StepFits(l, if low < l.Major() then low else 0);
    // The step that leads to the lowest offset is one along both sides.
    NextStep(l, low - 1);
    OffsetsAreBounded(l, low - 1);
    assert StepFits(l, low - 1);
  }

  lemma DiagonalRound(l: Line, k: nat)
    requires 0 < l.Dx() == l.Dy() <= I64_MAX
    ensures StepFits(l, k)
  {
    EqualSides(l, k);
    EqualSides(l, k + 1);
  }

  /** A line is drawn to its end exactly when the extreme error terms its sides allow for fit 64 bits. */
  lemma LineCompletesIff(l: Line)
    requires l.Major() <= I64_MAX
    ensures LastDrawn(l, 0) == l.Major() <==> LineFits(l)
  {
    AllRoundsFitIff(l);
    if l.Major() > 0 {
      var _ := PeriodDivides(l);
      if LineFits(l) {
        forall k | 0 <= k < l.Major() ensures StepFits(l, k) {
          if l.Dx() == l.Dy() { DiagonalRound(l, k); }
          else if l.Dx() > l.Dy() { ShallowRound(l, k); }
          else { SteepRound(l, k); }
        }
      } else if AllRoundsFit(l) {
        if l.Dx() > l.Dy() { ShallowNeeds(l); } else { SteepNeeds(l); }
      }
    }
  }

  // -------------------------------------------------------------------- corollaries

  /** The longer side up to which every line is drawn to its end. */
  const SAFE_LENGTH: int := I64_MAX / 3 + 1

  lemma HalfMultiple(n: int, g: int)
    requires n > 0 && g > 0
    ensures 2 * (g * ((n - 1) / 2)) <= n * g - g && 2 * (g * (n / 2)) <= n * g
  {
    var low, high := (n - 1) / 2, n / 2;
    ProductOrder(2 * low, n - 1, g);
    ProductOrder(2 * high, n, g);
    assert (2 * low) * g == 2 * (g * low) && (2 * high) * g == 2 * (g * high) && (n - 1) * g == n * g - g;
  }

  lemma BelowIsUnderHalf(l: Line)
    requires l.Major() > 0
    ensures 2 * Below(l) <= l.Major() - Common(l) && 2 * Above(l) <= l.Major()
  {
    var _ := PeriodDivides(l);
    HalfMultiple(Period(l), Common(l));
  }

  lemma AxisPeriod(l: Line)
    requires l.Major() > 0 == l.Minor()
    ensures Period(l) == 1 && Below(l) == 0
  {
    assert Common(l) == l.Major();
  }

  /** The best bound on length alone: every line up to it completes ... */
  lemma ShortLineCompletes(l: Line)
    requires l.Major() <= SAFE_LENGTH
    ensures LastDrawn(l, 0) == l.Major()
  {
    if l.Major() > 0 {
      BelowIsUnderHalf(l);
      if l.Minor() == 0 { AxisPeriod(l); }
    }
    LineCompletesIff(l);
  }

  /** ... and a line one step longer does not. */
  lemma LongerLineStops()
    ensures var l := Line(0, 0, SAFE_LENGTH + 1, 1); LastDrawn(l, 0) < l.Major() == SAFE_LENGTH + 1
  {
    var l := Line(0, 0, SAFE_LENGTH + 1, 1);
    assert Gcd(l.Major(), 1) == Gcd(1, 0) == 1;
    LineCompletesIff(l);
  }

  /** A line stops at its first point exactly when the very first round overflows. */
  lemma StopsAtOnceIff(l: Line)
    requires 0 < l.Major() <= I64_MAX
    ensures LastDrawn(l, 0) == 0 <==>
      || 2 * (l.Dx() - l.Dy()) > I64_MAX || 2 * (l.Dx() - l.Dy()) < I64_MIN
      || (2 * l.Dx() > l.Dy() && l.Dx() - 2 * l.Dy() < I64_MIN)
  {
    StartOffset(l);
    NextStep(l, 0);
  }

  // ---------------------------------------------------------------------- the ends

  /** The bytes of `t` are those of `s` with the line drawn, as `DrawLine` leaves them. */
  ghost predicate HasLine(s: seq<Byte>, t: seq<Byte>, g: Geometry, l: Line, color: Color)
    requires IsDrawable(g)
  {
    |t| == |s| && forall b: nat :: b < |t| ==>
      t[b] == if exists k: nat :: k <= LastDrawn(l, 0) && DrawsByte(g, l, k, b) then Channel(g.format, color, b % 4)
              else s[b]
  }

  lemma DrawnPointShows(s: seq<Byte>, t: seq<Byte>, g: Geometry, l: Line, color: Color, k: nat, x: nat, y: nat)
    requires IsDrawable(g) && |s| == g.byteLen && HasLine(s, t, g, l, color)
    requires k <= LastDrawn(l, 0) && PointAt(l, k) == (x, y) && x < g.width && y < g.height
    ensures Shows(t, g, x, y, color)
  {
    OnScreenFits(g, x, y);
    forall b: nat | b < |t| && ColorByte(g, b, x, y) ensures t[b] == Channel(g.format, color, b % 4) {
      assert DrawsByte(g, l, k, b);
    }
    ColorBytesShow(t, g, x, y, color);
  }

  /** The first end, if it is on the screen, always shows the colour; the other one does for every line that meets the
      condition on its sides, and for no other: a line that stops short leaves its end as it was. */
  lemma EndsShow(s: seq<Byte>, t: seq<Byte>, g: Geometry, l: Line, color: Color)
    requires IsDrawable(g) && |s| == g.byteLen && HasLine(s, t, g, l, color) && l.Major() <= I64_MAX
    ensures l.x1 < g.width && l.y1 < g.height ==> Shows(t, g, l.x1, l.y1, color)
    ensures l.x2 < g.width && l.y2 < g.height ==>
      if LineFits(l) then Shows(t, g, l.x2, l.y2, color)
      else forall b: nat :: b < |t| && ColorByte(g, b, l.x2, l.y2) ==> t[b] == s[b]
  {
    LineEnds(l);
    LineCompletesIff(l);
    if l.x1 < g.width && l.y1 < g.height { DrawnPointShows(s, t, g, l, color, 0, l.x1, l.y1); }
    if l.x2 < g.width && l.y2 < g.height {
      if LineFits(l) {
        DrawnPointShows(s, t, g, l, color, l.Major(), l.x2, l.y2);
      } else {
        forall b: nat | b < |t| && ColorByte(g, b, l.x2, l.y2) ensures t[b] == s[b] {
          forall k: nat | k <= LastDrawn(l, 0) ensures !DrawsByte(g, l, k, b) {
            AtEnd(l, k);
            if DrawsByte(g, l, k, b) { SamePixel(g, b, PointAt(l, k), (l.x2, l.y2)); }
          }
        }
      }
    }
  }

  /** A byte belongs to one pixel of the screen only. */
  lemma SamePixel(g: Geometry, b: nat, p: (int, int), q: (int, int))
    requires IsDrawable(g) && ColorByte(g, b, p.0, p.1) && ColorByte(g, b, q.0, q.1)
    requires 0 <= p.0 < g.width && 0 <= q.0 < g.width
    ensures p == q
  {
    if p.1 < q.1 { MultiplesApart(p.1, q.1, g.stride); }
    if q.1 < p.1 { MultiplesApart(q.1, p.1, g.stride); }
  }
}
