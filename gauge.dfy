/** The angular part of `TimerGraphElement.update` (index.js:77-101): the
    progress between the start and the target instant, the angle where the
    gauge's two arcs meet, and the SVG large-arc flag of each arc (the
    `large-arc-flag` of the elliptical-arc path command, section 8.3.8 of
    SVG 1.1). Angles are in degrees of the source's convention: the point at
    angle θ is drawn at (cos(-θ), sin(-θ)) times the radius in SVG user space,
    whose y axis points down. Numbers are exact reals, not doubles. */
module Gauge {

  /** An idealised JavaScript number: an exact value or one of the special
      values that dividing by zero produces. */
  datatype Number = Finite(v: real) | PosInfinity | NegInfinity | NaN

  /** `x / y` on numbers: dividing by zero gives an infinity of the sign of
      `x`, or NaN when `x` is zero too. */
  function Divide(x: real, y: real): (q: Number)
    ensures y != 0.0 ==> q == Finite(x / y)
    ensures q == NaN <==> x == 0.0 && y == 0.0
  {
    if y != 0.0 then Finite(x / y)
    else if x > 0.0 then PosInfinity
    else if x < 0.0 then NegInfinity
    else NaN
  }

  /** The order of the non-NaN numbers, infinities at the ends. */
  predicate AtMost(a: Number, b: Number)
    requires a != NaN && b != NaN
  {
    a == NegInfinity || b == PosInfinity || (a.Finite? && b.Finite? && a.v <= b.v)
  }

  /** `Math.min(a, b)`: NaN if either is NaN. */
  function Min(a: Number, b: Number): (m: Number)
    ensures m == NaN <==> a == NaN || b == NaN
    ensures m != NaN ==> (m == a || m == b) && AtMost(m, a) && AtMost(m, b)
  {
    if a == NaN || b == NaN then NaN else if AtMost(a, b) then a else b
  }

  /** `Math.max(a, b)`: NaN if either is NaN. */
  function Max(a: Number, b: Number): (m: Number)
    ensures m == NaN <==> a == NaN || b == NaN
    ensures m != NaN ==> (m == a || m == b) && AtMost(a, m) && AtMost(b, m)
  {
    if a == NaN || b == NaN then NaN else if AtMost(a, b) then b else a
  }

  /** `Math.abs(x) < 180 ? 0 : 1` on numbers: NaN and the infinities fail the
      comparison and give 1. */
  function FlagOf(x: Number): int {
    if x.Finite? && -180.0 < x.v < 180.0 then 0 else 1
  }

  const StartDeg: real := 270.0 - 16.0
  const EndDeg: real := -90.0 + 16.0
  /** The gauge's stroke width `width`; each path is drawn with half of it. */
  const Width: real := 0.2
  const Radius: real := 1.0 - Width * 0.5
  const StrokeWidth: real := Width * 0.5

  // ---------------------------------------------------------------------
  // The computation as written, over numbers.

  /** `Math.max(0, Math.min(1, (current - start) / (target - start)))`. */
  function ProgressAsWritten(startMs: int, currentMs: int, targetMs: int): Number {
    Max(Finite(0.0), Min(Finite(1.0), Divide((currentMs - startMs) as real, (targetMs - startMs) as real)))
  }

  /** `startDeg * (1 - progress) + endDeg * progress` on numbers (the
      infinities are listed for completeness; a clamped progress is never one). */
  function MiddleDegAsWritten(p: Number): Number {
    match p
    case Finite(v) => Finite(StartDeg * (1.0 - v) + EndDeg * v)
    case PosInfinity => NegInfinity
    case NegInfinity => PosInfinity
    case NaN => NaN
  }

  /** `endDeg - middleDeg` and `middleDeg - startDeg` on numbers. */
  function EndMinus(m: Number): Number {
    match m
    case Finite(v) => Finite(EndDeg - v)
    case PosInfinity => NegInfinity
    case NegInfinity => PosInfinity
    case NaN => NaN
  }

  function MinusStart(m: Number): Number {
    match m
    case Finite(v) => Finite(v - StartDeg)
    case _ => m
  }

  /** The two large-arc flags as written: (remaining arc, elapsed arc). */
  function FlagsAsWritten(startMs: int, currentMs: int, targetMs: int): (int, int) {
    var middle := MiddleDegAsWritten(ProgressAsWritten(startMs, currentMs, targetMs));
    (FlagOf(EndMinus(middle)), FlagOf(MinusStart(middle)))
  }

  /** When start, current and target coincide, the source divides 0 by 0:
      progress is NaN and both arcs get the large-arc flag, which no
      angle on the gauge can produce (see AtMostOneLargeArc). */
  lemma DegenerateRangeAsWritten(t: int)
    ensures ProgressAsWritten(t, t, t) == NaN
    ensures FlagsAsWritten(t, t, t) == (1, 1)
  {
  }

  // ---------------------------------------------------------------------
  // The computation with the degenerate range guarded, over reals.

  /** `Math.max(0, Math.min(1, x))`. */
  function Clamp01(x: real): (p: real)
    ensures 0.0 <= p <= 1.0
    ensures 0.0 <= x <= 1.0 ==> p == x
    ensures x < 0.0 ==> p == 0.0
    ensures x > 1.0 ==> p == 1.0
  {
    if x < 0.0 then 0.0 else if x > 1.0 then 1.0 else x
  }

  /** The fraction of the way from start to target at the current instant,
      clamped to [0, 1]. An empty range counts as complete once the current
      instant has reached the start. */
  function Progress(startMs: int, currentMs: int, targetMs: int): (p: real)
    ensures 0.0 <= p <= 1.0
  {
    if targetMs == startMs then (if currentMs >= startMs then 1.0 else 0.0)
    else Clamp01((currentMs - startMs) as real / (targetMs - startMs) as real)
  }

  /** Linear interpolation from `StartDeg` at progress 0 to `EndDeg` at 1. */
  function MiddleDeg(p: real): real {
    StartDeg * (1.0 - p) + EndDeg * p
  }

  /** `Math.abs(toDeg - fromDeg) < 180 ? 0 : 1`. */
  function LargeArcFlag(fromDeg: real, toDeg: real): int {
    if -180.0 < toDeg - fromDeg < 180.0 then 0 else 1
  }

  /** One `<path>`'s arc: from the point at `fromDeg` to the point at `toDeg`
      on a circle of `radius`, with its large-arc and sweep flags, drawn with
      `strokeWidth` in `color`. */
  datatype Arc = Arc(
    fromDeg: real, toDeg: real, radius: real, largeArc: int, sweep: int,
    strokeWidth: real, color: string)

  datatype GaugeShape = GaugeShape(progress: real, middleDeg: real, remaining: Arc, elapsed: Arc)

  /** The two arcs: what remains, from the meeting angle to the end of the
      gauge (`path1`), and what has elapsed, from the start of the gauge to
      the meeting angle (`path2`). Both sweep in the positive direction. */
  function Render(startMs: int, currentMs: int, targetMs: int): (g: GaugeShape)
    ensures 0.0 <= g.progress <= 1.0
    ensures EndDeg <= g.middleDeg <= StartDeg
    ensures g.elapsed.fromDeg == StartDeg && g.elapsed.toDeg == g.middleDeg
    ensures g.remaining.fromDeg == g.middleDeg && g.remaining.toDeg == EndDeg
    ensures g.remaining.sweep == 1 && g.elapsed.sweep == 1
    ensures g.progress == Progress(startMs, currentMs, targetMs) && g.middleDeg == MiddleDeg(g.progress)
    ensures g.remaining.radius == g.elapsed.radius == 0.9
    ensures g.remaining.strokeWidth == g.elapsed.strokeWidth == 0.1
    ensures g.remaining.color == "#0F3460" && g.elapsed.color == "#E94560"
  {
    var p := Progress(startMs, currentMs, targetMs);
    var middle := MiddleDeg(p);
    GaugeShape(p, middle,
      Arc(middle, EndDeg, Radius, LargeArcFlag(middle, EndDeg), 1, StrokeWidth, "#0F3460"),
      Arc(StartDeg, middle, Radius, LargeArcFlag(StartDeg, middle), 1, StrokeWidth, "#E94560"))
  }

  /** Where the source's progress is a number at all, it is the guarded one;
      it is NaN exactly when start, current and target coincide. */
  lemma ProgressAgreesWithSource(startMs: int, currentMs: int, targetMs: int)
    ensures ProgressAsWritten(startMs, currentMs, targetMs) == NaN
        <==> startMs == currentMs == targetMs
    ensures ProgressAsWritten(startMs, currentMs, targetMs) != NaN ==>
      ProgressAsWritten(startMs, currentMs, targetMs) == Finite(Progress(startMs, currentMs, targetMs))
  {
  }

  /** Away from the empty span, the flags as written are those of the
      guarded gauge: the two computations differ only where the source
      divides 0 by 0. */
  lemma FlagsAgreeWithSource(startMs: int, currentMs: int, targetMs: int)
    requires !(startMs == currentMs == targetMs)
    ensures var g := Render(startMs, currentMs, targetMs);
      FlagsAsWritten(startMs, currentMs, targetMs) == (g.remaining.largeArc, g.elapsed.largeArc)
  {
    ProgressAgreesWithSource(startMs, currentMs, targetMs);
  }

  /** Progress 0 at the start and 1 at the target for any non-empty span,
      and, for a span running forward, clamped outside the range. */
  lemma ProgressEndpoints(startMs: int, currentMs: int, targetMs: int)
    requires startMs != targetMs
    ensures Progress(startMs, startMs, targetMs) == 0.0
    ensures Progress(startMs, targetMs, targetMs) == 1.0
    ensures startMs < targetMs && currentMs <= startMs ==> Progress(startMs, currentMs, targetMs) == 0.0
    ensures startMs < targetMs && currentMs >= targetMs ==> Progress(startMs, currentMs, targetMs) == 1.0
  {
    var d := (targetMs - startMs) as real;
    assert (startMs - startMs) as real / d == 0.0;
    assert (targetMs - startMs) as real / d == 1.0;
    if startMs < targetMs {
      QuotientBounds((currentMs - startMs) as real, d);
    }
  }

  /** A target entered in the past, before the page was loaded: from the
      load on, the gauge shows no progress at all. */
  lemma PastTargetShowsNoProgress(startMs: int, currentMs: int, targetMs: int)
    requires targetMs < startMs <= currentMs
    ensures Progress(startMs, currentMs, targetMs) == 0.0
    ensures Render(startMs, currentMs, targetMs).middleDeg == StartDeg
  {
    var x, d := (currentMs - startMs) as real, (targetMs - startMs) as real;
    assert x / d <= 0.0 by {
      QuotientBounds(0.0 - x, 0.0 - d);
      assert x / d == (0.0 - x) / (0.0 - d);
    }
  }

  /** The guard of the corrected progress: an empty span is complete once
      the current instant has reached it, so the meeting angle sits at the
      end of the gauge and the remaining arc is empty. */
  lemma EmptySpanComplete(t: int, currentMs: int)
    requires currentMs >= t
    ensures Progress(t, currentMs, t) == 1.0
    ensures var g := Render(t, currentMs, t);
      g.middleDeg == EndDeg && g.remaining.fromDeg == g.remaining.toDeg
      && g.remaining.largeArc == 0 && g.elapsed.largeArc == 1
  {
  }

  lemma QuotientBounds(x: real, d: real)
    requires d > 0.0
    ensures x <= 0.0 ==> x / d <= 0.0
    ensures x >= d ==> x / d >= 1.0
  {
    var q := x / d;
    assert q * d == x;
  }

  lemma ProgressHalfway(startMs: int, k: int)
    requires k != 0
    ensures Progress(startMs, startMs + k, startMs + 2 * k) == 0.5
  {
    var x := k as real;
    assert (startMs + 2 * k - startMs) as real == 2.0 * x;
    assert x / (2.0 * x) == 0.5;
  }

  /** As time passes, progress never goes back: on a forward span, on an
      empty one, and on a span whose target lies before the start once the
      start has been reached (the widget's current instant is never before
      the page load). */
  lemma ProgressMonotone(startMs: int, c1: int, c2: int, targetMs: int)
    requires c1 <= c2 && (startMs <= targetMs || startMs <= c1)
    ensures Progress(startMs, c1, targetMs) <= Progress(startMs, c2, targetMs)
  {
    if startMs < targetMs {
      var d := (targetMs - startMs) as real;
      assert (c1 - startMs) as real / d <= (c2 - startMs) as real / d;
    } else if targetMs < startMs {
      PastTargetShowsNoProgress(startMs, c1, targetMs);
      PastTargetShowsNoProgress(startMs, c2, targetMs);
    }
  }

  /** The meeting angle stays on the gauge, is `StartDeg` at progress 0 and
      `EndDeg` at progress 1, and moves toward the end as progress grows. */
  lemma MiddleDegBounds(p: real, q: real)
    requires 0.0 <= p <= 1.0
    ensures EndDeg <= MiddleDeg(p) <= StartDeg
    ensures MiddleDeg(0.0) == StartDeg && MiddleDeg(1.0) == EndDeg
    ensures p < q ==> MiddleDeg(q) < MiddleDeg(p)
  {
  }

  /** The angle swept from the point at `fromDeg` to the point at `toDeg`
      when moving in SVG's positive-angle direction (sweep-flag 1), in
      [0, 360). The point at θ sits at SVG angle -θ. */
  function SweptAngle(fromDeg: real, toDeg: real): (a: real)
    ensures 0.0 <= a < 360.0
  {
    var x := fromDeg - toDeg;
    x - 360.0 * ((x / 360.0).Floor as real)
  }

  lemma SweptAngleOfSpan(fromDeg: real, toDeg: real)
    requires 0.0 <= fromDeg - toDeg < 360.0
    ensures SweptAngle(fromDeg, toDeg) == fromDeg - toDeg
  {
    var x := fromDeg - toDeg;
    assert (x / 360.0).Floor == 0;
  }

  /** Section 8.3.8 of SVG 1.1: with the sweep direction fixed, the
      large-arc flag must be 1 exactly when the arc drawn in that direction
      is the longer one. Both arcs of the gauge carry the right flag, the
      two arcs together sweep the gauge's 328 degrees, and so at most one
      of them is a large arc. */
  lemma ArcFlagsMatchSweep(startMs: int, currentMs: int, targetMs: int)
    ensures var g := Render(startMs, currentMs, targetMs);
      && (g.remaining.largeArc == 1 <==> SweptAngle(g.remaining.fromDeg, g.remaining.toDeg) >= 180.0)
      && (g.elapsed.largeArc == 1 <==> SweptAngle(g.elapsed.fromDeg, g.elapsed.toDeg) >= 180.0)
      && SweptAngle(g.remaining.fromDeg, g.remaining.toDeg)
         + SweptAngle(g.elapsed.fromDeg, g.elapsed.toDeg) == StartDeg - EndDeg
  {
    var g := Render(startMs, currentMs, targetMs);
    SweptAngleOfSpan(g.remaining.fromDeg, g.remaining.toDeg);
    SweptAngleOfSpan(g.elapsed.fromDeg, g.elapsed.toDeg);
  }

  lemma AtMostOneLargeArc(startMs: int, currentMs: int, targetMs: int)
    ensures var g := Render(startMs, currentMs, targetMs);
      g.remaining.largeArc + g.elapsed.largeArc <= 1
      && (g.remaining.largeArc == 1 <==> g.middleDeg >= EndDeg + 180.0)
      && (g.elapsed.largeArc == 1 <==> g.middleDeg <= StartDeg - 180.0)
  {
  }
}
