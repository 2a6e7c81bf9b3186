/** The scaling verdict of bench/src/adversarial.rs, over the reals. */
module Scaling {
  import opened Reals
  import opened Wrappers

  type Width = w: nat | 0 < w witness 1

  datatype Sample = Sample(width: Width, metric: nat)

  datatype GrowthStep = GrowthStep(fromWidth: Width, toWidth: Width, fromMetric: nat, toMetric: nat) {
    function WidthFactor(): real { toWidth as real / fromWidth as real }

    /** Growth from nothing is infinite. */
    function MetricFactor(): Factor {
      if fromMetric == 0 then Infinite else Finite(toMetric as real / fromMetric as real)
    }

    function AllowedFactor(slack: real): real { WidthFactor() * (1.0 + slack) }

    predicate IsSuperlinear(slack: real) {
      match MetricFactor()
      case Infinite => true
      case Finite(f) => f > AllowedFactor(slack)
    }
  }

  datatype Factor = Infinite | Finite(f: real)

  function GrowthSteps(samples: seq<Sample>): (steps: seq<GrowthStep>)
    ensures |steps| == if samples == [] then 0 else |samples| - 1
    ensures forall i :: 0 <= i < |steps| ==>
      steps[i] == GrowthStep(samples[i].width, samples[i + 1].width, samples[i].metric, samples[i + 1].metric)
  {
    seq(if samples == [] then 0 else |samples| - 1, i requires 0 <= i < |samples| - 1 =>
      GrowthStep(samples[i].width, samples[i + 1].width, samples[i].metric, samples[i + 1].metric))
  }

  function Flagged(steps: seq<GrowthStep>, slack: real): seq<GrowthStep> {
    if steps == [] then [] else FlagOne(steps[0], slack) + Flagged(steps[1..], slack)
  }

  function FlagOne(step: GrowthStep, slack: real): seq<GrowthStep> { if step.IsSuperlinear(slack) then [step] else [] }

  function SuperlinearSteps(samples: seq<Sample>, slack: real): seq<GrowthStep> { Flagged(GrowthSteps(samples), slack) }

  lemma {:induction false} FlaggedNone(steps: seq<GrowthStep>, slack: real)
    ensures Flagged(steps, slack) == [] <==> forall i :: 0 <= i < |steps| ==> !steps[i].IsSuperlinear(slack)
  {
    if steps != [] { FlaggedNone(steps[1..], slack); }
  }

  lemma {:induction false} FlaggedAll(steps: seq<GrowthStep>, slack: real)
    requires forall i :: 0 <= i < |steps| ==> steps[i].IsSuperlinear(slack)
    ensures Flagged(steps, slack) == steps
  {
    if steps != [] {
      FlaggedAll(steps[1..], slack);
      assert steps == [steps[0]] + steps[1..];
    }
  }

  /** Steps are flagged one by one: of two stretches the flagged steps are those of the first and of the second, */
  lemma {:induction false} FlaggedSplits(a: seq<GrowthStep>, b: seq<GrowthStep>, slack: real)
    ensures Flagged(a + b, slack) == Flagged(a, slack) + Flagged(b, slack)
  {
    if a == [] {
      assert a + b == b;
    } else {
      FlaggedSplits(a[1..], b, slack);
      assert (a + b)[1..] == a[1..] + b && (a + b)[0] == a[0];
      Associates(FlagOne(a[0], slack), Flagged(a[1..], slack), Flagged(b, slack));
    }
  }

  /** and a superlinear step is flagged as often as it occurs, any other never. */
  lemma {:induction false} FlaggedHolds(steps: seq<GrowthStep>, slack: real, step: GrowthStep)
    ensures multiset(Flagged(steps, slack))[step] == if step.IsSuperlinear(slack) then multiset(steps)[step] else 0
  {
    if steps != [] {
      FlaggedHolds(steps[1..], slack, step);
      assert steps == [steps[0]] + steps[1..];
    }
  }

  // ----- Products -----

  /** Multiplying by something positive keeps the order. */
  lemma KeepsOrder(s: real, t: real, m: real)
    requires m > 0.0
    ensures s > t <==> s * m > t * m
  {
    if s > t { PositiveProduct(s - t, m); }
    if s < t { PositiveProduct(t - s, m); }
    Subtract(s, t, m);
  }

  lemma Subtract(s: real, t: real, m: real)
    ensures (s - t) * m == s * m - t * m && (t - s) * m == t * m - s * m
  {}

  lemma KeepsOrderWeakly(s: real, t: real, m: real)
    requires m >= 0.0 && s <= t
    ensures s * m <= t * m
  {
    if m > 0.0 { KeepsOrder(s, t, m); }
  }

  /** A quotient outgrows a scaled quotient exactly when the cross products do. */
  lemma CrossMultiplies(a: real, b: real, c: real, d: real, k: real)
    requires b > 0.0 && d > 0.0
    ensures a / b > c / d * k <==> a * d > b * c * k
  {
    var q, p := a / b, c / d;
    Quotient(a, b);
    Quotient(c, d);
    PositiveProduct(b, d);
    KeepsOrder(q, p * k, b * d);
    Left(q, b, d);
    Right(p, k, b, d);
  }

  lemma Left(q: real, b: real, d: real)
    ensures q * (b * d) == q * b * d
  {}

  lemma Right(p: real, k: real, b: real, d: real)
    ensures p * k * (b * d) == b * (p * d) * k
  {}

  /** What a step's verdict says without its quotients. */
  lemma FlaggedByProducts(step: GrowthStep, slack: real)
    ensures step.IsSuperlinear(slack) <==>
      step.fromMetric == 0
      || step.toMetric as real * step.fromWidth as real > step.fromMetric as real * step.toWidth as real * (1.0 + slack)
  {
    if step.fromMetric > 0 {
      CrossMultiplies(step.toMetric as real, step.fromMetric as real, step.toWidth as real, step.fromWidth as real, 1.0 + slack);
    }
  }

  lemma Unflagged(step: GrowthStep, slack: real, v: real, w: real, m: real, n: real)
    requires v == step.fromWidth as real && w == step.toWidth as real
    requires m == step.fromMetric as real && n == step.toMetric as real
    ensures !step.IsSuperlinear(slack) <==> m > 0.0 && n * v <= m * w * (1.0 + slack)
  {
    FlaggedByProducts(step, slack);
  }

  // ----- Linear curves -----

  ghost predicate Ascending(samples: seq<Sample>) { forall i :: 0 < i < |samples| ==> samples[i - 1].width < samples[i].width }

  ghost predicate OnLine(s: Sample, a: real, b: real) { s.metric as real == a * s.width as real + b }

  ghost predicate Affine(samples: seq<Sample>, a: real, b: real) {
    forall i :: 0 <= i < |samples| ==> OnLine(samples[i], a, b)
  }

  lemma AffineStep(v: real, w: real, a: real, b: real, slack: real)
    requires 0.0 < v < w && a >= 0.0 && b >= 0.0 && slack >= 0.0
    ensures (a * w + b) * v <= (a * v + b) * w * (1.0 + slack)
  {
    var x := a * (v * w);
    KeepsOrderWeakly(v, w, b);
    Expand(a, b, v, w);
    Expand(a, b, w, v);
    NonNegative(a * v + b, w, a, b, v);
    KeepsOrderWeakly(1.0, 1.0 + slack, (a * v + b) * w);
  }

  lemma Expand(a: real, b: real, v: real, w: real)
    ensures (a * w + b) * v == a * (v * w) + b * v
  {}

  lemma NonNegative(m: real, w: real, a: real, b: real, v: real)
    requires a >= 0.0 && b >= 0.0 && v > 0.0 && w > 0.0 && m == a * v + b
    ensures m * w >= 0.0
  {
    KeepsOrderWeakly(0.0, a, v);
    KeepsOrderWeakly(0.0, m, w);
  }

  lemma AffinePositive(a: real, b: real, v: real)
    requires a >= 0.0 && b >= 0.0 && a + b > 0.0 && v > 0.0
    ensures a * v + b > 0.0
  {
    if a > 0.0 { PositiveProduct(a, v); }
  }

  lemma AffineUnflagged(step: GrowthStep, a: real, b: real, slack: real)
    requires step.fromWidth < step.toWidth && a >= 0.0 && b >= 0.0 && a + b > 0.0 && slack >= 0.0
    requires OnLine(Sample(step.fromWidth, step.fromMetric), a, b) && OnLine(Sample(step.toWidth, step.toMetric), a, b)
    ensures !step.IsSuperlinear(slack)
  {
    var v, w := step.fromWidth as real, step.toWidth as real;
    AffinePositive(a, b, v);
    AffineStep(v, w, a, b, slack);
    Unflagged(step, slack, v, w, a * v + b, a * w + b);
  }

  lemma AffineStepAt(samples: seq<Sample>, a: real, b: real, slack: real, i: nat)
    requires Ascending(samples) && Affine(samples, a, b) && i + 1 < |samples|
    ensures var step := GrowthSteps(samples)[i];
      && step.fromWidth < step.toWidth
      && OnLine(Sample(step.fromWidth, step.fromMetric), a, b) && OnLine(Sample(step.toWidth, step.toMetric), a, b)
  {
    assert samples[i].width < samples[i + 1].width;
    assert OnLine(samples[i], a, b) && OnLine(samples[i + 1], a, b);
    assert samples[i] == Sample(samples[i].width, samples[i].metric);
    assert samples[i + 1] == Sample(samples[i + 1].width, samples[i + 1].metric);
  }

  /** A linear curve with any fixed overhead is never flagged. */
  lemma AffineIsLinear(samples: seq<Sample>, a: real, b: real, slack: real)
    requires Ascending(samples) && Affine(samples, a, b) && a >= 0.0 && b >= 0.0 && a + b > 0.0 && slack >= 0.0
    ensures SuperlinearSteps(samples, slack) == []
  {
    var steps := GrowthSteps(samples);
    forall i | 0 <= i < |steps| ensures !steps[i].IsSuperlinear(slack) {
      AffineStepAt(samples, a, b, slack, i);
      AffineUnflagged(steps[i], a, b, slack);
    }
    FlaggedNone(steps, slack);
  }

  // ----- Quadratic curves -----

  ghost predicate Quadratic(samples: seq<Sample>, c: real) {
    forall i :: 0 <= i < |samples| ==> samples[i].metric as real == c * (samples[i].width as real * samples[i].width as real)
  }

  lemma QuadraticStep(v: real, w: real, c: real, k: real)
    requires v > 0.0 && w > 0.0 && c > 0.0
    ensures c * (v * v) > 0.0
    ensures c * (w * w) * v > c * (v * v) * w * k <==> w > v * k
  {
    PositiveProduct(v, w);
    PositiveProduct(c, v * w);
    PositiveProduct(v, v);
    PositiveProduct(c, v * v);
    KeepsOrder(w, v * k, c * (v * w));
    QuadraticLeft(c, v, w);
    QuadraticRight(c, v, w, k);
  }

  lemma QuadraticLeft(c: real, v: real, w: real)
    ensures w * (c * (v * w)) == c * (w * w) * v
  {}

  lemma QuadraticRight(c: real, v: real, w: real, k: real)
    ensures v * k * (c * (v * w)) == c * (v * v) * w * k
  {}

  /** A quadratic step is flagged exactly when the width grew by more than the slack allows, */
  lemma QuadraticIsFlagged(samples: seq<Sample>, c: real, slack: real, i: nat)
    requires Quadratic(samples, c) && c > 0.0 && i + 1 < |samples|
    ensures GrowthSteps(samples)[i].IsSuperlinear(slack) <==>
      samples[i + 1].width as real > samples[i].width as real * (1.0 + slack)
  {
    var v, w := samples[i].width as real, samples[i + 1].width as real;
    Unflagged(GrowthSteps(samples)[i], slack, v, w, c * (v * v), c * (w * w));
    QuadraticStep(v, w, c, 1.0 + slack);
  }

  lemma {:induction false} DoublingIsFlagged(samples: seq<Sample>, c: real, slack: real, i: nat)
    requires Quadratic(samples, c) && c > 0.0 && slack < 1.0 && i + 1 < |samples|
    requires samples[i + 1].width == 2 * samples[i].width
    ensures GrowthSteps(samples)[i].IsSuperlinear(slack)
  {
    QuadraticIsFlagged(samples, c, slack, i);
    KeepsOrder(2.0, 1.0 + slack, samples[i].width as real);
  }

  /** so on a doubling ladder with slack below one every step of a quadratic curve is. */
  lemma {:induction false} QuadraticOnDoublings(samples: seq<Sample>, c: real, slack: real)
    requires Quadratic(samples, c) && c > 0.0 && slack < 1.0
    requires forall i :: 0 < i < |samples| ==> samples[i].width == 2 * samples[i - 1].width
    ensures SuperlinearSteps(samples, slack) == GrowthSteps(samples)
  {
    var steps := GrowthSteps(samples);
    forall i | 0 <= i < |steps| ensures steps[i].IsSuperlinear(slack) {
      assert samples[i + 1].width == 2 * samples[i].width;
      DoublingIsFlagged(samples, c, slack, i);
    }
    FlaggedAll(steps, slack);
  }

  // ----- Whole curves -----

  function Power(x: real, n: nat): real { if n == 0 then 1.0 else Power(x, n - 1) * x }

  /** m at width v, and n <= m * w/v * k, and m <= m0 * v/v0 * p, so n <= m0 * w/v0 * (p * k), cross-multiplied. */
  lemma Telescopes(m0: real, v0: real, m: real, v: real, n: real, w: real, p: real, k: real)
    requires v0 > 0.0 && v > 0.0 && w > 0.0 && k > 0.0
    requires m * v0 <= m0 * v * p && n * v <= m * w * k
    ensures n * v0 <= m0 * w * (p * k)
  {
    PositiveProduct(w, k);
    KeepsOrderWeakly(n * v, m * w * k, v0);
    KeepsOrderWeakly(m * v0, m0 * v * p, w * k);
    WidthLast(m, w, k, v0);
    PowersTogether(m0, v, p, w, k);
    SwapLast(n, v, v0);
    if n * v0 > m0 * w * (p * k) { KeepsOrder(n * v0, m0 * w * (p * k), v); }
  }

  lemma WidthLast(m: real, w: real, k: real, v0: real)
    ensures m * w * k * v0 == m * v0 * (w * k)
  {}

  lemma PowersTogether(m0: real, v: real, p: real, w: real, k: real)
    ensures m0 * v * p * (w * k) == m0 * w * (p * k) * v
  {}

  lemma SwapLast(n: real, v: real, v0: real)
    ensures n * v * v0 == n * v0 * v
  {}

  /** The n-th sample keeps within its width's growth and the slack compounded. */
  ghost predicate Bounded(samples: seq<Sample>, slack: real, n: nat)
    requires n < |samples|
  {
    samples[n].metric as real * samples[0].width as real
      <= samples[0].metric as real * samples[n].width as real * Power(1.0 + slack, n)
  }

  /** One sample against the one before it. */
  ghost predicate Keeps(before: Sample, after: Sample, k: real) {
    after.metric as real * before.width as real <= before.metric as real * after.width as real * k
  }

  lemma UnflaggedKeeps(samples: seq<Sample>, slack: real, i: nat)
    requires i + 1 < |samples| && !GrowthSteps(samples)[i].IsSuperlinear(slack)
    ensures Keeps(samples[i], samples[i + 1], 1.0 + slack)
  {
    FlaggedByProducts(GrowthSteps(samples)[i], slack);
  }

  lemma NextBounded(samples: seq<Sample>, slack: real, n: nat)
    requires 0 < n < |samples| && slack > -1.0
    requires Bounded(samples, slack, n - 1) && Keeps(samples[n - 1], samples[n], 1.0 + slack)
    ensures Bounded(samples, slack, n)
  {
    TelescopesTo(samples[0].metric as real, samples[0].width as real, samples[n - 1].metric as real, samples[n - 1].width as real,
      samples[n].metric as real, samples[n].width as real, Power(1.0 + slack, n - 1), 1.0 + slack, Power(1.0 + slack, n));
  }

  lemma TelescopesTo(m0: real, v0: real, m: real, v: real, n: real, w: real, p: real, k: real, q: real)
    requires v0 > 0.0 && v > 0.0 && w > 0.0 && k > 0.0 && q == p * k
    requires m * v0 <= m0 * v * p && n * v <= m * w * k
    ensures n * v0 <= m0 * w * q
  {
    Telescopes(m0, v0, m, v, n, w, p, k);
  }

  /** A curve with no step flagged grows no faster than its width and the slack compounded. */
  lemma {:induction false} UnflaggedIsBounded(samples: seq<Sample>, slack: real, n: nat)
    requires n < |samples| && slack > -1.0 && SuperlinearSteps(samples, slack) == []
    ensures Bounded(samples, slack, n)
  {
    if n == 0 {
      OneTimes(samples[0].metric as real * samples[0].width as real);
    } else {
      UnflaggedIsBounded(samples, slack, n - 1);
      FlaggedNone(GrowthSteps(samples), slack);
      UnflaggedKeeps(samples, slack, n - 1);
      NextBounded(samples, slack, n);
    }
  }

  lemma OneTimes(x: real)
    ensures x * 1.0 == x
  {}
}
