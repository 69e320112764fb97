/**
 * The variable-difficulty controller, over reals. A square root is a parameter: the
 * non-negative number whose square is the ratio.
 */
module VarDiff {
  import opened Wrappers

  const MIN_ELAPSED: real := 30.0
  const MAX_ELAPSED_NO_SHARES: real := 90.0
  const MIN_SHARES: real := 3.0
  const LOWER_RATIO: real := 0.75
  const UPPER_RATIO: real := 1.25
  const MAX_STEP_UP: real := 2.0
  const MAX_STEP_DOWN: real := 0.5
  const EPSILON: real := 1.0 / 4503599627370496.0

  function Abs(x: real): real {
    if x < 0.0 then -x else x
  }

  function Max(x: real, y: real): real {
    if x < y then y else x
  }

  function Clamp(x: real, lo: real, hi: real): real {
    if x < lo then lo else if x > hi then hi else x
  }

  // ---------- powers of two ----------

  function Pow2(e: nat): (p: real)
    ensures p >= 1.0
  {
    if e == 0 then 1.0 else 2.0 * Pow2(e - 1)
  }

  ghost predicate IsPow2(x: real) {
    exists e: nat :: x == Pow2(e)
  }

  /** The exponents `ceil(log2 x)` and `floor(log2 x)`. */
  function CeilLog2(x: real): (e: nat)
    requires x >= 1.0
    ensures x <= Pow2(e) && (e > 0 ==> Pow2(e - 1) < x)
    decreases x.Floor
  {
    if x <= 1.0 then 0 else if x <= 2.0 then 1 else 1 + CeilLog2(x / 2.0)
  }

  function FloorLog2(x: real): (e: nat)
    requires x >= 1.0
    ensures Pow2(e) <= x < Pow2(e + 1)
    decreases x.Floor
  {
    if x < 2.0 then 0 else 1 + FloorLog2(x / 2.0)
  }

  /** `vardiff_pow2_clamp_towards`; an exponent below zero gives a power below one, and so one. */
  function Pow2ClampTowards(current: real, next: real): real {
    if next <= 0.0 then 1.0
    else if next >= current then if next < 1.0 then 1.0 else Pow2(CeilLog2(next))
    else if next < 1.0 then 1.0
    else Pow2(FloorLog2(next))
  }

  lemma {:induction false} Pow2Monotone(e: nat, e': nat)
    requires e < e'
    ensures 2.0 * Pow2(e) <= Pow2(e')
  {
    if e + 1 < e' {
      Pow2Monotone(e, e' - 1);
    }
  }

  /** Only one power of two lies in `(x / 2, x]` and only one in `[x, 2x)`. */
  lemma Pow2Between(e: nat, e': nat)
    requires Pow2(e) < 2.0 * Pow2(e') && Pow2(e') < 2.0 * Pow2(e)
    ensures e == e'
  {
    if e < e' {
      Pow2Monotone(e, e');
    } else if e' < e {
      Pow2Monotone(e', e);
    }
  }

  // ---------- the controller ----------

  function Ratio(shares: real, elapsed: real, expected: real): real
    requires elapsed > 0.0
  {
    shares / elapsed * 60.0 / Max(expected, 1.0)
  }

  /** One observation window, with the root of its ratio. */
  datatype Window = Window(shares: real, elapsed: real, expected: real, root: real)
  {
    ghost predicate Valid() {
      shares >= 0.0 && root >= 0.0 && (elapsed > 0.0 ==> root * root == Ratio(shares, elapsed, expected))
    }
  }

  function Clamped(current: real, next: real, clampPow2: bool): real {
    if clampPow2 then Pow2ClampTowards(current, next) else next
  }

  /** A change counts only from a tenth of the current difficulty on. */
  function IfWorthwhile(current: real, next: real): Option<real> {
    if Abs(next - current) / Max(current, 1.0) < 0.10 then None
    else if Abs(next - current) > EPSILON then Some(next)
    else None
  }

  /** `vardiff_compute_next_diff` */
  function NextDiff(current: real, w: Window, clampPow2: bool): Option<real> {
    if current <= 0.0 || w.elapsed <= 0.0 then None
    else if w.shares == 0.0 && w.elapsed >= MAX_ELAPSED_NO_SHARES then
      var next := Clamped(current, Max(current * MAX_STEP_DOWN, 1.0), clampPow2);
      if Abs(next - current) > EPSILON then Some(next) else None
    else if w.elapsed < MIN_ELAPSED || w.shares < MIN_SHARES then None
    else
      var ratio := Ratio(w.shares, w.elapsed, w.expected);
      if ratio <= 0.0 || InBand(ratio) then None
      else IfWorthwhile(current, Clamped(current, Max(Stepped(current, w), 1.0), clampPow2))
  }

  predicate InBand(r: real) {
    LOWER_RATIO < r < UPPER_RATIO
  }

  function Step(w: Window): real {
    Clamp(w.root, MAX_STEP_DOWN, MAX_STEP_UP)
  }

  function Stepped(current: real, w: Window): real {
    current * Step(w)
  }

  /** A window that is long enough and has enough shares to be judged by its ratio. */
  predicate Judged(w: Window) {
    w.elapsed >= MIN_ELAPSED && w.shares >= MIN_SHARES
  }

  predicate Silent(w: Window) {
    w.shares == 0.0 && w.elapsed >= MAX_ELAPSED_NO_SHARES
  }

  lemma MulLess(x: real, y: real, c: real)
    requires x < y && c > 0.0
    ensures x * c < y * c
  {
  }

  lemma SquareLess(x: real, y: real)
    requires 0.0 <= x < y
    ensures x * x < y * y
  {
    calc {
      x * x;
    <= x * y;
    <  y * y;
    }
  }

  lemma SquareOrder(x: real, y: real)
    requires x >= 0.0 && y >= 0.0
    ensures x * x < y * y <==> x < y
  {
    if x < y {
      SquareLess(x, y);
    } else if y < x {
      SquareLess(y, x);
    }
  }

  /** Where a root lies, from where its square does. */
  lemma RootBounds(r: real, root: real)
    requires root >= 0.0 && root * root == r && r > 0.0
    ensures root > 0.0 && r / root == root
    ensures r >= 1.25 ==> root > 1.118
    ensures r <= 0.75 ==> root < 0.87
    ensures r >= 4.0 <==> root >= 2.0
    ensures r <= 0.25 <==> root <= 0.5
  {
    SquareOrder(1.118, root);
    SquareOrder(root, 0.87);
    SquareOrder(root, 2.0);
    SquareOrder(0.5, root);
  }

  lemma RootAndOne(r: real, root: real)
    requires root >= 0.0 && root * root == r && r > 0.0
    ensures r > 1.0 ==> 1.0 < root < r
    ensures r < 1.0 ==> r < root < 1.0
  {
    SquareOrder(1.0, root);
    SquareOrder(root, 1.0);
    if r > 1.0 {
      MulLess(1.0, root, root);
    } else if r < 1.0 {
      MulLess(root, 1.0, root);
    }
  }

  lemma JudgedRatio(w: Window)
    requires w.Valid() && Judged(w)
    ensures Ratio(w.shares, w.elapsed, w.expected) > 0.0
  {
    assert w.shares / w.elapsed > 0.0;
  }

  /** The step of a ratio outside the dead band is well away from one. */
  lemma StepBounds(w: Window)
    requires w.Valid() && Judged(w)
    ensures var r := Ratio(w.shares, w.elapsed, w.expected);
            (r >= UPPER_RATIO ==> 1.118 < Step(w) <= 2.0) && (r <= LOWER_RATIO ==> 0.5 <= Step(w) < 0.87)
  {
    JudgedRatio(w);
    RootBounds(Ratio(w.shares, w.elapsed, w.expected), w.root);
  }

  /** What the two ranges of steps make of a difficulty. */
  lemma Scaled(d: real, w: Window)
    requires d >= 1.0
    ensures 1.118 < Step(w) <= 2.0 ==> 1.1 * d <= Stepped(d, w) <= 2.0 * d
    ensures 0.5 <= Step(w) < 0.87 ==> 0.5 * d <= Stepped(d, w) <= 0.9 * d
  {
    var s := Step(w);
    if 1.118 < s <= 2.0 {
      assert d * s >= d * 1.1 && d * s <= d * 2.0;
    } else if 0.5 <= s < 0.87 {
      assert d * s >= d * 0.5 && d * s <= d * 0.9;
    }
  }

  lemma NextDiffJudged(current: real, w: Window, clampPow2: bool)
    requires current > 0.0 && w.Valid() && Judged(w)
    ensures NextDiff(current, w, clampPow2) ==
            if InBand(Ratio(w.shares, w.elapsed, w.expected)) then None
            else IfWorthwhile(current, Clamped(current, Max(Stepped(current, w), 1.0), clampPow2))
  {
    JudgedRatio(w);
  }

  lemma Worthwhile(current: real, next: real)
    requires current >= 1.0 && Abs(next - current) >= 0.1 * current
    ensures IfWorthwhile(current, next) == Some(next)
  {
    var x := Abs(next - current);
    assert x / current * current == x;
    if x / current < 0.1 {
      MulLess(x / current, 0.1, current);
    }
  }

  // ---------- with the power-of-two clamp ----------

  lemma ClampUp(c: real, e: nat, next: real)
    requires c == Pow2(e) && c < next <= 2.0 * c
    ensures Pow2ClampTowards(c, next) == 2.0 * c
  {
    var f := CeilLog2(next);
    assert 2.0 * c == Pow2(e + 1);
    assert f > 0 && Pow2(f) == 2.0 * Pow2(f - 1);
    Pow2Between(f, e + 1);
  }

  lemma ClampDown(c: real, e: nat, next: real)
    requires c == Pow2(e) && 1.0 <= next && 0.5 * c <= next < c
    ensures e > 0 && Pow2ClampTowards(c, next) == 0.5 * c
  {
    var f := FloorLog2(next);
    assert e > 0;
    assert 0.5 * c == Pow2(e - 1);
    assert Pow2(f + 1) == 2.0 * Pow2(f);
    Pow2Between(f, e - 1);
  }

  /**
   * The clamped controller, exactly: a power of two doubles when the ratio is at least
   * 1.25, halves (above one) when it is at most 0.75 or the miner has been silent for 90
   * seconds, and otherwise stays.
   */
  lemma ClampedStep(c: real, w: Window)
    requires IsPow2(c) && w.Valid()
    ensures NextDiff(c, w, true) ==
            (if Judged(w) && Ratio(w.shares, w.elapsed, w.expected) >= UPPER_RATIO then Some(2.0 * c)
             else if c > 1.0 && (Silent(w) || (Judged(w) && Ratio(w.shares, w.elapsed, w.expected) <= LOWER_RATIO))
             then Some(0.5 * c)
             else None)
  {
    var e: nat :| c == Pow2(e);
    if e > 0 {
      Pow2Monotone(0, e);
    }
    if Silent(w) {
      ClampedHalf(c, e, c * MAX_STEP_DOWN);
    } else if Judged(w) {
      NextDiffJudged(c, w, true);
      StepBounds(w);
      Scaled(c, w);
      var r := Ratio(w.shares, w.elapsed, w.expected);
      if r >= UPPER_RATIO {
        ClampUp(c, e, Stepped(c, w));
        Worthwhile(c, 2.0 * c);
      } else if r <= LOWER_RATIO {
        ClampedHalf(c, e, Stepped(c, w));
        if e > 0 {
          Worthwhile(c, 0.5 * c);
        }
      }
    }
  }

  lemma ClampedHalf(c: real, e: nat, next: real)
    requires c == Pow2(e) && 0.5 * c <= next < c
    ensures e > 0 ==> Pow2ClampTowards(c, Max(next, 1.0)) == 0.5 * c
    ensures e == 0 ==> Pow2ClampTowards(c, Max(next, 1.0)) == c
  {
    if e > 0 {
      Pow2Monotone(0, e);
      ClampDown(c, e, Max(next, 1.0));
    } else {
      assert CeilLog2(1.0) == 0;
    }
  }

  // ---------- the same in the window's own numbers ----------

  /** The ratio is of the shares per minute to the shares expected per minute, at least one. */
  lemma RatioMeans(shares: real, elapsed: real, expected: real)
    requires elapsed > 0.0
    ensures expected >= 1.0 ==> Ratio(shares, elapsed, expected) * expected * elapsed == 60.0 * shares
    ensures expected < 1.0 ==> Ratio(shares, elapsed, expected) * elapsed == 60.0 * shares
  {
    var q, x := shares / elapsed, Max(expected, 1.0);
    assert q * elapsed == shares;
    Divided(q * 60.0, x, elapsed);
  }

  lemma Divided(p: real, x: real, e: real)
    requires x > 0.0
    ensures p / x * x * e == p * e
  {
  }

  /** The shares that a window should have had, times sixty. */
  function Due(w: Window): real {
    (if w.expected < 1.0 then 1.0 else w.expected) * w.elapsed
  }

  lemma RatioOrder(w: Window, bound: real)
    requires w.elapsed > 0.0
    ensures Ratio(w.shares, w.elapsed, w.expected) <= bound <==> 60.0 * w.shares <= bound * Due(w)
    ensures Ratio(w.shares, w.elapsed, w.expected) >= bound <==> 60.0 * w.shares >= bound * Due(w)
  {
    var r, due := Ratio(w.shares, w.elapsed, w.expected), Due(w);
    RatioMeans(w.shares, w.elapsed, w.expected);
    DueIs(r, w);
    MulOrder(r, bound, due);
  }

  lemma DueIs(r: real, w: Window)
    requires w.elapsed > 0.0
    ensures Due(w) > 0.0
    ensures w.expected >= 1.0 ==> r * Due(w) == r * w.expected * w.elapsed
    ensures w.expected < 1.0 ==> r * Due(w) == r * w.elapsed
  {
  }

  lemma MulOrder(x: real, y: real, c: real)
    requires c > 0.0
    ensures (x * c <= y * c <==> x <= y) && (x * c >= y * c <==> x >= y)
  {
    if x < y {
      MulLess(x, y, c);
    } else if y < x {
      MulLess(y, x, c);
    }
  }

  /**
   * The clamped controller from shares and seconds: a power of two doubles when at least
   * three shares in at least thirty seconds are a quarter above what was due, halves (above
   * one) when they are a quarter below or none came in ninety seconds, and otherwise stays.
   */
  lemma ClampedStepFromShares(c: real, w: Window)
    requires IsPow2(c) && w.Valid()
    ensures NextDiff(c, w, true) ==
            (if w.elapsed >= 30.0 && w.shares >= 3.0 && 60.0 * w.shares >= 1.25 * Due(w) then Some(c + c)
             else if c > 1.0 && ((w.elapsed >= 90.0 && w.shares == 0.0) ||
                                 (w.elapsed >= 30.0 && w.shares >= 3.0 && 60.0 * w.shares <= 0.75 * Due(w)))
             then Some(c / 2.0)
             else None)
  {
    ClampedStep(c, w);
    if Judged(w) {
      RatioOrder(w, 1.25);
      RatioOrder(w, 0.75);
    }
  }

  /** Without the clamp a silent miner's difficulty halves too, down to one and no lower. */
  lemma SilentStep(d: real, w: Window)
    requires d >= 1.0 && w.shares == 0.0 && w.elapsed >= 90.0
    ensures d >= 2.0 ==> NextDiff(d, w, false) == Some(d / 2.0)
    ensures 1.0 < d < 2.0 && d - 1.0 > EPSILON ==> NextDiff(d, w, false) == Some(1.0)
    ensures d == 1.0 ==> NextDiff(d, w, false) == None
  {
  }

  /** No window takes a difficulty below one or further than twofold up, or further than twofold down but to one. */
  lemma NextInRange(d: real, w: Window, clampPow2: bool)
    requires d >= 1.0 && w.Valid() && (clampPow2 ==> IsPow2(d)) && NextDiff(d, w, clampPow2).Some?
    ensures var next := NextDiff(d, w, clampPow2).value;
            1.0 <= next <= 2.0 * d && (next >= d / 2.0 || next == 1.0)
  {
    if clampPow2 {
      ClampedStep(d, w);
      NextIsPow2(d, w);
    } else if Judged(w) {
      NextDiffJudged(d, w, false);
      StepBounds(w);
      Scaled(d, w);
    }
  }

  /** The server's starting difficulty, from the configured minimum. */
  function InitialDiff(minShareDiff: nat, clampPow2: bool): real {
    if minShareDiff == 0 then 4.0
    else if clampPow2 then Pow2(FloorLog2(minShareDiff as real))
    else minShareDiff as real
  }

  /** Four when nothing is configured, else the minimum, with the clamp the power of two just below it. */
  lemma InitialIs(minShareDiff: nat, clampPow2: bool)
    ensures minShareDiff == 0 ==> InitialDiff(minShareDiff, clampPow2) == 4.0
    ensures minShareDiff > 0 && !clampPow2 ==> InitialDiff(minShareDiff, clampPow2) == minShareDiff as real
    ensures minShareDiff > 0 && clampPow2 ==>
              var d := InitialDiff(minShareDiff, clampPow2);
              IsPow2(d) && d <= minShareDiff as real < 2.0 * d
  {
  }

  /**
   * What sets a worker's difficulty: the configured start, a look at the last window, or a
   * return to a difficulty that it had after some earlier tick, which is how a new statistics
   * entry is seeded from the difficulty last sent to the miner.
   */
  datatype Tick = Reset | Observe(w: Window) | Reseed(at: nat)

  function AfterTicks(initial: real, ticks: seq<Tick>, clampPow2: bool): real {
    if ticks == [] then initial
    else
      var n := |ticks| - 1;
      match ticks[n]
      case Reset => initial
      case Reseed(at) => if at <= n then AfterTicks(initial, ticks[..at], clampPow2) else initial
      case Observe(w) =>
        var d := AfterTicks(initial, ticks[..n], clampPow2);
        match NextDiff(d, w, clampPow2)
        case Some(next) => next
        case None => d
  }

  /** With the clamp on, every difficulty that a worker can reach is a power of two of at least one. */
  lemma {:induction false} ReachableIsPow2(minShareDiff: nat, ticks: seq<Tick>)
    requires forall t :: t in ticks && t.Observe? ==> t.w.Valid()
    ensures IsPow2(AfterTicks(InitialDiff(minShareDiff, true), ticks, true))
    decreases |ticks|
  {
    var initial := InitialDiff(minShareDiff, true);
    assert Pow2(2) == 4.0;
    if ticks != [] {
      var n := |ticks| - 1;
      match ticks[n] {
        case Reset =>
        case Reseed(at) =>
          if at <= n {
            ReachableIsPow2(minShareDiff, ticks[..at]);
          }
        case Observe(w) =>
          ReachableIsPow2(minShareDiff, ticks[..n]);
          NextIsPow2(AfterTicks(initial, ticks[..n], true), w);
      }
    }
  }

  lemma NextIsPow2(d: real, w: Window)
    requires IsPow2(d) && w.Valid()
    ensures NextDiff(d, w, true).Some? ==> IsPow2(NextDiff(d, w, true).value)
  {
    ClampedStep(d, w);
    var e: nat :| d == Pow2(e);
    assert 2.0 * d == Pow2(e + 1);
    assert d > 1.0 ==> e > 0 && 0.5 * d == Pow2(e - 1);
  }

  // ---------- a steady miner, without the clamp ----------

  /** The window of a miner whose ratio is one at difficulty `k` and falls as difficulty rises. */
  ghost predicate Steady(k: real, d: real, w: Window) {
    d >= 1.0 && w.Valid() && Judged(w) && Ratio(w.shares, w.elapsed, w.expected) == k / d
  }

  /** The least difficulty stands in the way of the step that the window asks for. */
  predicate FloorBinds(d: real, w: Window) {
    Stepped(d, w) < 1.0
  }

  lemma DivideStep(k: real, d: real, s: real)
    requires d > 0.0 && s > 0.0
    ensures k / (d * s) == k / d / s
  {
    var q := k / (d * s);
    assert q * (d * s) == k;
    assert (q * s) * d == k;
    assert q * s == k / d;
  }

  /** Outside the dead band, unless the floor binds, the controller takes the step it computed. */
  lemma SteadyStep(k: real, d: real, w: Window)
    requires k > 0.0 && Steady(k, d, w) && !InBand(k / d)
    requires k / d <= LOWER_RATIO ==> !FloorBinds(d, w)
    ensures NextDiff(d, w, false) == Some(Stepped(d, w))
    ensures Stepped(d, w) >= 1.0 && k / Stepped(d, w) == k / d / Step(w)
  {
    StepBounds(w);
    Scaled(d, w);
    DivideStep(k, d, Step(w));
    NextDiffJudged(d, w, false);
    Worthwhile(d, Stepped(d, w));
  }

  /** What a step makes of the ratio: halved or doubled far out, else its root, and so never past one. */
  lemma RatioAfter(k: real, d: real, w: Window)
    requires k > 0.0 && Steady(k, d, w) && !InBand(k / d)
    ensures var r, r' := k / d, k / d / Step(w);
            && (r >= 4.0 ==> r' == r / 2.0)
            && (r <= 0.25 ==> r' == 2.0 * r)
            && (0.25 < r < 4.0 ==> r' >= 0.0 && r' * r' == r)
            && (r > 1.0 ==> 1.0 <= r' < r)
            && (r < 1.0 ==> r < r' <= 1.0)
  {
    RootBounds(k / d, w.root);
    RootAndOne(k / d, w.root);
  }

  lemma RootBelow(r: real, r': real, bound: real)
    requires r' >= 0.0 && bound >= 0.0 && r' * r' == r
    ensures r < bound * bound ==> r' < bound
    ensures r > bound * bound ==> r' > bound
  {
    SquareOrder(r', bound);
    SquareOrder(bound, r');
  }

  /** The difficulty after a window, adjusted or not. */
  function AfterWindow(d: real, w: Window): real {
    match NextDiff(d, w, false)
    case Some(next) => next
    case None => d
  }

  /** Where the floor binds, the ratio at the floor is still below one. */
  lemma FloorIsBelowOne(k: real, d: real, w: Window)
    requires k > 0.0 && Steady(k, d, w) && k / d <= LOWER_RATIO && FloorBinds(d, w)
    ensures k < 1.0
  {
    RootAndOne(k / d, w.root);
    ProductBelow(k, d, Step(w), Stepped(d, w));
  }

  lemma ProductBelow(k: real, d: real, s: real, p: real)
    requires d > 0.0 && k / d <= s && p == d * s
    ensures k <= p
  {
    var r := k / d;
    assert r * d == k;
    if r < s {
      MulLess(r, s, d);
    }
  }

  /** An adjustment never carries the ratio of a steady miner across one, at the floor or above it. */
  lemma NeverCrossesOne(k: real, d: real, w: Window)
    requires k > 0.0 && Steady(k, d, w)
    ensures var d' := AfterWindow(d, w);
            d' >= 1.0 && (k / d >= 1.0 ==> k / d' >= 1.0) && (k / d <= 1.0 ==> k / d' <= 1.0)
  {
    NextDiffJudged(d, w, false);
    if !InBand(k / d) {
      if k / d <= LOWER_RATIO && FloorBinds(d, w) {
        FloorIsBelowOne(k, d, w);
      } else {
        SteadyStep(k, d, w);
        RatioAfter(k, d, w);
      }
    }
  }

  /** Each window of a steady miner follows from the difficulty that the one before it left. */
  ghost predicate SteadyRun(k: real, diffs: seq<real>, windows: seq<Window>) {
    && |diffs| == |windows| + 1
    && forall i :: 0 <= i < |windows| ==>
         Steady(k, diffs[i], windows[i]) && diffs[i + 1] == AfterWindow(diffs[i], windows[i])
  }

  /** Over a whole run the ratio stays on the side of one where it started. */
  lemma {:induction false} RunKeepsSide(k: real, diffs: seq<real>, windows: seq<Window>, n: nat)
    requires k > 0.0 && SteadyRun(k, diffs, windows) && diffs[0] >= 1.0 && n <= |windows|
    ensures diffs[n] >= 1.0
    ensures (k / diffs[0] >= 1.0 ==> k / diffs[n] >= 1.0) && (k / diffs[0] <= 1.0 ==> k / diffs[n] <= 1.0)
  {
    if n > 0 {
      RunKeepsSide(k, diffs, windows, n - 1);
      NeverCrossesOne(k, diffs[n - 1], windows[n - 1]);
    }
  }

  /** Somewhere in the run the ratio is in the dead band, or the floor is in the way. */
  ghost predicate Settles(k: real, diffs: seq<real>, windows: seq<Window>, within: nat)
    requires |diffs| == |windows| + 1 && forall i :: 0 <= i < |windows| ==> diffs[i] >= 1.0
  {
    exists i :: 0 <= i <= within && i < |windows| &&
                (InBand(k / diffs[i]) || (k / diffs[i] <= LOWER_RATIO && FloorBinds(diffs[i], windows[i])))
  }

  lemma SettlesLater(k: real, diffs: seq<real>, windows: seq<Window>, within: nat)
    requires |diffs| == |windows| + 1 && |windows| > 0 && forall i :: 0 <= i < |windows| ==> diffs[i] >= 1.0
    requires Settles(k, diffs[1..], windows[1..], within)
    ensures Settles(k, diffs, windows, within + 1)
  {
    var i :| 0 <= i <= within && i < |windows[1..]| &&
             (InBand(k / diffs[1..][i]) ||
              (k / diffs[1..][i] <= LOWER_RATIO && FloorBinds(diffs[1..][i], windows[1..][i])));
    assert diffs[1..][i] == diffs[i + 1] && windows[1..][i] == windows[i + 1];
  }

  function Far(steps: nat): (f: real)
    ensures f >= 4.0
  {
    if steps <= 3 then 4.0 else 2.0 * Far(steps - 1)
  }

  function Near(steps: nat): (f: real)
    ensures 0.0 < f <= 0.25
  {
    if steps <= 3 then 0.25 else 0.5 * Near(steps - 1)
  }

  /** How many steps bring a ratio from above into the band: three roots from below four. */
  predicate Within(r: real, steps: nat) {
    match steps
    case 0 => r < 1.25 && r > 0.75
    case 1 => r < 1.5625 && r > 0.5625
    case 2 => r < 2.44 && r > 0.32
    case _ => Near(steps) < r < Far(steps)
  }

  lemma {:induction false} WithinRoot(r: real, r': real, steps: nat)
    requires Within(r, steps) && 0.25 < r < 4.0 && !InBand(r) && r' >= 0.0 && r' * r' == r
    ensures steps > 0 && Within(r', steps - 1)
  {
    RootBelow(r, r', 1.25);
    RootBelow(r, r', 0.75);
    RootBelow(r, r', 1.5625);
    RootBelow(r, r', 0.5625);
    RootBelow(r, r', 2.0);
    RootBelow(r, r', 0.5);
  }

  lemma {:induction false} WithinFar(r: real, steps: nat)
    requires Within(r, steps) && r > 0.0
    ensures r >= 4.0 ==> steps > 3 && Within(r / 2.0, steps - 1)
    ensures r <= 0.25 ==> steps > 3 && Within(2.0 * r, steps - 1)
  {
  }

  lemma WithinSteps(k: real, d: real, w: Window, steps: nat)
    requires k > 0.0 && Steady(k, d, w) && !InBand(k / d) && Within(k / d, steps)
    ensures steps > 0 && Within(k / d / Step(w), steps - 1)
  {
    JudgedRatio(w);
    RatioAfter(k, d, w);
    if 0.25 < k / d < 4.0 {
      WithinRoot(k / d, k / d / Step(w), steps);
    } else {
      WithinFar(k / d, steps);
    }
  }

  /**
   * A steady miner is brought into the dead band, or down to the floor, after at most as
   * many adjustments as `Within` says: three, and one for each doubling beyond four.
   */
  lemma {:induction false} SteadyConverges(k: real, diffs: seq<real>, windows: seq<Window>, steps: nat)
    requires k > 0.0 && SteadyRun(k, diffs, windows) && |windows| > steps
    requires diffs[0] >= 1.0 && Within(k / diffs[0], steps)
    ensures forall i :: 0 <= i < |windows| ==> diffs[i] >= 1.0
    ensures Settles(k, diffs, windows, steps)
  {
    assert forall i :: 0 <= i < |windows| ==> Steady(k, diffs[i], windows[i]);
    var d, w := diffs[0], windows[0];
    assert Steady(k, d, w);
    if !InBand(k / d) && !(k / d <= LOWER_RATIO && FloorBinds(d, w)) {
      WithinSteps(k, d, w, steps);
      SteadyStep(k, d, w);
      SteadyConverges(k, diffs[1..], windows[1..], steps - 1);
      SettlesLater(k, diffs, windows, steps - 1);
    }
  }

  /** Every ratio is within some number of steps, so every steady run that goes on settles. */
  lemma SomeStepsSuffice(r: real)
    requires r > 0.0
    ensures exists steps: nat :: Within(r, steps)
  {
    var n, n' := StepsFromAbove(r), StepsFromBelow(r);
    var steps := if n < n' then n' else n;
    FarNearMonotone(n, steps);
    FarNearMonotone(n', steps);
    assert Within(r, steps);
  }

  /** So for every miner and every difficulty there is a number of windows within which every steady run settles. */
  lemma EverySteadyRunSettles(k: real, d: real) returns (steps: nat)
    requires k > 0.0 && d >= 1.0
    ensures forall diffs, windows :: SteadyRun(k, diffs, windows) && diffs[0] == d && |windows| > steps ==>
              (forall i :: 0 <= i < |windows| ==> diffs[i] >= 1.0) && Settles(k, diffs, windows, steps)
  {
    SomeStepsSuffice(k / d);
    steps :| Within(k / d, steps);
    forall diffs, windows | SteadyRun(k, diffs, windows) && diffs[0] == d && |windows| > steps
      ensures (forall i :: 0 <= i < |windows| ==> diffs[i] >= 1.0) && Settles(k, diffs, windows, steps)
    {
      SteadyConverges(k, diffs, windows, steps);
    }
  }

  function StepsFromAbove(r: real): (steps: nat)
    ensures steps >= 3 && r < Far(steps)
    decreases if r < 0.0 then 0 else r.Floor
  {
    if r < 4.0 then 3 else 1 + StepsFromAbove(r / 2.0)
  }

  function StepsFromBelow(r: real): (steps: nat)
    requires r > 0.0
    ensures steps >= 3 && r > Near(steps)
    decreases (1.0 / r).Floor
  {
    if r > 0.25 then 3
    else
      assert 1.0 / (2.0 * r) == 1.0 / r / 2.0 && 1.0 / r >= 4.0;
      1 + StepsFromBelow(2.0 * r)
  }

  lemma {:induction false} FarNearMonotone(n: nat, n': nat)
    requires n <= n'
    ensures Far(n) <= Far(n') && Near(n') <= Near(n)
  {
    if n < n' {
      FarNearMonotone(n, n' - 1);
    }
  }
}
