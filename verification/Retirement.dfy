/** Which operators reality has spoken against, and the sweep that retires them. */
module Retirement {
  import opened Outcomes
  import opened Reals
  import opened Evidence

  const OPERATOR := "application/vnd.agience.operator+json"
  const W_VERIFIED := 0.8
  const W_DEMAND := 0.2

  /** What the source takes from its libraries: the square root, rounding to four places, the normal quantile. */
  datatype Scale = Scale(sqrt: real -> real, round: real -> real, quantile: real -> real)

  ghost predicate IsRound(round: real -> real) {
    && (forall x, y :: x <= y ==> round(x) <= round(y))
    && (forall x :: -0.00005 <= round(x) - x <= 0.00005)
    && round(0.0) == 0.0 && round(1.0) == 1.0
  }

  ghost predicate IsScale(s: Scale) {
    && IsSqrt(s.sqrt) && IsRound(s.round)
    && s.quantile(0.5) == 0.0 && 1.644 < s.quantile(0.95) < 1.646
    && forall p, q :: 0.0 < p <= q < 1.0 ==> s.quantile(p) <= s.quantile(q)
  }

  function Rate(c: Counters): real {
    (Get(c, Verified) + 1) as real / (Get(c, Verified) + Get(c, Refuted) + 2) as real
  }

  function Demand(c: Counters): real {
    Get(c, OutputUses) as real / (Get(c, OutputUses) + Get(c, Invocations) + 1) as real
  }

  function Raw(c: Counters): real {
    W_VERIFIED * Rate(c) + W_DEMAND * Demand(c)
  }

  function Fitness(c: Counters, s: Scale): real {
    s.round(Raw(c))
  }

  function PriorFitness(s: Scale): real {
    Fitness(map[], s)
  }

  /** The variance of the posterior the Laplace prior implies. */
  function Spread(c: Counters): real {
    BetaVariance((Get(c, Verified) + 1) as real, (Get(c, Refuted) + 1) as real)
  }

  function BetaVariance(a: real, b: real): real
    requires a > 0.0 && b > 0.0
  {
    var n := a + b;
    Cubic(n);
    a * b / (n * n * (n + 1.0))
  }

  lemma Cubic(n: real)
    requires n > 0.0
    ensures n * n * (n + 1.0) > 0.0
  {
    var square, cube := n * n, n * n * (n + 1.0);
    ProductPositive(n, n, square);
    ProductPositive(square, n + 1.0, cube);
  }

  function Resolution(c: Counters, s: Scale): real {
    W_VERIFIED * s.sqrt(Spread(c))
  }

  predicate IsUnfit(c: Counters, far: real, s: Scale) {
    Fitness(c, s) + s.quantile(1.0 - far) * Resolution(c, s) < PriorFitness(s)
  }

  // ---- the arithmetic ----

  lemma ProductBounds(x: real, y: real, p: real, loX: real, hiX: real, loY: real, hiY: real)
    requires 0.0 <= loX <= x <= hiX && 0.0 <= loY <= y <= hiY && p == x * y
    ensures loX * loY <= p <= hiX * hiY
  {
    ProductNonNegative(x - loX, y, (x - loX) * y);
    ProductNonNegative(loX, y - loY, loX * (y - loY));
    ProductNonNegative(hiX - x, y, (hiX - x) * y);
    ProductNonNegative(hiX, hiY - y, hiX * (hiY - y));
  }

  lemma QuotientBounds(a: real, b: real, q: real)
    requires 0.0 <= a && 0.0 < b && q == a / b
    ensures 0.0 <= q && (a > 0.0 ==> q > 0.0)
    ensures 2.0 * a >= b ==> q >= 0.5
    ensures a < b ==> q < 1.0
  {
    assert q * b == a;
    if q < 0.0 {
      ProductPositive(-q, b, -a);
    }
    if q < 0.5 {
      ProductPositive(0.5 - q, b, 0.5 * b - a);
    }
    if q >= 1.0 {
      ProductNonNegative(q - 1.0, b, a - b);
    }
  }

  lemma RawBounds(c: Counters)
    ensures 0.0 < Rate(c) < 1.0 && 0.0 <= Demand(c) < 1.0 && 0.0 < Raw(c) < 1.0
    ensures Get(c, OutputUses) == 0 ==> Demand(c) == 0.0
    ensures Get(c, Verified) >= Get(c, Refuted) ==> Raw(c) >= 0.4
    ensures Raw(map[]) == 0.4
  {
    QuotientBounds((Get(c, Verified) + 1) as real, (Get(c, Verified) + Get(c, Refuted) + 2) as real, Rate(c));
    QuotientBounds(Get(c, OutputUses) as real, (Get(c, OutputUses) + Get(c, Invocations) + 1) as real, Demand(c));
    assert Rate(map[]) == 0.5 && Demand(map[]) == 0.0;
  }

  /** Fitness stays on its scale. */
  lemma FitnessInRange(c: Counters, s: Scale)
    requires IsScale(s)
    ensures 0.0 <= Fitness(c, s) <= 1.0
  {
    RawBounds(c);
  }

  lemma RateMoves(v: real, n: real)
    requires 0.0 < v < n
    ensures v / (n + 1.0) <= v / n <= (v + 1.0) / (n + 1.0)
  {
    var rate, up := v / n, (v + 1.0) / (n + 1.0);
    assert rate * n == v && up * (n + 1.0) == v + 1.0;
    var gain := (up - rate) * (n + 1.0);
    assert gain == 1.0 - rate;
    DivMonotone(v, n, n);
    if up < rate {
      ProductPositive(rate - up, n + 1.0, -gain);
    }
    ReciprocalFalls(n, n + 1.0);
    var x, y := 1.0 / n, 1.0 / (n + 1.0);
    ProductPositive(v, x - y, v * (x - y));
    assert v / n == v * x && v / (n + 1.0) == v * y;
  }

  /** A success never lowers fitness, and a refutation never raises it. */
  lemma EvidenceMovesFitness(c: Counters, s: Scale)
    requires IsScale(s)
    ensures Fitness(c, s) <= Fitness(c[Verified := Get(c, Verified) + 1], s)
    ensures Fitness(c[Refuted := Get(c, Refuted) + 1], s) <= Fitness(c, s)
  {
    RateMoves((Get(c, Verified) + 1) as real, (Get(c, Verified) + Get(c, Refuted) + 2) as real);
    var better, worse := c[Verified := Get(c, Verified) + 1], c[Refuted := Get(c, Refuted) + 1];
    assert Rate(worse) <= Rate(c) <= Rate(better);
    assert Demand(better) == Demand(c) == Demand(worse);
    assert Raw(worse) <= Raw(c) <= Raw(better);
  }

  lemma VarianceNonNegative(a: real, b: real)
    requires a > 0.0 && b > 0.0
    ensures BetaVariance(a, b) >= 0.0
  {
    var n, p := a + b, a * b;
    var cube := n * n * (n + 1.0);
    Cubic(n);
    ProductPositive(a, b, p);
    DivMonotone(0.0, p, cube);
  }

  lemma ResolutionNonNegative(c: Counters, s: Scale)
    requires IsScale(s)
    ensures Spread(c) >= 0.0 && Resolution(c, s) >= 0.0
  {
    VarianceNonNegative((Get(c, Verified) + 1) as real, (Get(c, Refuted) + 1) as real);
    var v := Spread(c);
    assert s.sqrt(v) >= 0.0;
  }

  lemma NotUnfit(c: Counters, far: real, s: Scale, margin: real)
    requires margin == s.quantile(1.0 - far) * Resolution(c, s)
    requires Fitness(c, s) + margin >= PriorFitness(s)
    ensures !IsUnfit(c, far, s)
  {
  }

  /** An operator verified at least as often as refuted is never unfit. */
  lemma VerifiedIsNeverUnfit(c: Counters, far: real, s: Scale)
    requires IsScale(s) && 0.0 < far <= 0.5 && Get(c, Verified) >= Get(c, Refuted)
    ensures !IsUnfit(c, far, s)
  {
    RawBounds(c);
    assert s.round(0.4) <= s.round(Raw(c));
    ResolutionNonNegative(c, s);
    var z, res := s.quantile(1.0 - far), Resolution(c, s);
    assert z >= s.quantile(0.5);
    ProductNonNegative(z, res, z * res);
    NotUnfit(c, far, s, z * res);
  }

  /** `z` resolutions, at the default level, when the square root of the spread lies between two bounds. */
  lemma Margin(c: Counters, s: Scale, lo: real, hi: real, v: real)
    requires IsScale(s) && 0.0 <= lo <= hi && v == Spread(c) && lo * lo <= v <= hi * hi
    ensures 1.644 * (W_VERIFIED * lo) <= s.quantile(0.95) * Resolution(c, s) <= 1.646 * (W_VERIFIED * hi)
  {
    Square(lo, lo * lo);
    var w, z, res := s.sqrt(v), s.quantile(0.95), Resolution(c, s);
    assert w * w == v && w >= 0.0;
    SquareOrder(w, lo, v, lo * lo);
    SquareOrder(w, hi, v, hi * hi);
    assert res == W_VERIFIED * w;
    ProductBounds(z, res, z * res, 1.644, 1.646, W_VERIFIED * lo, W_VERIFIED * hi);
  }

  /** A raw fitness and a margin that together clear the prior by more than rounding can undo. */
  lemma Clears(c: Counters, s: Scale, low: real, margin: real)
    requires IsScale(s) && low <= Raw(c) && margin <= s.quantile(0.95) * Resolution(c, s) && low + margin >= 0.4001
    ensures !IsUnfit(c, 0.05, s)
  {
    var product := s.quantile(0.95) * Resolution(c, s);
    assert Raw(map[]) == 0.4;
    assert Fitness(c, s) >= low - 0.00005 && PriorFitness(s) <= 0.40005;
    NotUnfit(c, 0.05, s, product);
  }

  /** With fewer than three refutations no record condemns at the default level. */
  lemma FewRefutationsSpare(c: Counters, s: Scale)
    requires IsScale(s) && Get(c, Refuted) < 3
    ensures !IsUnfit(c, 0.05, s)
  {
    RawBounds(c);
    var v, r := Get(c, Verified), Get(c, Refuted);
    if v >= r {
      VerifiedIsNeverUnfit(c, 0.05, s);
    } else if r == 1 {
      Margin(c, s, 0.2357, 1.0, 2.0 / 36.0);
      Clears(c, s, 0.8 * (1.0 / 3.0), 1.644 * (0.8 * 0.2357));
    } else if v == 0 {
      Margin(c, s, 0.1936, 1.0, 3.0 / 80.0);
      Clears(c, s, 0.2, 1.644 * (0.8 * 0.1936));
    } else {
      Margin(c, s, 0.2, 1.0, 6.0 / 150.0);
      Clears(c, s, 0.32, 1.644 * (0.8 * 0.2));
    }
  }

  /** (n + 1) / ((n + 2)^2 (n + 3)) is largest, from three on, at three. */
  lemma RefutedSpread(n: real)
    requires n >= 3.0
    ensures 0.0 <= BetaVariance(1.0, n + 1.0) <= 4.0 / 150.0
  {
    VarianceNonNegative(1.0, n + 1.0);
    var top, two, bottom := n + 1.0, (n + 2.0) * (n + 3.0), (n + 2.0) * (n + 2.0) * (n + 3.0);
    var square := n * n;
    ProductBounds(n, n, square, 3.0, n, 3.0, n);
    ProductNonNegative(n, n - 3.0, n * (n - 3.0));
    assert two == square + 5.0 * n + 6.0;
    assert square >= 3.0 * n;
    assert bottom == (n + 2.0) * two;
    ProductNonNegative(n - 3.0, two, (n - 3.0) * two);
    assert 4.0 * bottom >= 20.0 * two >= 150.0 * top;
    Cubic(n + 2.0);
    DivMonotone(top, bottom * (4.0 / 150.0), bottom);
  }

  /** With no success and no use of its output, an operator is condemned exactly from the third refutation on. */
  lemma ThirdRefutationCondemns(c: Counters, s: Scale)
    requires IsScale(s) && Get(c, Verified) == 0 && Get(c, OutputUses) == 0
    ensures IsUnfit(c, 0.05, s) <==> Get(c, Refuted) >= 3
  {
    var n := Get(c, Refuted);
    if n < 3 {
      FewRefutationsSpare(c, s);
    } else {
      RefutedCondemned(n as real, c, s);
    }
  }

  lemma RefutedCondemned(n: real, c: Counters, s: Scale)
    requires IsScale(s) && Get(c, Verified) == 0 && Get(c, OutputUses) == 0
    requires n == Get(c, Refuted) as real && n >= 3.0
    ensures IsUnfit(c, 0.05, s)
  {
    RawBounds(c);
    RefutedSpread(n);
    assert Spread(c) == BetaVariance(1.0, n + 1.0);
    Margin(c, s, 0.0, 0.1634, Spread(c));
    if n > 3.0 {
      ReciprocalFalls(5.0, n + 2.0);
    }
    assert Rate(c) == 1.0 / (n + 2.0) <= 0.2;
    var product := s.quantile(0.95) * Resolution(c, s);
    assert Fitness(c, s) <= 0.16005 && PriorFitness(s) >= 0.39995;
    assert Fitness(c, s) + product < PriorFitness(s);
  }

  // ---- what the use of an operator's output does ----

  function Used(c: Counters, u: nat): Counters {
    c[OutputUses := u]
  }

  lemma DemandRises(u: real, i: real)
    requires u >= 0.0 && i >= 0.0
    ensures u / (u + i + 1.0) < (u + 1.0) / (u + i + 2.0)
    ensures u > 0.0 ==> u / (u + i + 2.0) < u / (u + i + 1.0)
  {
    var n := u + i + 1.0;
    UseGains(u, n, u / n, (u + 1.0) / (n + 1.0));
    if u > 0.0 {
      IdleLoses(u, n);
    }
  }

  lemma UseGains(u: real, n: real, x: real, y: real)
    requires 0.0 <= u < n && x == u / n && y == (u + 1.0) / (n + 1.0)
    ensures x < y
  {
    assert x * n == u && y * (n + 1.0) == u + 1.0;
    var gain := (y - x) * (n + 1.0);
    assert gain == 1.0 - x;
    QuotientBounds(u, n, x);
    if y <= x {
      ProductNonNegative(x - y, n + 1.0, -gain);
    }
  }

  lemma IdleLoses(u: real, n: real)
    requires u > 0.0 && n > 0.0
    ensures u / (n + 1.0) < u / n
  {
    ReciprocalFalls(n, n + 1.0);
    var p, q := 1.0 / n, 1.0 / (n + 1.0);
    ProductPositive(u, p - q, u * (p - q));
    assert u / n == u * p && u / (n + 1.0) == u * q;
  }

  /** Another use of its output raises an operator's raw fitness, and an invocation without one lowers it where there
      was any use. */
  lemma UseMovesFitness(c: Counters, s: Scale)
    requires IsScale(s)
    ensures Raw(c) < Raw(Used(c, Get(c, OutputUses) + 1))
    ensures Fitness(c, s) <= Fitness(Used(c, Get(c, OutputUses) + 1), s)
    ensures var idle := c[Invocations := Get(c, Invocations) + 1];
            Raw(idle) <= Raw(c) && (Get(c, OutputUses) > 0 ==> Raw(idle) < Raw(c)) && Fitness(idle, s) <= Fitness(c, s)
  {
    DemandRises(Get(c, OutputUses) as real, Get(c, Invocations) as real);
    var used, idle := Used(c, Get(c, OutputUses) + 1), c[Invocations := Get(c, Invocations) + 1];
    assert Rate(used) == Rate(c) == Rate(idle);
    assert Demand(c) < Demand(used) && Demand(idle) <= Demand(c);
  }

  /** So a spared operator is spared with one use more. */
  lemma UseSpares(c: Counters, far: real, s: Scale)
    requires IsScale(s) && !IsUnfit(c, far, s)
    ensures !IsUnfit(Used(c, Get(c, OutputUses) + 1), far, s)
  {
    var used := Used(c, Get(c, OutputUses) + 1);
    UseMovesFitness(c, s);
    assert Spread(used) == Spread(c);
    StillSpared(c, used, far, s);
  }

  lemma StillSpared(c: Counters, d: Counters, far: real, s: Scale)
    requires !IsUnfit(c, far, s) && Spread(d) == Spread(c) && Fitness(c, s) <= Fitness(d, s)
    ensures !IsUnfit(d, far, s)
  {
    NotUnfit(d, far, s, s.quantile(1.0 - far) * Resolution(c, s));
  }

  lemma {:induction false} MoreUseSpares(c: Counters, far: real, s: Scale, u: nat, v: nat)
    requires IsScale(s) && u <= v && !IsUnfit(Used(c, u), far, s)
    ensures !IsUnfit(Used(c, v), far, s)
    decreases v - u
  {
    if u < v {
      UseSpares(Used(c, u), far, s);
      assert Used(Used(c, u), u + 1) == Used(c, u + 1);
      MoreUseSpares(c, far, s, u + 1, v);
    }
  }

  /** Exactly from `least` uses on is the operator spared. */
  ghost predicate SparedFrom(c: Counters, far: real, s: Scale, least: nat) {
    forall u: nat :: IsUnfit(Used(c, u), far, s) <==> u < least
  }

  /** Where no use leaves an operator unfit and some use spares it, there is an exact number of uses that does. */
  lemma {:induction false} Threshold(c: Counters, far: real, s: Scale, most: nat) returns (least: nat)
    requires IsScale(s) && IsUnfit(Used(c, 0), far, s) && !IsUnfit(Used(c, most), far, s)
    ensures 0 < least <= most && SparedFrom(c, far, s, least)
  {
    if IsUnfit(Used(c, most - 1), far, s) {
      least := most;
      forall u: nat
        ensures IsUnfit(Used(c, u), far, s) <==> u < least
      {
        if u >= most {
          MoreUseSpares(c, far, s, most, u);
        } else if !IsUnfit(Used(c, u), far, s) {
          MoreUseSpares(c, far, s, u, most - 1);
        }
      }
    } else {
      least := Threshold(c, far, s, most - 1);
    }
  }

  /** Ten uses for each invocation, and ten more, are nearly all the demand there is. */
  lemma HighDemand(u: real, i: real)
    requires i >= 0.0 && u >= 10.0 * (i + 1.0)
    ensures u / (u + i + 1.0) >= 0.909
  {
    var n := u + i + 1.0;
    DivMonotone(0.909 * n, u, n);
    assert 0.909 * n / n == 0.909;
  }

  lemma SparedByUse(c: Counters, s: Scale)
    requires IsScale(s) && Get(c, Verified) == 0 && 3 <= Get(c, Refuted) <= 7
    requires Get(c, OutputUses) >= 10 * (Get(c, Invocations) + 1)
    ensures !IsUnfit(c, 0.05, s)
  {
    HighDemand(Get(c, OutputUses) as real, Get(c, Invocations) as real);
    assert Demand(c) >= 0.909;
    match Get(c, Refuted)
    case 3 => SparedAt(c, s, 4.0 / 150.0, 0.163, 0.16);
    case 4 => SparedAt(c, s, 5.0 / 252.0, 0.14, 0.1333);
    case 5 => SparedAt(c, s, 6.0 / 392.0, 0.123, 0.1142);
    case 6 => SparedAt(c, s, 7.0 / 576.0, 0.11, 0.1);
    case 7 => SparedAt(c, s, 8.0 / 810.0, 0.0993, 0.0888);
  }

  lemma SparedAt(c: Counters, s: Scale, v: real, lo: real, rate: real)
    requires IsScale(s) && Demand(c) >= 0.909
    requires v == Spread(c) && 0.0 <= lo && lo * lo <= v <= 1.0 && rate <= W_VERIFIED * Rate(c)
    requires rate + 0.1818 + 1.644 * (W_VERIFIED * lo) >= 0.4001
    ensures !IsUnfit(c, 0.05, s)
  {
    SquareOrder(lo, 1.0, lo * lo, 1.0);
    Margin(c, s, lo, 1.0, v);
    Clears(c, s, rate + 0.1818, 1.644 * (W_VERIFIED * lo));
  }

  lemma LongRefutedSpread(n: real)
    requires n >= 8.0
    ensures 0.0 <= BetaVariance(1.0, n + 1.0) <= 9.0 / 1100.0
  {
    VarianceNonNegative(1.0, n + 1.0);
    var top, two, bottom := n + 1.0, (n + 2.0) * (n + 3.0), (n + 2.0) * (n + 2.0) * (n + 3.0);
    var square := n * n;
    ProductNonNegative(n, n - 8.0, n * (n - 8.0));
    assert square >= 8.0 * n;
    assert two == square + 5.0 * n + 6.0;
    assert bottom == (n + 2.0) * two;
    ProductNonNegative(n - 8.0, two, (n - 8.0) * two);
    assert 9.0 * bottom >= 90.0 * two >= 1100.0 * top;
    Cubic(n + 2.0);
    DivMonotone(top, bottom * (9.0 / 1100.0), bottom);
  }

  lemma CondemnedWhateverUse(n: real, c: Counters, s: Scale)
    requires IsScale(s) && Get(c, Verified) == 0 && n == Get(c, Refuted) as real && n >= 8.0
    ensures IsUnfit(c, 0.05, s)
  {
    RawBounds(c);
    LongRefutedSpread(n);
    assert Spread(c) == BetaVariance(1.0, n + 1.0);
    Margin(c, s, 0.0, 0.0905, Spread(c));
    if n > 8.0 {
      ReciprocalFalls(10.0, n + 2.0);
    }
    assert Rate(c) == 1.0 / (n + 2.0) <= 0.1;
    var product := s.quantile(0.95) * Resolution(c, s);
    assert Fitness(c, s) <= 0.28005 && PriorFitness(s) >= 0.39995;
    assert Fitness(c, s) + product < PriorFitness(s);
  }

  /** With no success, at the default level: fewer than three refutations never condemn; from three to seven condemn an
      operator below an exact number of uses, at most ten for each invocation and ten more; from eight on no number of
      uses spares it. */
  lemma UsesDecide(c: Counters, s: Scale)
    requires IsScale(s) && Get(c, Verified) == 0
    ensures Get(c, Refuted) < 3 ==> forall u: nat :: !IsUnfit(Used(c, u), 0.05, s)
    ensures 3 <= Get(c, Refuted) <= 7 ==>
              exists least: nat :: 0 < least <= 10 * (Get(c, Invocations) + 1) && SparedFrom(c, 0.05, s, least)
    ensures Get(c, Refuted) >= 8 ==> forall u: nat :: IsUnfit(Used(c, u), 0.05, s)
  {
    forall u: nat
      ensures Get(c, Refuted) < 3 ==> !IsUnfit(Used(c, u), 0.05, s)
      ensures Get(c, Refuted) >= 8 ==> IsUnfit(Used(c, u), 0.05, s)
    {
      if Get(c, Refuted) < 3 {
        FewRefutationsSpare(Used(c, u), s);
      } else if Get(c, Refuted) >= 8 {
        CondemnedWhateverUse(Get(c, Refuted) as real, Used(c, u), s);
      }
    }
    if 3 <= Get(c, Refuted) <= 7 {
      var least := UsesNeeded(c, s);
    }
  }

  lemma UsesNeeded(c: Counters, s: Scale) returns (least: nat)
    requires IsScale(s) && Get(c, Verified) == 0 && 3 <= Get(c, Refuted) <= 7
    ensures 0 < least <= 10 * (Get(c, Invocations) + 1) && SparedFrom(c, 0.05, s, least)
  {
    var most := 10 * (Get(c, Invocations) + 1);
    ThirdRefutationCondemns(Used(c, 0), s);
    SparedByUse(Used(c, most), s);
    least := Threshold(c, 0.05, s, most);
  }

  // ---- retiring ----

  /** `docs` is what the store holds under the operator content type, each once. */
  ghost predicate ListsOperators(docs: seq<Doc>, arts: map<string, Doc>) {
    && (forall d :: d in docs <==> d.id in arts && arts[d.id] == d && d.contentType == OPERATOR)
    && forall i, j :: 0 <= i < j < |docs| ==> docs[i].id != docs[j].id
  }

  const CAP: nat := 10_000

  /** The indexed fetch: at most `CAP` rows and no more than the engine serves, and whether that was all of them. */
  function TypedPage(rows: seq<Doc>, served: nat): (page: (seq<Doc>, bool)) {
    var n := if served < CAP then served else CAP;
    if |rows| <= n then (rows, true) else (rows[..n], false)
  }

  /** Every operator the store holds, whether the indexed fetch is there or not and however little it serves. */
  method AllOperators(rows: seq<Doc>, served: Option<nat>, ghost arts: map<string, Doc>) returns (docs: seq<Doc>)
    requires ListsOperators(rows, arts)
    ensures docs == rows && ListsOperators(docs, arts)
  {
    if served.Some? {
      var page := TypedPage(rows, served.value);
      if page.1 {
        return page.0;
      }
    }
    return rows;
  }

  predicate Condemned(d: Doc, far: real, s: Scale) {
    !d.archived && IsUnfit(d.counters, far, s)
  }

  /** The live unfit operators, in listing order. */
  function Doomed(docs: seq<Doc>, far: real, s: Scale): seq<string> {
    if docs == [] then []
    else
      var d := docs[|docs| - 1];
      Doomed(docs[..|docs| - 1], far, s) + if Condemned(d, far, s) then [d.id] else []
  }

  function Archive(arts: map<string, Doc>, ids: seq<string>): map<string, Doc> {
    map id | id in arts :: if id in ids then arts[id].(archived := true) else arts[id]
  }

  lemma {:induction false} DoomedExactly(docs: seq<Doc>, far: real, s: Scale, id: string)
    ensures id in Doomed(docs, far, s) <==>
            exists i :: 0 <= i < |docs| && docs[i].id == id && Condemned(docs[i], far, s)
  {
    if docs != [] {
      var rest := docs[..|docs| - 1];
      DoomedExactly(rest, far, s, id);
      assert forall i :: 0 <= i < |rest| ==> rest[i] == docs[i];
      if i :| 0 <= i < |docs| && docs[i].id == id && Condemned(docs[i], far, s) {
        assert i < |rest| ==> rest[i].id == id && Condemned(rest[i], far, s);
      }
    }
  }

  /** Archiving touches no evidence. */
  lemma ArchivingKeepsTrack(log: seq<Event>, arts: map<string, Doc>, ids: seq<string>, process: string -> bool)
    requires AllTracked(log, arts, process)
    ensures AllTracked(log, Archive(arts, ids), process)
  {
    forall id
      ensures TrackedAt(log, Archive(arts, ids), id, process)
    {
      assert TrackedAt(log, arts, id, process);
    }
  }

  lemma ArchivingOneKeepsTrack(log: seq<Event>, arts: map<string, Doc>, id: string, process: string -> bool)
    requires AllTracked(log, arts, process) && id in arts
    ensures AllTracked(log, arts[id := arts[id].(archived := true)], process)
  {
    ArchivingKeepsTrack(log, arts, [id], process);
    assert arts[id := arts[id].(archived := true)] == Archive(arts, [id]);
  }

  method Retire(store: OperatorStore, id: string, far: real, s: Scale) returns (done: bool)
    requires store.Valid()
    modifies store`arts
    ensures store.Valid() && store.log == old(store.log)
    ensures done <==> id in old(store.arts) && IsUnfit(old(store.arts)[id].counters, far, s)
    ensures store.arts ==
            if done then old(store.arts)[id := old(store.arts)[id].(archived := true)] else old(store.arts)
  {
    if id !in store.arts || !IsUnfit(store.arts[id].counters, far, s) {
      return false;
    }
    ArchivingOneKeepsTrack(store.log, store.arts, id, store.process);
    store.arts := store.arts[id := store.arts[id].(archived := true)];
    return true;
  }

  lemma ArchiveOne(arts: map<string, Doc>, ids: seq<string>, id: string)
    requires id in arts && id !in ids
    ensures Archive(arts, ids)[id] == arts[id]
    ensures Archive(arts, ids)[id := arts[id].(archived := true)] == Archive(arts, ids + [id])
  {
  }

  /** What the sweep finds at its next operator, and what retiring it or not comes to. */
  lemma SweepStep(arts: map<string, Doc>, docs: seq<Doc>, k: nat, far: real, s: Scale)
    requires k < |docs| && ListsOperators(docs, arts)
    ensures var retired := Doomed(docs[..k], far, s); var id := docs[k].id;
            && id in arts && id !in retired && Archive(arts, retired)[id] == docs[k]
            && Doomed(docs[..k + 1], far, s) == (if Condemned(docs[k], far, s) then retired + [id] else retired)
            && Archive(arts, retired)[id := docs[k].(archived := true)] == Archive(arts, retired + [id])
  {
    assert docs[k] in docs;
    assert docs[..k + 1][..k] == docs[..k];
    DoomedExactly(docs[..k], far, s, docs[k].id);
    ArchiveOne(arts, Doomed(docs[..k], far, s), docs[k].id);
  }

  /** A listed operator is passed over when archived, else put to the test. */
  method SweepOne(store: OperatorStore, op: Doc, far: real, s: Scale) returns (done: bool)
    requires store.Valid()
    modifies store`arts
    ensures store.Valid()
    ensures done <==> !op.archived && op.id in old(store.arts) && IsUnfit(old(store.arts)[op.id].counters, far, s)
    ensures store.arts ==
            if done then old(store.arts)[op.id := old(store.arts)[op.id].(archived := true)] else old(store.arts)
  {
    if op.archived {
      return false;
    }
    done := Retire(store, op.id, far, s);
  }

  /** Every live unfit operator is retired, no other artifact touched. */
  method SweepRetire(store: OperatorStore, docs: seq<Doc>, far: real, s: Scale) returns (retired: seq<string>)
    requires store.Valid() && ListsOperators(docs, store.arts)
    modifies store`arts
    ensures store.Valid() && store.log == old(store.log)
    ensures retired == Doomed(docs, far, s)
    ensures store.arts == Archive(old(store.arts), retired)
  {
    ghost var was := store.arts;
    retired := [];
    var k := 0;
    assert store.arts == Archive(was, []);
    while k < |docs|
      invariant 0 <= k <= |docs| && store.Valid()
      invariant retired == Doomed(docs[..k], far, s)
      invariant store.arts == Archive(was, retired)
    {
      var done := SweepOne(store, docs[k], far, s);
      SweepStep(was, docs, k, far, s);
      if done {
        retired := retired + [docs[k].id];
      }
      k := k + 1;
    }
    assert docs[..k] == docs;
  }

  /** A sweep leaves no live unfit operator, so a second one, over whatever listing, returns nothing. */
  lemma SweepSettles(arts: map<string, Doc>, docs: seq<Doc>, again: seq<Doc>, far: real, s: Scale)
    requires ListsOperators(docs, arts)
    requires ListsOperators(again, Archive(arts, Doomed(docs, far, s)))
    ensures Doomed(again, far, s) == []
    ensures forall d :: d in again ==> !Condemned(d, far, s)
  {
    var doomed := Doomed(docs, far, s);
    forall d | d in again
      ensures !Condemned(d, far, s)
    {
      var before := arts[d.id];
      DoomedExactly(docs, far, s, d.id);
      assert before in docs;
    }
    NoneDoomed(again, far, s);
  }

  lemma {:induction false} NoneDoomed(docs: seq<Doc>, far: real, s: Scale)
    requires forall d :: d in docs ==> !Condemned(d, far, s)
    ensures Doomed(docs, far, s) == []
  {
    if docs != [] {
      NoneDoomed(docs[..|docs| - 1], far, s);
    }
  }
}
