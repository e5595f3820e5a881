/** Spearman rank correlation with midranks, or nothing when it is undefined. */
module Spearman {
  import opened Outcomes
  import opened Sums
  import opened Reals
  import opened Sorting

  function LessAt(x: seq<real>, v: real): set<nat> {
    set k: nat | k < |x| && x[k] < v
  }

  function AtMostAt(x: seq<real>, v: real): set<nat> {
    set k: nat | k < |x| && x[k] <= v
  }

  /** The average of the sorted positions, from zero, that the value `v` takes up in `x`. */
  function MidRank(x: seq<real>, v: real): real {
    (|LessAt(x, v)| + |AtMostAt(x, v)| - 1) as real / 2.0
  }

  function MidRanks(x: seq<real>): (r: seq<real>)
    ensures |r| == |x|
  {
    seq(|x|, k requires 0 <= k < |x| => MidRank(x, x[k]))
  }

  // ---- the ranking loop ----

  function At(x: seq<real>, k: nat): real {
    if k < |x| then x[k] else 0.0
  }

  ghost predicate Ordering(x: seq<real>, order: seq<nat>) {
    && |order| == |x|
    && (forall t :: 0 <= t < |order| ==> order[t] < |x|)
    && (forall k: nat :: k < |x| ==> k in order)
    && Distinct(order)
    && forall s, t :: 0 <= s < t < |order| ==> x[order[s]] <= x[order[t]]
  }

  /** A run of equal values from sorted position `i` to `j` shares the rank halfway along it. */
  lemma RunRank(x: seq<real>, order: seq<nat>, i: nat, j: nat)
    requires Ordering(x, order) && i <= j < |order|
    requires x[order[j]] == x[order[i]]
    requires i > 0 ==> x[order[i - 1]] < x[order[i]]
    requires j + 1 < |order| ==> x[order[j]] < x[order[j + 1]]
    ensures MidRank(x, x[order[i]]) == (i + j) as real / 2.0
  {
    var v := x[order[i]];
    PrefixIs(x, order, i, LessAt(x, v));
    PrefixIs(x, order, j + 1, AtMostAt(x, v));
  }

  lemma PrefixIs(x: seq<real>, order: seq<nat>, n: nat, s: set<nat>)
    requires Ordering(x, order) && n <= |order|
    requires forall k :: k in s ==> k < |x|
    requires forall t :: 0 <= t < |order| ==> (order[t] in s <==> t < n)
    ensures |s| == n
  {
    forall k | k in s
      ensures k in order[..n]
    {
      assert k in order;
      var t :| 0 <= t < |order| && order[t] == k;
      assert order[..n][t] == k;
    }
    assert s == ToSet(order[..n]);
    SizeOfListing(order[..n]);
  }

  method SortIndices(x: seq<real>) returns (order: seq<nat>)
    ensures Ordering(x, order)
  {
    var le := (i: nat, j: nat) => At(x, i) <= At(x, j);
    var indices: seq<nat> := seq(|x|, (i: nat) requires i < |x| => i);
    order := SortBy<nat>(le, indices);
    SortSorts<nat>(le, indices);
    SameMembers(indices, order);
    forall k: nat | k < |x|
      ensures k in order
    {
      assert indices[k] == k;
      assert k in ToSet(order);
    }
    forall t | 0 <= t < |order|
      ensures order[t] < |x|
    {
      assert order[t] in ToSet(order);
    }
    forall s, t | 0 <= s < t < |order|
      ensures x[order[s]] <= x[order[t]]
    {
      assert le(order[s], order[t]);
    }
  }

  method Ranks(x: seq<real>) returns (r: seq<real>)
    ensures r == MidRanks(x)
  {
    var order := SortIndices(x);
    r := seq(|x|, _ => 0.0);
    var i := 0;
    while i < |order|
      invariant i <= |order| && |r| == |x|
      invariant 0 < i < |order| ==> x[order[i - 1]] < x[order[i]]
      invariant forall t :: 0 <= t < i ==> r[order[t]] == MidRank(x, x[order[t]])
    {
      var j := i;
      while j + 1 < |order| && x[order[j + 1]] == x[order[i]]
        invariant i <= j < |order| && x[order[j]] == x[order[i]]
      {
        j := j + 1;
      }
      assert forall t :: i <= t <= j ==> x[order[t]] == x[order[i]];
      RunRank(x, order, i, j);
      var k := i;
      while k <= j
        invariant i <= k <= j + 1 && |r| == |x|
        invariant forall t :: 0 <= t < k ==> r[order[t]] == MidRank(x, x[order[t]])
      {
        r := r[order[k] := (i + j) as real / 2.0];
        k := k + 1;
      }
      i := j + 1;
    }
    forall k | 0 <= k < |x|
      ensures r[k] == MidRank(x, x[k])
    {
      assert k in order;
    }
  }

  // ---- what midranks are ----

  /** Equal values share a rank and a smaller value ranks strictly lower. */
  lemma RanksFollowValues(x: seq<real>, i: nat, j: nat)
    requires i < |x| && j < |x|
    ensures MidRanks(x)[i] < MidRanks(x)[j] <==> x[i] < x[j]
    ensures MidRanks(x)[i] == MidRanks(x)[j] <==> x[i] == x[j]
  {
    if x[i] < x[j] {
      LowerRanksLower(x, i, j);
    } else if x[j] < x[i] {
      LowerRanksLower(x, j, i);
    }
  }

  lemma LowerRanksLower(x: seq<real>, i: nat, j: nat)
    requires i < |x| && j < |x| && x[i] < x[j]
    ensures MidRank(x, x[i]) < MidRank(x, x[j])
  {
    assert LessAt(x, x[i]) <= LessAt(x, x[j]) - {i} && i in LessAt(x, x[j]);
    assert AtMostAt(x, x[i]) <= AtMostAt(x, x[j]);
    Smaller(LessAt(x, x[i]), LessAt(x, x[j]) - {i});
    Smaller(AtMostAt(x, x[i]), AtMostAt(x, x[j]));
  }

  lemma Smaller(s: set<nat>, t: set<nat>)
    requires s <= t
    ensures |s| <= |t|
  {
    assert t == s + (t - s);
  }

  /** Twice a midrank, plus one, in whole numbers. */
  function Weight(x: seq<real>, v: real): nat {
    |LessAt(x, v)| + |AtMostAt(x, v)|
  }

  function TotalWeight(x: seq<real>, y: seq<real>): nat {
    if y == [] then 0 else TotalWeight(x, y[..|y| - 1]) + Weight(x, y[|y| - 1])
  }

  lemma SetsAppend(x: seq<real>, w: real, v: real)
    ensures |LessAt(x + [w], v)| == |LessAt(x, v)| + if w < v then 1 else 0
    ensures |AtMostAt(x + [w], v)| == |AtMostAt(x, v)| + if w <= v then 1 else 0
  {
    AddLast(LessAt(x, v), LessAt(x + [w], v), |x|, w < v);
    AddLast(AtMostAt(x, v), AtMostAt(x + [w], v), |x|, w <= v);
  }

  lemma AddLast(s: set<nat>, t: set<nat>, n: nat, added: bool)
    requires n !in s && (n in t <==> added)
    requires forall k :: k != n ==> (k in s <==> k in t)
    ensures |t| == |s| + if added then 1 else 0
  {
    assert t == s + if added then {n} else {};
  }

  /** How one more value weighs on those already there: exactly as they weigh on it, complemented. */
  lemma {:induction false} WeightAppend(x: seq<real>, w: real, y: seq<real>)
    ensures TotalWeight(x + [w], y) == TotalWeight(x, y) + 2 * |y| - Weight(y, w)
  {
    if y == [] {
      assert LessAt(y, w) == {} && AtMostAt(y, w) == {};
    } else {
      var init, v := y[..|y| - 1], y[|y| - 1];
      WeightAppend(x, w, init);
      SetsAppend(x, w, v);
      SetsAppend(init, v, w);
      assert y == init + [v];
    }
  }

  lemma {:induction false} WeightIsSquare(x: seq<real>)
    ensures TotalWeight(x, x) == |x| * |x|
  {
    if x != [] {
      var init, w := x[..|x| - 1], x[|x| - 1];
      WeightIsSquare(init);
      WeightAppend(init, w, init);
      SetsAppend(init, w, w);
      assert x == init + [w];
      NextSquare(|init|, |x|);
    }
  }

  lemma NextSquare(n: nat, m: nat)
    requires m == n + 1
    ensures m * m == n * n + 2 * n + 1
  {
  }

  lemma {:induction false} RankSumIsWeight(x: seq<real>, y: seq<real>)
    ensures 2.0 * SumSeq(seq(|y|, k requires 0 <= k < |y| => MidRank(x, y[k]))) == (TotalWeight(x, y) - |y|) as real
  {
    var r := seq(|y|, k requires 0 <= k < |y| => MidRank(x, y[k]));
    if y != [] {
      var init, v := y[..|y| - 1], y[|y| - 1];
      var s := seq(|init|, k requires 0 <= k < |init| => MidRank(x, init[k]));
      RankSumIsWeight(x, init);
      SumSeqAppend(s, [MidRank(x, v)]);
      assert r == s + [MidRank(x, v)];
      assert SumSeq([MidRank(x, v)]) == MidRank(x, v);
    }
  }

  /** Ties or not, the ranks add up to `n(n-1)/2`. */
  lemma RankSum(x: seq<real>)
    ensures SumSeq(MidRanks(x)) == (|x| * (|x| - 1)) as real / 2.0
  {
    RankSumIsWeight(x, x);
    WeightIsSquare(x);
    assert MidRanks(x) == seq(|x|, k requires 0 <= k < |x| => MidRank(x, x[k]));
    assert |x| * |x| - |x| == |x| * (|x| - 1);
  }

  ghost predicate StrictlyIncreasing(f: real -> real) {
    forall x, y :: x < y ==> f(x) < f(y)
  }

  function Mapped(f: real -> real, x: seq<real>): (y: seq<real>)
    ensures |y| == |x|
  {
    seq(|x|, k requires 0 <= k < |x| => f(x[k]))
  }

  /** Ranks see only the order of the values. */
  lemma RanksIgnoreScale(f: real -> real, x: seq<real>)
    requires StrictlyIncreasing(f)
    ensures MidRanks(Mapped(f, x)) == MidRanks(x)
  {
    var y := Mapped(f, x);
    forall k | 0 <= k < |x|
      ensures MidRank(y, y[k]) == MidRank(x, x[k])
    {
      assert LessAt(y, y[k]) == LessAt(x, x[k]);
      assert AtMostAt(y, y[k]) == AtMostAt(x, x[k]);
    }
  }

  // ---- the correlation ----

  function Dot(a: seq<real>, b: seq<real>): real
    requires |a| == |b|
  {
    if a == [] then 0.0 else a[0] * b[0] + Dot(a[1..], b[1..])
  }

  function Centred(r: seq<real>): (c: seq<real>)
    requires r != []
    ensures |c| == |r|
  {
    var m := SumSeq(r) / |r| as real;
    seq(|r|, k requires 0 <= k < |r| => r[k] - m)
  }

  function Correlate(sqrt: real -> real, ra: seq<real>, rb: seq<real>): Option<real>
    requires |ra| == |rb| > 0
  {
    var ca, cb := Centred(ra), Centred(rb);
    var va, vb := sqrt(Dot(ca, ca)), sqrt(Dot(cb, cb));
    if va == 0.0 || vb == 0.0 then None else Some(Dot(ca, cb) / (va * vb))
  }

  function Rho(sqrt: real -> real, a: seq<real>, b: seq<real>): Option<real> {
    if |a| < 2 || |a| != |b| then None else Correlate(sqrt, MidRanks(a), MidRanks(b))
  }

  method Spearman(sqrt: real -> real, a: seq<real>, b: seq<real>) returns (rho: Option<real>)
    ensures rho == Rho(sqrt, a, b)
  {
    if |a| < 2 || |a| != |b| {
      return None;
    }
    var ra := Ranks(a);
    var rb := Ranks(b);
    return Correlate(sqrt, ra, rb);
  }

  predicate Constant(x: seq<real>) {
    forall i, j :: 0 <= i < |x| && 0 <= j < |x| ==> x[i] == x[j]
  }

  lemma {:induction false} DotNonNegative(a: seq<real>)
    ensures Dot(a, a) >= 0.0
    ensures (forall k :: 0 <= k < |a| ==> a[k] == 0.0) ==> Dot(a, a) == 0.0
    ensures (exists k :: 0 <= k < |a| && a[k] != 0.0) ==> Dot(a, a) > 0.0
  {
    if a != [] {
      DotNonNegative(a[1..]);
      var head := a[0] * a[0];
      Square(a[0], head);
      assert Dot(a, a) == head + Dot(a[1..], a[1..]);
      if k :| 0 <= k < |a| && a[k] != 0.0 {
        assert k > 0 ==> a[1..][k - 1] != 0.0;
      }
    }
  }

  lemma {:induction false} SumConstant(r: seq<real>, v: real)
    requires forall k :: 0 <= k < |r| ==> r[k] == v
    ensures SumSeq(r) == |r| as real * v
  {
    if r != [] {
      SumConstant(r[1..], v);
      assert SumSeq(r) == v + (|r| - 1) as real * v;
    }
  }

  /** The ranks have no variance exactly when the series has no variation. */
  lemma VarianceZero(x: seq<real>)
    requires |x| >= 2
    ensures var c := Centred(MidRanks(x)); Dot(c, c) == 0.0 <==> Constant(x)
  {
    var r := MidRanks(x);
    var c, m := Centred(r), SumSeq(r) / |r| as real;
    DotNonNegative(c);
    if Dot(c, c) == 0.0 {
      forall i, j | 0 <= i < |x| && 0 <= j < |x|
        ensures x[i] == x[j]
      {
        assert c[i] == 0.0 && c[j] == 0.0;
        RanksFollowValues(x, i, j);
      }
    }
    if Constant(x) {
      forall k | 0 <= k < |x|
        ensures r[k] == r[0]
      {
        RanksFollowValues(x, k, 0);
      }
      SumConstant(r, r[0]);
      assert m == r[0];
    }
  }

  /** Undefined exactly for short, mismatched or constant series. */
  lemma RhoUndefined(sqrt: real -> real, a: seq<real>, b: seq<real>)
    requires IsSqrt(sqrt)
    ensures Rho(sqrt, a, b) == None <==> |a| < 2 || |a| != |b| || Constant(a) || Constant(b)
  {
    if |a| >= 2 && |a| == |b| {
      VarianceZero(a);
      VarianceZero(b);
      RootZero(sqrt, Centred(MidRanks(a)));
      RootZero(sqrt, Centred(MidRanks(b)));
    }
  }

  lemma RootZero(sqrt: real -> real, c: seq<real>)
    requires IsSqrt(sqrt)
    ensures Dot(c, c) >= 0.0 && sqrt(Dot(c, c)) >= 0.0
    ensures sqrt(Dot(c, c)) * sqrt(Dot(c, c)) == Dot(c, c)
    ensures Dot(c, c) == 0.0 ==> sqrt(Dot(c, c)) == 0.0
    ensures Dot(c, c) > 0.0 ==> sqrt(Dot(c, c)) > 0.0
  {
    DotNonNegative(c);
    SqrtZero(sqrt);
    Square(sqrt(Dot(c, c)), Dot(c, c));
  }

  /** The three products are handed back by name. */
  lemma {:induction false} CauchySchwarz(a: seq<real>, b: seq<real>) returns (aa: real, ab: real, bb: real)
    requires |a| == |b|
    ensures aa == Dot(a, a) && ab == Dot(a, b) && bb == Dot(b, b)
    ensures aa >= 0.0 && bb >= 0.0 && ab * ab <= aa * bb
  {
    aa, ab, bb := Dot(a, a), Dot(a, b), Dot(b, b);
    if a != [] {
      var e, c, d := CauchySchwarz(a[1..], b[1..]);
      Widen(a[0], b[0], e, c, d, aa, ab, bb);
    }
  }

  lemma Widen(x: real, y: real, e: real, c: real, d: real, aa: real, ab: real, bb: real)
    requires e >= 0.0 && d >= 0.0 && c * c <= e * d
    requires aa == x * x + e && ab == x * y + c && bb == y * y + d
    ensures aa >= 0.0 && bb >= 0.0 && ab * ab <= aa * bb
  {
    Cross(x, y, e, c, d);
    var xx, yy, xy := x * x, y * y, x * y;
    assert xy * xy == xx * yy;
    assert ab * ab == xy * xy + 2.0 * (xy * c) + c * c;
    assert aa * bb == xx * yy + xx * d + yy * e + e * d;
  }

  lemma Cross(x: real, y: real, e: real, c: real, d: real)
    requires e >= 0.0 && d >= 0.0 && c * c <= e * d
    ensures 2.0 * ((x * y) * c) <= (x * x) * d + (y * y) * e
  {
    var xx, yy, xy := x * x, y * y, x * y;
    var gap := xx * d + yy * e - 2.0 * (xy * c);
    if d == 0.0 {
      assert e * d == 0.0;
      Square(c, c * c);
      ProductNonNegative(yy, e, yy * e);
    } else {
      var u, spare := x * d - y * c, e * d - c * c;
      assert u * u == (xx * d) * d - 2.0 * ((xy * c) * d) + yy * (c * c);
      ProductNonNegative(yy, spare, yy * spare);
      assert gap * d == u * u + yy * spare;
      if gap < 0.0 {
        ProductPositive(-gap, d, -gap * d);
        assert false;
      }
    }
  }

  /** Where it is defined it lies between -1 and 1. */
  lemma RhoInRange(sqrt: real -> real, a: seq<real>, b: seq<real>)
    requires IsSqrt(sqrt) && Rho(sqrt, a, b).Some?
    ensures -1.0 <= Rho(sqrt, a, b).value <= 1.0
  {
    CorrelateInRange(sqrt, MidRanks(a), MidRanks(b));
  }

  lemma CorrelateInRange(sqrt: real -> real, ra: seq<real>, rb: seq<real>)
    requires IsSqrt(sqrt) && |ra| == |rb| > 0 && Correlate(sqrt, ra, rb).Some?
    ensures -1.0 <= Correlate(sqrt, ra, rb).value <= 1.0
  {
    var q, ab, va, vb, p := CorrelateParts(sqrt, ra, rb);
    PartsInUnit(sqrt, Centred(ra), Centred(rb), q, ab, va, vb, p);
  }

  lemma CorrelateParts(sqrt: real -> real, ra: seq<real>, rb: seq<real>)
    returns (q: real, ab: real, va: real, vb: real, p: real)
    requires |ra| == |rb| > 0 && Correlate(sqrt, ra, rb).Some?
    ensures q == Correlate(sqrt, ra, rb).value
    ensures va == sqrt(Dot(Centred(ra), Centred(ra))) != 0.0 && vb == sqrt(Dot(Centred(rb), Centred(rb))) != 0.0
    ensures ab == Dot(Centred(ra), Centred(rb)) && p == va * vb && (p != 0.0 ==> q == ab / p)
  {
    q, ab := Correlate(sqrt, ra, rb).value, Dot(Centred(ra), Centred(rb));
    va, vb := sqrt(Dot(Centred(ra), Centred(ra))), sqrt(Dot(Centred(rb), Centred(rb)));
    p := va * vb;
  }

  lemma PartsInUnit(sqrt: real -> real, ca: seq<real>, cb: seq<real>, q: real, ab: real, va: real, vb: real, p: real)
    requires IsSqrt(sqrt) && |ca| == |cb|
    requires va == sqrt(Dot(ca, ca)) != 0.0 && vb == sqrt(Dot(cb, cb)) != 0.0
    requires ab == Dot(ca, cb) && p == va * vb && (p != 0.0 ==> q == ab / p)
    ensures -1.0 <= q <= 1.0
  {
    var aa, bb, pp, cc := SquaresBound(sqrt, ca, cb, va, vb, ab, p);
    QuotientInUnit(ab, p, cc, pp, q);
  }

  /** The product of the two norms is positive, and its square bounds the square of the inner product. */
  lemma SquaresBound(sqrt: real -> real, ca: seq<real>, cb: seq<real>, va: real, vb: real, ab: real, p: real)
    returns (aa: real, bb: real, pp: real, cc: real)
    requires IsSqrt(sqrt) && |ca| == |cb|
    requires va == sqrt(Dot(ca, ca)) != 0.0 && vb == sqrt(Dot(cb, cb)) != 0.0
    requires ab == Dot(ca, cb) && p == va * vb
    ensures p > 0.0 && pp == p * p && cc == ab * ab && cc <= pp
  {
    var wa, wb;
    wa, aa := RootPositive(sqrt, ca);
    wb, bb := RootPositive(sqrt, cb);
    DotsBound(ca, cb, aa, ab, bb);
    ProductPositive(wa, wb, p);
    SquareOfProduct(wa, wb, aa, bb, p);
    pp, cc := p * p, ab * ab;
  }

  lemma SquareOfProduct(x: real, y: real, xx: real, yy: real, p: real)
    requires xx == x * x && yy == y * y && p == x * y
    ensures p * p == xx * yy
  {
    assert p * p == (x * x) * (y * y);
  }

  lemma DotsBound(ca: seq<real>, cb: seq<real>, aa: real, ab: real, bb: real)
    requires |ca| == |cb| && aa == Dot(ca, ca) && ab == Dot(ca, cb) && bb == Dot(cb, cb) && bb > 0.0
    ensures ab * ab <= aa * bb
  {
    var x, y, z := CauchySchwarz(ca, cb);
  }

  lemma RootPositive(sqrt: real -> real, c: seq<real>) returns (v: real, cc: real)
    requires IsSqrt(sqrt) && sqrt(Dot(c, c)) != 0.0
    ensures v == sqrt(Dot(c, c)) && cc == Dot(c, c)
    ensures cc > 0.0 && v > 0.0 && v * v == cc
  {
    RootZero(sqrt, c);
    v, cc := sqrt(Dot(c, c)), Dot(c, c);
  }

  lemma QuotientInUnit(c: real, p: real, cc: real, pp: real, q: real)
    requires p > 0.0 && q == c / p && cc == c * c && pp == p * p && cc <= pp
    ensures -1.0 <= q <= 1.0
  {
    assert (-c) * (-c) == cc;
    if c >= 0.0 {
      SquareOrder(p, c, pp, cc);
    } else {
      SquareOrder(p, -c, pp, cc);
    }
    assert q * p == c;
    if q > 1.0 {
      ProductPositive(q - 1.0, p, c - p);
    } else if q < -1.0 {
      ProductPositive(-1.0 - q, p, -p - c);
    }
  }

  /** A strictly increasing change of scale on either series changes nothing. */
  lemma RhoIgnoresScale(sqrt: real -> real, f: real -> real, g: real -> real, a: seq<real>, b: seq<real>)
    requires StrictlyIncreasing(f) && StrictlyIncreasing(g)
    ensures Rho(sqrt, Mapped(f, a), Mapped(g, b)) == Rho(sqrt, a, b)
  {
    RanksIgnoreScale(f, a);
    RanksIgnoreScale(g, b);
  }

  /** A series that varies correlates perfectly with every strictly increasing image of itself. */
  lemma RhoOfImageIsOne(sqrt: real -> real, f: real -> real, a: seq<real>)
    requires IsSqrt(sqrt) && StrictlyIncreasing(f) && |a| >= 2 && !Constant(a)
    ensures Rho(sqrt, a, Mapped(f, a)) == Some(1.0)
  {
    RanksIgnoreScale(f, a);
    RhoUndefined(sqrt, a, a);
    var c := Centred(MidRanks(a));
    RootZero(sqrt, c);
    assert Dot(c, c) / Dot(c, c) == 1.0;
  }

  // ---- a series turned upside down ----

  ghost predicate StrictlyDecreasing(f: real -> real) {
    forall x, y :: x < y ==> f(y) < f(x)
  }

  lemma Complement(n: nat, s: set<nat>, t: set<nat>)
    requires forall k: nat :: k < n <==> k in s || k in t
    requires s !! t
    ensures |s| + |t| == n
  {
    SizeOfListing(seq(n, (k: nat) => k));
    assert ToSet(seq(n, (k: nat) => k)) == s + t by {
      forall k | k in s + t
        ensures k in ToSet(seq(n, (j: nat) => j))
      {
        assert seq(n, (j: nat) => j)[k] == k;
      }
    }
  }

  /** A strictly decreasing change of scale counts the ranks from the other end. */
  lemma RanksFlip(f: real -> real, x: seq<real>, k: nat)
    requires StrictlyDecreasing(f) && k < |x|
    ensures MidRanks(Mapped(f, x))[k] == (|x| - 1) as real - MidRanks(x)[k]
  {
    var y, v := Mapped(f, x), x[k];
    Complement(|x|, LessAt(y, y[k]), AtMostAt(x, v));
    Complement(|x|, AtMostAt(y, y[k]), LessAt(x, v));
  }

  function Negated(a: seq<real>): (b: seq<real>)
    ensures |b| == |a|
  {
    seq(|a|, k requires 0 <= k < |a| => -a[k])
  }

  lemma {:induction false} DotNegated(a: seq<real>, b: seq<real>)
    requires |a| == |b|
    ensures Dot(a, Negated(b)) == -Dot(a, b)
    ensures Dot(Negated(b), Negated(b)) == Dot(b, b)
  {
    if a != [] {
      DotNegated(a[1..], b[1..]);
      assert Negated(b)[1..] == Negated(b[1..]);
      assert a[0] * -b[0] == -(a[0] * b[0]) && -b[0] * -b[0] == b[0] * b[0];
    }
  }

  /** The mean rank. */
  lemma MeanRank(x: seq<real>)
    requires x != []
    ensures 2.0 * (SumSeq(MidRanks(x)) / |x| as real) == (|x| - 1) as real
  {
    RankSum(x);
    MeanOf(|x|, SumSeq(MidRanks(x)), SumSeq(MidRanks(x)) / |x| as real);
  }

  lemma MeanOf(n: nat, sum: real, m: real)
    requires n > 0 && sum == (n * (n - 1)) as real / 2.0 && m == sum / n as real
    ensures 2.0 * m == (n - 1) as real
  {
    var k, d := n as real, 2.0 * m - (n - 1) as real;
    assert m * k == sum;
    assert (n * (n - 1)) as real == k * (n - 1) as real;
    assert d * k == 0.0;
    if d != 0.0 {
      ProductNonZero(d, k, 0.0);
    }
  }

  lemma CentredFlip(f: real -> real, x: seq<real>)
    requires StrictlyDecreasing(f) && x != []
    ensures Centred(MidRanks(Mapped(f, x))) == Negated(Centred(MidRanks(x)))
  {
    var y := Mapped(f, x);
    MeanRank(x);
    MeanRank(y);
    var rx, ry := MidRanks(x), MidRanks(y);
    var m, n := SumSeq(rx) / |x| as real, SumSeq(ry) / |y| as real;
    assert m == n;
    forall k | 0 <= k < |x|
      ensures ry[k] - n == -(rx[k] - m)
    {
      RanksFlip(f, x, k);
      FlipsAbout(rx[k], ry[k], m, (|x| - 1) as real);
    }
    SameCentred(rx, ry, m);
  }

  lemma FlipsAbout(r: real, s: real, m: real, last: real)
    requires s == last - r && 2.0 * m == last
    ensures s - m == -(r - m)
  {
  }

  lemma SameCentred(rx: seq<real>, ry: seq<real>, m: real)
    requires |rx| == |ry| > 0 && m == SumSeq(rx) / |rx| as real == SumSeq(ry) / |ry| as real
    requires forall k :: 0 <= k < |rx| ==> ry[k] - m == -(rx[k] - m)
    ensures Centred(ry) == Negated(Centred(rx))
  {
  }

  /** A strictly decreasing change of scale turns the sign and nothing else. */
  lemma RhoFlips(sqrt: real -> real, f: real -> real, a: seq<real>, b: seq<real>)
    requires StrictlyDecreasing(f)
    ensures Rho(sqrt, a, Mapped(f, b)) ==
              if Rho(sqrt, a, b) == None then None else Some(-Rho(sqrt, a, b).value)
  {
    if |a| >= 2 && |a| == |b| {
      CentredFlip(f, b);
      CorrelateFlips(sqrt, MidRanks(a), MidRanks(b), MidRanks(Mapped(f, b)));
    }
  }

  lemma CorrelateFlips(sqrt: real -> real, ra: seq<real>, rb: seq<real>, rf: seq<real>)
    requires |ra| == |rb| == |rf| > 0 && Centred(rf) == Negated(Centred(rb))
    ensures Correlate(sqrt, ra, rf) ==
              if Correlate(sqrt, ra, rb) == None then None else Some(-Correlate(sqrt, ra, rb).value)
  {
    DotNegated(Centred(ra), Centred(rb));
    if Correlate(sqrt, ra, rb).Some? {
      var q, ab, va, vb, p := CorrelateParts(sqrt, ra, rb);
      var q', ab', va', vb', p' := CorrelateParts(sqrt, ra, rf);
      ProductNonZero(va, vb, p);
      QuotientFlips(q, q', ab, p);
    }
  }

  lemma ProductNonZero(x: real, y: real, p: real)
    requires x != 0.0 && y != 0.0 && p == x * y
    ensures p != 0.0
  {
    var u, v := if x > 0.0 then x else -x, if y > 0.0 then y else -y;
    ProductPositive(u, v, u * v);
    assert u * v == p || u * v == -p;
  }

  lemma QuotientFlips(q: real, r: real, ab: real, p: real)
    requires p != 0.0 && q == ab / p && r == -ab / p
    ensures r == -q
  {
    assert q * p == ab && r * p == -ab;
    assert (r + q) * p == 0.0;
    if r + q != 0.0 {
      ProductNonZero(r + q, p, 0.0);
    }
  }

  /** So a series that varies correlates with every strictly decreasing image of itself at exactly -1. */
  lemma RhoOfReverse(sqrt: real -> real, f: real -> real, a: seq<real>)
    requires IsSqrt(sqrt) && StrictlyDecreasing(f) && |a| >= 2 && !Constant(a)
    ensures Rho(sqrt, a, Mapped(f, a)) == Some(-1.0)
  {
    var same := (x: real) => x;
    assert Mapped(same, a) == a;
    RhoOfImageIsOne(sqrt, same, a);
    RhoFlips(sqrt, f, a, a);
  }

  // ---- the textbook form: without ties it is one less six times the squared differences over n(n^2 - 1) ----

  function Squares(s: seq<nat>): nat {
    if s == [] then 0 else s[0] * s[0] + Squares(s[1..])
  }

  lemma {:induction false} SquaresAppend(s: seq<nat>, t: seq<nat>)
    ensures Squares(s + t) == Squares(s) + Squares(t)
  {
    if s == [] {
      assert s + t == t;
    } else {
      SquaresAppend(s[1..], t);
      assert (s + t)[1..] == s[1..] + t;
    }
  }

  lemma HighestRank(s: seq<nat>) returns (i: nat)
    requires s != [] && Distinct(s) && forall k :: 0 <= k < |s| ==> s[k] < |s|
    ensures i < |s| && s[i] == |s| - 1
  {
    var n := |s|;
    if n - 1 in s {
      i :| 0 <= i < n && s[i] == n - 1;
    } else {
      SizeOfListing(s);
      var below := seq(n - 1, (k: nat) => k);
      SizeOfListing(below);
      forall v | v in ToSet(s)
        ensures v in ToSet(below)
      {
        assert below[v] == v;
      }
      Smaller(ToSet(s), ToSet(below));
      assert false;
    }
  }

  /** The first `n` numbers, in any order. */
  lemma {:induction false} SquaresOfRanks(s: seq<nat>)
    requires Distinct(s) && forall k :: 0 <= k < |s| ==> s[k] < |s|
    ensures 6 * Squares(s) == if s == [] then 0 else (|s| - 1) * |s| * (2 * |s| - 1)
  {
    if s != [] {
      var n := |s|;
      var i := HighestRank(s);
      var rest := s[..i] + s[i + 1..];
      WithoutHighest(s, i, rest);
      SquaresOfRanks(rest);
      SquaresAppend(s[..i], s[i + 1..]);
      SquaresAppend(s[..i], s[i..]);
      assert s == s[..i] + s[i..] && s[i..][1..] == s[i + 1..];
      assert Squares(s) == Squares(rest) + (n - 1) * (n - 1);
      SquareStep(n, Squares(rest));
    }
  }

  lemma WithoutHighest(s: seq<nat>, i: nat, rest: seq<nat>)
    requires i < |s| && Distinct(s) && s[i] == |s| - 1 && rest == s[..i] + s[i + 1..]
    requires forall k :: 0 <= k < |s| ==> s[k] < |s|
    ensures Distinct(rest) && forall k :: 0 <= k < |rest| ==> rest[k] < |rest|
  {
    forall k | 0 <= k < |rest|
      ensures rest[k] < |rest|
    {
      assert rest[k] == s[if k < i then k else k + 1];
    }
  }

  lemma SquareStep(n: nat, q: nat)
    requires n > 0 && 6 * q == if n == 1 then 0 else (n - 2) * (n - 1) * (2 * (n - 1) - 1)
    ensures 6 * (q + (n - 1) * (n - 1)) == (n - 1) * n * (2 * n - 1)
  {
    var m := n - 1;
    assert (m - 1) * m * (2 * m - 1) == m * ((m - 1) * (2 * m - 1));
    assert (m - 1) * (2 * m - 1) == 2 * (m * m) - 3 * m + 1;
    assert m * (m + 1) * (2 * m + 1) == m * ((m + 1) * (2 * m + 1));
    assert (m + 1) * (2 * m + 1) == 2 * (m * m) + 3 * m + 1;
    assert m * (2 * (m * m) + 3 * m + 1) == m * (2 * (m * m) - 3 * m + 1) + 6 * (m * m);
  }

  predicate NoTies(x: seq<real>) {
    forall i, j :: 0 <= i < j < |x| ==> x[i] != x[j]
  }

  /** Without ties the ranks are the first `n` numbers. */
  lemma RanksWithoutTies(x: seq<real>) returns (s: seq<nat>)
    requires NoTies(x)
    ensures |s| == |x| && Distinct(s)
    ensures forall k :: 0 <= k < |s| ==> s[k] < |s| && MidRanks(x)[k] == s[k] as real
  {
    s := seq(|x|, k requires 0 <= k < |x| => |LessAt(x, x[k])|);
    forall k | 0 <= k < |x|
      ensures s[k] < |x| && MidRanks(x)[k] == s[k] as real
    {
      var below := LessAt(x, x[k]);
      assert AtMostAt(x, x[k]) == below + {k} && k !in below;
      SizeOfListing(seq(|x|, (j: nat) => j));
      forall j | j in below + {k}
        ensures j in ToSet(seq(|x|, (i: nat) => i))
      {
        assert seq(|x|, (i: nat) => i)[j] == j;
      }
      Smaller(below + {k}, ToSet(seq(|x|, (j: nat) => j)));
    }
    forall i, j | 0 <= i < j < |s|
      ensures s[i] != s[j]
    {
      RanksFollowValues(x, i, j);
    }
  }

  lemma {:induction false} DotOfNumbers(s: seq<nat>, r: seq<real>)
    requires |r| == |s| && forall k :: 0 <= k < |s| ==> r[k] == s[k] as real
    ensures Dot(r, r) == Squares(s) as real
  {
    if s != [] {
      DotOfNumbers(s[1..], r[1..]);
      SquareOfNumber(s[0], r[0]);
    }
  }

  lemma SquareOfNumber(n: nat, x: real)
    requires x == n as real
    ensures x * x == (n * n) as real
  {
  }

  lemma {:induction false} DotConstant(r: seq<real>, m: real, ms: seq<real>) returns (sum: real)
    requires |ms| == |r| && forall k :: 0 <= k < |r| ==> ms[k] == m
    ensures sum == SumSeq(r) && Dot(r, ms) == m * sum
  {
    sum := SumSeq(r);
    if r == [] {
      Nothing(m, sum);
    } else {
      var rest := DotConstant(r[1..], m, ms[1..]);
      Distribute(m, r[0], rest, sum);
    }
  }

  lemma Nothing(m: real, sum: real)
    requires sum == 0.0
    ensures m * sum == 0.0
  {
  }

  lemma Distribute(m: real, x: real, y: real, z: real)
    requires z == x + y
    ensures x * m + m * y == m * z
  {
  }

  /** The squares of a shifted series, multiplied out; each sum is handed back by name. */
  lemma ShiftedDot(r: seq<real>, m: real, c: seq<real>) returns (cc: real, rr: real, sum: real)
    requires |c| == |r| && forall k :: 0 <= k < |r| ==> c[k] == r[k] - m
    ensures cc == Dot(c, c) && rr == Dot(r, r) && sum == SumSeq(r)
    ensures cc == rr - 2.0 * (m * sum) + |r| as real * (m * m)
  {
    var ms := seq(|r|, _ => m);
    DotOfDifferences(r, ms, c);
    SumConstant(ms, m);
    var total := DotConstant(ms, m, ms);
    cc, rr := Dot(c, c), Dot(r, r);
    sum := DotConstant(r, m, ms);
    Regroup(m, |r| as real, total);
  }

  lemma Regroup(m: real, n: real, total: real)
    requires total == n * m
    ensures m * total == n * (m * m)
  {
  }

  lemma RankSquares(x: seq<real>) returns (q: nat)
    requires x != [] && NoTies(x)
    ensures 6 * q == (|x| - 1) * |x| * (2 * |x| - 1) && Dot(MidRanks(x), MidRanks(x)) == q as real
  {
    var s := RanksWithoutTies(x);
    q := Squares(s);
    SquaresOfRanks(s);
    DotOfNumbers(s, MidRanks(x));
  }

  lemma CentredParts(x: seq<real>) returns (v: real, q: nat, m: real, sum: real)
    requires x != [] && NoTies(x)
    ensures v == Dot(Centred(MidRanks(x)), Centred(MidRanks(x)))
    ensures 6 * q == (|x| - 1) * |x| * (2 * |x| - 1) && m == sum / |x| as real && sum == SumSeq(MidRanks(x))
    ensures v == q as real - 2.0 * (m * sum) + |x| as real * (m * m)
  {
    var r := MidRanks(x);
    m := SumSeq(r) / |x| as real;
    var rr;
    v, rr, sum := ShiftedDot(r, m, Centred(r));
    q := RankSquares(x);
  }

  /** `n` times the variance of the first `n` numbers. */
  lemma VarianceWithoutTies(x: seq<real>) returns (v: real)
    requires x != [] && NoTies(x)
    ensures v == Dot(Centred(MidRanks(x)), Centred(MidRanks(x)))
    ensures 12.0 * v == (|x| * (|x| * |x| - 1)) as real
  {
    var q, m, sum;
    v, q, m, sum := CentredParts(x);
    MeanRank(x);
    RankSum(x);
    VarianceSum(|x|, q, m, sum, v);
  }

  lemma VarianceSum(n: nat, q: nat, m: real, sum: real, v: real)
    requires n > 0 && 6 * q == (n - 1) * n * (2 * n - 1) && 2.0 * m == (n - 1) as real
    requires sum == (n * (n - 1)) as real / 2.0
    requires v == q as real - 2.0 * (m * sum) + n as real * (m * m)
    ensures 12.0 * v == (n * (n * n - 1)) as real
  {
    var k, two, total := n - 1, 2.0 * m, 2.0 * sum;
    var cross, square := m * sum, m * m;
    assert total == (n * k) as real;
    WholeProduct(k, n * k, two, total, 4.0 * cross);
    WholeProduct(k, k, two, two, 4.0 * square);
    WholeProduct(n, k * k, n as real, 4.0 * square, 4.0 * (n as real * square));
    VarianceInts(n, k, q);
    assert 12.0 * v == (12 * q - 6 * (k * (n * k)) + 3 * (n * (k * k))) as real;
  }

  lemma WholeProduct(a: nat, b: nat, x: real, y: real, p: real)
    requires x == a as real && y == b as real && p == x * y
    ensures p == (a * b) as real
  {
  }

  lemma VarianceInts(n: nat, k: nat, q: nat)
    requires n == k + 1 && 6 * q == k * n * (2 * n - 1)
    ensures 12 * q - 6 * (k * (n * k)) + 3 * (n * (k * k)) == n * (n * n - 1)
  {
    var square := k * k;
    var cube := square * k;
    OddProduct(k, n, square, cube);
    LongProduct(k, n, square, cube);
    MixedProducts(k, n, square, cube);
  }

  lemma OddProduct(k: int, n: int, square: int, cube: int)
    requires n == k + 1 && square == k * k && cube == square * k
    ensures k * n * (2 * n - 1) == 2 * cube + 3 * square + k
  {
    var pair := k * n;
    assert pair == square + k;
    assert pair * (2 * n - 1) == 2 * (pair * k) + pair;
    assert pair * k == cube + square;
  }

  lemma LongProduct(k: int, n: int, square: int, cube: int)
    requires n == k + 1 && square == k * k && cube == square * k
    ensures n * (n * n - 1) == cube + 3 * square + 2 * k
  {
    var gap := n * n - 1;
    assert gap == square + 2 * k;
    assert n * gap == k * gap + gap;
    assert k * gap == cube + 2 * square;
  }

  lemma MixedProducts(k: int, n: int, square: int, cube: int)
    requires n == k + 1 && square == k * k && cube == square * k
    ensures k * (n * k) == cube + square && n * (k * k) == cube + square
  {
    assert n * k == square + k;
    assert k * (square + k) == cube + square;
  }

  function Differences(a: seq<real>, b: seq<real>): (d: seq<real>)
    requires |a| == |b|
    ensures |d| == |a| && forall k :: 0 <= k < |a| ==> d[k] == a[k] - b[k]
  {
    seq(|a|, k requires 0 <= k < |a| => a[k] - b[k])
  }

  lemma {:induction false} DotOfDifferences(a: seq<real>, b: seq<real>, d: seq<real>)
    requires |a| == |b| == |d| && forall k :: 0 <= k < |a| ==> d[k] == a[k] - b[k]
    ensures Dot(d, d) == Dot(a, a) - 2.0 * Dot(a, b) + Dot(b, b)
  {
    if a != [] {
      DotOfDifferences(a[1..], b[1..], d[1..]);
      SquareOfDifference(a[0], b[0], d[0]);
    }
  }

  lemma SquareOfDifference(x: real, y: real, d: real)
    requires d == x - y
    ensures d * d == x * x - 2.0 * (x * y) + y * y
  {
  }

  /** The textbook form, for two series without ties. */
  lemma RhoByDifferences(sqrt: real -> real, a: seq<real>, b: seq<real>)
    requires IsSqrt(sqrt) && |a| == |b| >= 2 && NoTies(a) && NoTies(b)
    ensures |a| * (|a| * |a| - 1) > 0
    ensures var d := Differences(MidRanks(a), MidRanks(b));
            Rho(sqrt, a, b) == Some(1.0 - 6.0 * Dot(d, d) / (|a| * (|a| * |a| - 1)) as real)
  {
    var n := |a|;
    PositiveCube(n);
    assert a[0] != a[1] && b[0] != b[1];
    RhoUndefined(sqrt, a, b);
    var aa := VarianceWithoutTies(a);
    var bb := VarianceWithoutTies(b);
    MeanRank(a);
    MeanRank(b);
    var q, ab, dd := EvenParts(sqrt, MidRanks(a), MidRanks(b), aa);
    TextbookQuotient(q, ab, aa, dd, (n * (n * n - 1)) as real);
  }

  lemma EvenParts(sqrt: real -> real, ra: seq<real>, rb: seq<real>, aa: real) returns (q: real, ab: real, dd: real)
    requires IsSqrt(sqrt) && |ra| == |rb| > 0 && Correlate(sqrt, ra, rb).Some?
    requires SumSeq(ra) / |ra| as real == SumSeq(rb) / |rb| as real
    requires aa == Dot(Centred(ra), Centred(ra)) == Dot(Centred(rb), Centred(rb)) > 0.0
    ensures q == Correlate(sqrt, ra, rb).value && q == ab / aa
    ensures dd == Dot(Differences(ra, rb), Differences(ra, rb)) == 2.0 * aa - 2.0 * ab
  {
    q, ab := EvenQuotient(sqrt, ra, rb, aa);
    dd := Dot(Differences(ra, rb), Differences(ra, rb));
    DotOfDifferences(Centred(ra), Centred(rb), Differences(ra, rb));
  }

  lemma EvenQuotient(sqrt: real -> real, ra: seq<real>, rb: seq<real>, aa: real) returns (q: real, ab: real)
    requires IsSqrt(sqrt) && |ra| == |rb| > 0 && Correlate(sqrt, ra, rb).Some?
    requires aa == Dot(Centred(ra), Centred(ra)) == Dot(Centred(rb), Centred(rb)) > 0.0
    ensures q == Correlate(sqrt, ra, rb).value && q == ab / aa && ab == Dot(Centred(ra), Centred(rb))
  {
    var va, vb, p;
    q, ab, va, vb, p := CorrelateParts(sqrt, ra, rb);
    assert va == sqrt(aa) && vb == sqrt(aa);
    RootOf(sqrt, aa, va);
  }

  lemma RootOf(sqrt: real -> real, aa: real, v: real)
    requires IsSqrt(sqrt) && aa >= 0.0 && v == sqrt(aa)
    ensures v * v == aa
  {
  }

  lemma PositiveCube(n: nat)
    requires n >= 2
    ensures n * (n * n - 1) > 0
  {
    assert n * n >= 2 * n;
  }

  lemma TextbookQuotient(q: real, ab: real, aa: real, dd: real, cube: real)
    requires cube > 0.0 && 12.0 * aa == cube && q == ab / aa && dd == 2.0 * aa - 2.0 * ab
    ensures q == 1.0 - 6.0 * dd / cube
  {
    var t := 6.0 * dd / cube;
    assert t * cube == 6.0 * dd && q * aa == ab;
    assert (1.0 - t - q) * cube == 0.0;
    if 1.0 - t - q != 0.0 {
      ProductNonZero(1.0 - t - q, cube, 0.0);
    }
  }
}
