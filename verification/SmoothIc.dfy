/** Laplace-smoothed information content over a spanning forest, and its standard error. */
module SmoothIc {
  import opened Outcomes
  import opened Sums
  import opened Graphs
  import opened Reals
  import opened Sorting

  type Parents = map<string, Option<string>>

  function ParentOf(parents: Parents, n: string): Option<string> {
    if n in parents then parents[n] else None
  }

  ghost function Tree(parents: Parents): (g: Graph)
    ensures g.Keys == parents.Keys
  {
    map n | n in parents :: if parents[n].Some? then [parents[n].value] else []
  }

  /** Every parent is itself listed, and no chain of parents returns to where it began. */
  ghost predicate Forest(parents: Parents) {
    && (forall n :: n in parents && parents[n].Some? ==> parents[n].value in parents)
    && Acyclic(Tree(parents))
  }

  ghost function KidsOf(parents: Parents, n: string): set<string> {
    set c | c in parents && parents[c] == Some(n)
  }

  lemma KidStep(parents: Parents, c: string)
    requires Forest(parents) && c in parents && parents[c].Some?
    ensures Step(Tree(parents), c, parents[c].value)
    ensures |Above(Tree(parents), parents[c].value)| < |Above(Tree(parents), c)|
  {
    AboveShrinks(Tree(parents), c, parents[c].value);
  }

  // ---- depth: climbs to a root or to a depth already known ----

  ghost function DepthOf(parents: Parents, n: string): nat
    requires n in parents && Forest(parents)
    decreases |Above(Tree(parents), n)|
  {
    if parents[n] == None then 0
    else
      KidStep(parents, n);
      1 + DepthOf(parents, parents[n].value)
  }

  ghost predicate DepthsRight(parents: Parents, depth: map<string, nat>)
    requires Forest(parents)
  {
    forall n :: n in depth ==> n in parents && depth[n] == DepthOf(parents, n)
  }

  /** Ends on any map of parents, cycles included; on a forest it is the distance from the root. */
  method Depth(parents: Parents, depth: map<string, nat>, n: string) returns (d: nat)
    requires n in parents
    ensures Forest(parents) && DepthsRight(parents, depth) ==> d == DepthOf(parents, n)
  {
    var seen: set<string>, cur := {}, n;
    d := 0;
    while true
      invariant seen <= parents.Keys
      invariant cur in seen ==> ParentOf(parents, cur) == Some(cur)
      invariant Forest(parents) ==> cur in parents && forall x :: x in seen ==> Reaches(Tree(parents), x, cur)
      invariant Forest(parents) ==> d + DepthOf(parents, cur) == DepthOf(parents, n)
      decreases parents.Keys - seen
    {
      if cur in depth {
        d := d + depth[cur];
        return;
      }
      var p := ParentOf(parents, cur);
      if p == None || p.value in seen {
        if Forest(parents) && p.Some? {
          KidStep(parents, cur);
          StepReaches(Tree(parents), cur, p.value);
          ReachesTrans(Tree(parents), p.value, cur, p.value);
        }
        return;
      }
      if Forest(parents) {
        KidStep(parents, cur);
        StepReaches(Tree(parents), cur, p.value);
        forall x | x in seen
          ensures Reaches(Tree(parents), x, p.value)
        {
          ReachesTrans(Tree(parents), x, cur, p.value);
        }
      }
      seen, cur, d := seen + {cur}, p.value, d + 1;
    }
  }

  // ---- cumulative mass ----

  /** A node's own smoothed count: a negative count reads as zero. */
  function Own(own: map<string, real>, alpha: real, n: string): (c: real)
    ensures n in own && own[n] > 0.0 ==> c == own[n] + alpha
    ensures n !in own || own[n] <= 0.0 ==> c == alpha
  {
    var c := Get(own, n);
    (if c > 0.0 then c else 0.0) + alpha
  }

  function Get(m: map<string, real>, n: string): real {
    if n in m then m[n] else 0.0
  }

  ghost function KidMass(parents: Parents, cum: map<string, real>, n: string): real {
    SumSet(KidsOf(parents, n), k => Get(cum, k))
  }

  /** Each node carries its own smoothed count and all its children's mass. */
  ghost predicate Balanced(parents: Parents, own: map<string, real>, alpha: real, cum: map<string, real>) {
    cum.Keys == parents.Keys && BalancedSoFar(parents, own, alpha, cum)
  }

  ghost predicate BalancedSoFar(parents: Parents, own: map<string, real>, alpha: real, cum: map<string, real>) {
    forall n :: n in cum ==> cum[n] == Own(own, alpha, n) + KidMass(parents, cum, n)
  }

  ghost function TopsOf(parents: Parents, d: set<string>): set<string> {
    set n | n in d && (ParentOf(parents, n) == None || ParentOf(parents, n).value !in d)
  }

  ghost predicate DownClosed(parents: Parents, d: set<string>) {
    d <= parents.Keys && forall c :: c in parents && parents[c].Some? && parents[c].value in d ==> c in d
  }

  lemma {:induction false} HasTop(parents: Parents, d: set<string>, n: string) returns (top: string)
    requires Forest(parents) && d <= parents.Keys && n in d
    ensures top in TopsOf(parents, d)
    decreases |Above(Tree(parents), n)|
  {
    if n in TopsOf(parents, d) {
      top := n;
    } else {
      KidStep(parents, n);
      top := HasTop(parents, d, parents[n].value);
    }
  }

  lemma TopsWithout(parents: Parents, d: set<string>, top: string)
    requires Forest(parents) && DownClosed(parents, d) && top in TopsOf(parents, d)
    ensures DownClosed(parents, d - {top})
    ensures TopsOf(parents, d - {top}) == (TopsOf(parents, d) - {top}) + KidsOf(parents, top)
    ensures TopsOf(parents, d) - {top} !! KidsOf(parents, top)
  {
    forall c | c in KidsOf(parents, top)
      ensures c != top && c in d
    {
      KidStep(parents, c);
    }
  }

  /** No mass is lost: what the top nodes of a downward-closed part carry is what all its nodes put in. */
  lemma {:induction false} MassKept(parents: Parents, own: map<string, real>, alpha: real, cum: map<string, real>,
                                    d: set<string>, carried: string -> real, put: string -> real)
    requires Forest(parents) && Balanced(parents, own, alpha, cum) && DownClosed(parents, d)
    requires (forall k :: carried(k) == Get(cum, k)) && forall k :: put(k) == Own(own, alpha, k)
    ensures SumSet(TopsOf(parents, d), carried) == SumSet(d, put)
    decreases d
  {
    if d == {} {
      assert TopsOf(parents, d) == {};
    } else {
      var n :| n in d;
      var top := HasTop(parents, d, n);
      TopsWithout(parents, d, top);
      MassKept(parents, own, alpha, cum, d - {top}, carried, put);
      SumSetPick(TopsOf(parents, d), carried, top);
      SumSetPick(d, put, top);
      SumSetUnion(TopsOf(parents, d) - {top}, KidsOf(parents, top), carried);
      SumSetAgree(KidsOf(parents, top), carried, k => Get(cum, k));
    }
  }

  ghost function RootsOf(parents: Parents): set<string> {
    set n | n in parents && parents[n] == None
  }

  /** The roots together carry every node's smoothed count, so `total` is the whole vocabulary's. */
  lemma RootsCarryAll(parents: Parents, own: map<string, real>, alpha: real, cum: map<string, real>,
                      carried: string -> real, put: string -> real)
    requires Forest(parents) && Balanced(parents, own, alpha, cum)
    requires (forall k :: carried(k) == Get(cum, k)) && forall k :: put(k) == Own(own, alpha, k)
    ensures SumSet(RootsOf(parents), carried) == SumSet(parents.Keys, put)
  {
    assert TopsOf(parents, parents.Keys) == RootsOf(parents);
    MassKept(parents, own, alpha, cum, parents.Keys, carried, put);
  }

  ghost function Subtree(parents: Parents, n: string): set<string> {
    {n} + Below(Tree(parents), n)
  }

  lemma SubtreeDown(parents: Parents, n: string, c: string)
    requires Forest(parents) && n in parents
    requires c in parents && parents[c].Some? && parents[c].value in Subtree(parents, n)
    ensures c in Subtree(parents, n)
  {
    KidStep(parents, c);
    StepReaches(Tree(parents), c, parents[c].value);
    if parents[c].value != n {
      ReachesTrans(Tree(parents), c, parents[c].value, n);
    }
  }

  lemma SubtreeTop(parents: Parents, n: string, c: string)
    requires Forest(parents) && n in parents && c in Subtree(parents, n)
    ensures c in TopsOf(parents, Subtree(parents, n)) <==> c == n
  {
    var g := Tree(parents);
    if c != n {
      var k: nat :| k > 0 && ReachesIn(g, c, n, k);
      var m :| Step(g, c, m) && ReachesIn(g, m, n, k - 1);
      assert k > 1 ==> Reaches(g, m, n);
      assert parents[c] == Some(m) && m in Subtree(parents, n);
    } else if parents[n].Some? {
      KidStep(parents, n);
      var p := parents[n].value;
      StepReaches(g, n, p);
      assert p != n;
      if p in Below(g, n) {
        ReachesTrans(g, n, p, n);
      }
    }
  }

  /** A node's mass is the sum of the smoothed counts at and below it. */
  lemma MassIsSubtree(parents: Parents, own: map<string, real>, alpha: real, cum: map<string, real>,
                      n: string, put: string -> real)
    requires Forest(parents) && Balanced(parents, own, alpha, cum) && n in parents
    requires forall k :: put(k) == Own(own, alpha, k)
    ensures cum[n] == SumSet(Subtree(parents, n), put)
  {
    var d, carried := Subtree(parents, n), k => Get(cum, k);
    forall c | c in parents && parents[c].Some? && parents[c].value in d
      ensures c in d
    {
      SubtreeDown(parents, n, c);
    }
    forall c | c in d
      ensures c in TopsOf(parents, d) <==> c == n
    {
      SubtreeTop(parents, n, c);
    }
    assert TopsOf(parents, d) == {n};
    MassKept(parents, own, alpha, cum, d, carried, put);
    SumSetPick({n}, carried, n);
    assert {n} - {n} == {};
  }

  // ---- the measure and what it promises ----

  ghost function MassOf(own: map<string, real>, alpha: real, s: set<string>): real {
    SumSet(s, k => Own(own, alpha, k))
  }

  lemma MassGrows(own: map<string, real>, alpha: real, s: set<string>, t: set<string>)
    requires alpha > 0.0 && s <= t
    ensures 0.0 <= MassOf(own, alpha, s) <= MassOf(own, alpha, t)
    ensures s != t ==> MassOf(own, alpha, s) + alpha <= MassOf(own, alpha, t)
    ensures s != {} ==> MassOf(own, alpha, s) >= alpha
  {
    var put := k => Own(own, alpha, k);
    assert t == s + (t - s);
    SumSetUnion(s, t - s, put);
    SumSetNonNegative(s, put);
    SumSetNonNegative(t - s, put);
    if s != t {
      var x :| x in t - s;
      SumSetPick(t - s, put, x);
      SumSetNonNegative(t - s - {x}, put);
    }
    if s != {} {
      var x :| x in s;
      SumSetPick(s, put, x);
      SumSetNonNegative(s - {x}, put);
    }
  }

  /** `(-log(c/total), sqrt((1 - c/total)/c))`. */
  function Measure(log: real -> real, sqrt: real -> real, c: real, total: real): (real, real)
    requires c > 0.0 && total > 0.0
  {
    var p := c / total;
    (-log(p), sqrt((if 1.0 - p > 0.0 then 1.0 - p else 0.0) / c))
  }

  /** What the measure of a mass says: the content, and the error by its square. */
  ghost predicate Says(log: real -> real, m: (real, real), c: real, total: real)
    requires total > 0.0
  {
    m.0 == -log(c / total) && m.1 >= 0.0 && m.1 * m.1 * c == 1.0 - c / total
  }

  lemma MeasureSays(log: real -> real, sqrt: real -> real, c: real, total: real)
    requires IsSqrt(sqrt) && 0.0 < c <= total
    ensures Says(log, Measure(log, sqrt, c, total), c, total)
  {
    DivMonotone(c, total, total);
    var gap := 1.0 - c / total;
    var v := gap / c;
    DivMonotone(0.0, gap, c);
    Quotient(gap, c, v);
    assert Measure(log, sqrt, c, total) == (-log(c / total), sqrt(v));
    assert sqrt(v) >= 0.0;
    ErrorSquares(sqrt(v), v, c, gap);
  }

  lemma Quotient(a: real, b: real, q: real)
    requires b != 0.0 && q == a / b
    ensures q * b == a
  {
  }

  lemma ErrorSquares(e: real, v: real, c: real, gap: real)
    requires e * e == v && v * c == gap
    ensures e * e * c == gap
  {
  }

  /** More mass, less information and a smaller standard error, both strictly. */
  lemma MeasureFalls(log: real -> real, sqrt: real -> real, c: real, d: real, total: real)
    requires IsLog(log) && IsSqrt(sqrt)
    requires 0.0 < c < d <= total
    ensures Measure(log, sqrt, d, total).0 < Measure(log, sqrt, c, total).0
    ensures Measure(log, sqrt, d, total).1 < Measure(log, sqrt, c, total).1
    ensures Measure(log, sqrt, d, total).0 >= 0.0
    ensures Measure(log, sqrt, d, total).0 == 0.0 <==> d == total
  {
    DivMonotone(c, d, total);
    DivMonotone(0.0, c, total);
    DivMonotone(d, total, total);
    var x, y := (1.0 - c / total) / c, (1.0 - d / total) / d;
    ErrorFraction(c, total);
    ErrorFraction(d, total);
    ReciprocalFalls(c, d);
    assert 0.0 <= y < x by {
      DivMonotone(0.0, 1.0 - d / total, d);
    }
    SqrtMonotone(sqrt, y, x);
    assert d < total ==> log(d / total) < log(1.0);
  }

  lemma ErrorFraction(c: real, total: real)
    requires 0.0 < c && 0.0 < total
    ensures (1.0 - c / total) / c == 1.0 / c - 1.0 / total
  {
    var p := c / total;
    assert p / c == 1.0 / total by {
      assert p * total == c;
      assert (1.0 / total) * c == p;
    }
  }

  // ---- smooth_ic ----

  function Listed(children: map<string, seq<string>>, n: string): seq<string> {
    if n in children then children[n] else []
  }

  ghost predicate ListsKids(children: map<string, seq<string>>, parents: Parents) {
    forall n :: Distinct(Listed(children, n)) && ToSet(Listed(children, n)) == KidsOf(parents, n)
  }

  ghost predicate Lists(names: seq<string>, parents: Parents) {
    Distinct(names) && ToSet(names) == parents.Keys
  }

  method IndexChildren(parents: Parents, names: seq<string>) returns (children: map<string, seq<string>>)
    requires Lists(names, parents)
    ensures ListsKids(children, parents)
  {
    children := map[];
    for i := 0 to |names|
      invariant ListsKidsAmong(children, parents, names[..i])
    {
      var c := names[i];
      assert c in ToSet(names) && names[..i + 1] == names[..i] + [c];
      assert c !in names[..i];
      KidListed(children, parents, names[..i], c);
      if parents[c].Some? {
        children := children[parents[c].value := Listed(children, parents[c].value) + [c]];
      }
    }
    assert names[..|names|] == names;
    AllListed(children, parents, names);
  }

  ghost predicate ListsKidsAmong(children: map<string, seq<string>>, parents: Parents, names: seq<string>) {
    forall n :: Distinct(Listed(children, n)) && ToSet(Listed(children, n)) == KidsOf(parents, n) * ToSet(names)
  }

  lemma KidListed(children: map<string, seq<string>>, parents: Parents, names: seq<string>, c: string)
    requires ListsKidsAmong(children, parents, names) && c in parents && c !in names
    ensures ListsKidsAmong(
              if parents[c] == None then children
              else children[parents[c].value := Listed(children, parents[c].value) + [c]], parents, names + [c])
  {
    ToSetAppend(names, c);
    var next := if parents[c] == None then children
                else children[parents[c].value := Listed(children, parents[c].value) + [c]];
    forall n
      ensures Distinct(Listed(next, n)) && ToSet(Listed(next, n)) == KidsOf(parents, n) * ToSet(names + [c])
    {
      assert ToSet(Listed(children, n)) == KidsOf(parents, n) * ToSet(names);
      if parents[c] == Some(n) {
        assert c !in ToSet(Listed(children, n));
        DistinctAppend(Listed(children, n), c);
        ToSetAppend(Listed(children, n), c);
      }
    }
  }

  lemma AllListed(children: map<string, seq<string>>, parents: Parents, names: seq<string>)
    requires Lists(names, parents) && ListsKidsAmong(children, parents, names)
    ensures ListsKids(children, parents)
  {
    forall n
      ensures KidsOf(parents, n) * ToSet(names) == KidsOf(parents, n)
    {
    }
  }

  /** Deepest first: no node stands before one of its children. */
  ghost predicate ChildrenFirst(parents: Parents, order: seq<string>) {
    forall i, j :: 0 <= i < j < |order| ==> ParentOf(parents, order[j]) != Some(order[i])
  }

  predicate Deeper(depth: map<string, nat>, a: string, b: string) {
    (if a in depth then depth[a] else 0) >= (if b in depth then depth[b] else 0)
  }

  lemma OneMoreName(names: seq<string>, i: nat)
    requires i < |names|
    ensures names[i] in ToSet(names) && ToSet(names[..i + 1]) == ToSet(names[..i]) + {names[i]}
  {
    assert names[..i + 1] == names[..i] + [names[i]];
    ToSetAppend(names[..i], names[i]);
  }

  method MeasureDepths(parents: Parents, names: seq<string>) returns (depth: map<string, nat>)
    requires Lists(names, parents)
    ensures depth.Keys == ToSet(names)
    ensures Forest(parents) ==> DepthsRight(parents, depth)
  {
    depth := map[];
    for i := 0 to |names|
      invariant depth.Keys == ToSet(names[..i])
      invariant Forest(parents) ==> DepthsRight(parents, depth)
    {
      var n := names[i];
      OneMoreName(names, i);
      var d := Depth(parents, depth, n);
      depth := depth[n := d];
    }
    assert names[..|names|] == names;
  }

  /** `sorted(parents, key=depth, reverse=True)`. */
  method DeepestFirst(parents: Parents, names: seq<string>) returns (order: seq<string>)
    requires Lists(names, parents)
    ensures Lists(order, parents)
    ensures Forest(parents) ==> ChildrenFirst(parents, order)
  {
    var depth := MeasureDepths(parents, names);
    var le := (a: string, b: string) => Deeper(depth, a, b);
    order := SortBy(le, names);
    SortSorts(le, names);
    SameMembers(names, order);
    if Forest(parents) {
      DeepestIsFirst(parents, depth, le, order);
    }
  }

  lemma DeepestIsFirst(parents: Parents, depth: map<string, nat>, le: (string, string) -> bool, order: seq<string>)
    requires Forest(parents) && DepthsRight(parents, depth) && depth.Keys == ToSet(order)
    requires Sorted(le, order) && forall a, b :: le(a, b) == Deeper(depth, a, b)
    ensures ChildrenFirst(parents, order)
  {
    forall i, j | 0 <= i < j < |order|
      ensures ParentOf(parents, order[j]) != Some(order[i])
    {
      assert le(order[i], order[j]);
      assert order[i] in ToSet(order) && order[j] in ToSet(order);
    }
  }

  /** `sum(cum.get(c, 0.0) for c in kids)`. */
  method SumKids(ghost parents: Parents, n: string, kids: seq<string>, cum: map<string, real>) returns (mass: real)
    requires Distinct(kids) && ToSet(kids) == KidsOf(parents, n)
    requires forall k :: k in cum ==> cum[k] >= 0.0
    ensures mass == KidMass(parents, cum, n) && mass >= 0.0
  {
    var f := k => Get(cum, k);
    mass := SumSeq(seq(|kids|, j requires 0 <= j < |kids| => f(kids[j])));
    SumSeqIsSumSet(kids, f);
    SumSetNonNegative(KidsOf(parents, n), f);
    SumSetAgree(KidsOf(parents, n), f, k => Get(cum, k));
  }

  /** Adding a node whose parent is not there yet leaves every other balance as it was. */
  lemma AddNode(parents: Parents, own: map<string, real>, alpha: real, cum: map<string, real>, n: string)
    requires BalancedSoFar(parents, own, alpha, cum) && n !in cum
    requires n !in KidsOf(parents, n)
    requires forall m :: m in cum ==> n !in KidsOf(parents, m)
    ensures BalancedSoFar(parents, own, alpha, cum[n := Own(own, alpha, n) + KidMass(parents, cum, n)])
  {
    var next := cum[n := Own(own, alpha, n) + KidMass(parents, cum, n)];
    forall m | m in next
      ensures KidMass(parents, next, m) == KidMass(parents, cum, m)
    {
      SumSetAgree(KidsOf(parents, m), k => Get(next, k), k => Get(cum, k));
    }
  }

  lemma AddNth(parents: Parents, own: map<string, real>, alpha: real, cum: map<string, real>, order: seq<string>,
               i: nat)
    requires Forest(parents) && ChildrenFirst(parents, order) && i < |order| && order[i] !in order[..i]
    requires BalancedSoFar(parents, own, alpha, cum) && cum.Keys == ToSet(order[..i])
    ensures BalancedSoFar(parents, own, alpha,
                          cum[order[i] := Own(own, alpha, order[i]) + KidMass(parents, cum, order[i])])
  {
    forall m | m in order[..i + 1]
      ensures order[i] !in KidsOf(parents, m)
    {
      NotYet(parents, order, i, m);
    }
    assert order[..i + 1] == order[..i] + [order[i]];
    AddNode(parents, own, alpha, cum, order[i]);
  }

  ghost predicate SoFar(parents: Parents, own: map<string, real>, alpha: real, cum: map<string, real>,
                        order: seq<string>, i: nat)
    requires i <= |order|
  {
    && cum.Keys == ToSet(order[..i])
    && (forall n :: n in cum ==> cum[n] >= alpha)
    && (Forest(parents) && ChildrenFirst(parents, order) ==> BalancedSoFar(parents, own, alpha, cum))
  }

  method AccumulateAt(parents: Parents, own: map<string, real>, alpha: real, kids: seq<string>, order: seq<string>,
                      i: nat, cum: map<string, real>) returns (next: map<string, real>)
    requires alpha > 0.0 && i < |order| && Distinct(order)
    requires Distinct(kids) && ToSet(kids) == KidsOf(parents, order[i])
    requires SoFar(parents, own, alpha, cum, order, i)
    ensures SoFar(parents, own, alpha, next, order, i + 1)
  {
    var mass := SumKids(parents, order[i], kids, cum);
    next := cum[order[i] := Own(own, alpha, order[i]) + mass];
    AccumulateStep(parents, own, alpha, order, i, cum, mass);
  }

  lemma AccumulateStep(parents: Parents, own: map<string, real>, alpha: real, order: seq<string>, i: nat,
                       cum: map<string, real>, mass: real)
    requires alpha > 0.0 && i < |order| && Distinct(order) && SoFar(parents, own, alpha, cum, order, i)
    requires mass == KidMass(parents, cum, order[i]) && mass >= 0.0
    ensures SoFar(parents, own, alpha, cum[order[i] := Own(own, alpha, order[i]) + mass], order, i + 1)
  {
    KeysNext(own, alpha, cum, order, i, mass);
    if Forest(parents) && ChildrenFirst(parents, order) {
      AddNth(parents, own, alpha, cum, order, i);
    }
  }

  lemma KeysNext(own: map<string, real>, alpha: real, cum: map<string, real>, order: seq<string>, i: nat, mass: real)
    requires i < |order| && cum.Keys == ToSet(order[..i]) && mass >= 0.0
    requires forall n :: n in cum ==> cum[n] >= alpha
    ensures var next := cum[order[i] := Own(own, alpha, order[i]) + mass];
            next.Keys == ToSet(order[..i + 1]) && forall n :: n in next ==> next[n] >= alpha
  {
    assert order[..i + 1] == order[..i] + [order[i]];
    ToSetAppend(order[..i], order[i]);
  }

  method Accumulate(parents: Parents, own: map<string, real>, alpha: real, children: map<string, seq<string>>,
                    order: seq<string>) returns (cum: map<string, real>)
    requires alpha > 0.0 && Lists(order, parents) && ListsKids(children, parents)
    ensures cum.Keys == parents.Keys
    ensures forall n :: n in cum ==> cum[n] >= alpha
    ensures Forest(parents) && ChildrenFirst(parents, order) ==> Balanced(parents, own, alpha, cum)
  {
    cum := map[];
    for i := 0 to |order|
      invariant SoFar(parents, own, alpha, cum, order, i)
    {
      cum := AccumulateAt(parents, own, alpha, Listed(children, order[i]), order, i, cum);
    }
    assert order[..|order|] == order;
  }

  lemma NotYet(parents: Parents, order: seq<string>, i: nat, m: string)
    requires Forest(parents) && ChildrenFirst(parents, order) && i < |order| && m in order[..i + 1]
    ensures order[i] !in KidsOf(parents, m)
  {
    if order[i] in KidsOf(parents, m) {
      var j :| 0 <= j <= i && order[j] == m;
      if j == i {
        KidStep(parents, m);
        StepReaches(Tree(parents), m, m);
      }
    }
  }

  method SumRoots(parents: Parents, names: seq<string>, cum: map<string, real>) returns (total: real)
    requires Lists(names, parents)
    ensures total == SumSet(RootsOf(parents), k => Get(cum, k))
  {
    total := 0.0;
    ghost var f := k => Get(cum, k);
    ghost var roots: set<string> := {};
    for i := 0 to |names|
      invariant roots == RootsOf(parents) * ToSet(names[..i])
      invariant total == SumSet(roots, f)
    {
      var n := names[i];
      assert names[..i + 1] == names[..i] + [n] && n in ToSet(names) && n !in names[..i];
      if parents[n] == None {
        SumSetPick(roots + {n}, f, n);
        assert roots + {n} - {n} == roots;
        roots, total := roots + {n}, total + Get(cum, n);
      }
    }
    assert names[..|names|] == names;
    assert roots == RootsOf(parents);
    SumSetAgree(roots, f, k => Get(cum, k));
  }

  method ListNames(parents: Parents) returns (names: seq<string>)
    ensures Lists(names, parents)
  {
    names := [];
    var todo := parents.Keys;
    while todo != {}
      invariant todo <= parents.Keys && Distinct(names) && ToSet(names) == parents.Keys - todo
      decreases todo
    {
      var n :| n in todo;
      assert n !in ToSet(names);
      DistinctAppend(names, n);
      ToSetAppend(names, n);
      names, todo := names + [n], todo - {n};
    }
  }

  /** Where every mass is at least alpha, the roots have none exactly when there are no roots. */
  lemma RootsWeigh(parents: Parents, alpha: real, cum: map<string, real>)
    requires alpha > 0.0 && cum.Keys == parents.Keys && forall n :: n in cum ==> cum[n] >= alpha
    ensures SumSet(RootsOf(parents), k => Get(cum, k)) > 0.0 <==> exists n :: n in parents && parents[n] == None
    ensures SumSet(RootsOf(parents), k => Get(cum, k)) >= 0.0
  {
    var f, roots := k => Get(cum, k), RootsOf(parents);
    SumSetNonNegative(roots, f);
    if n :| n in parents && parents[n] == None {
      SumSetPick(roots, f, n);
      SumSetNonNegative(roots - {n}, f);
    } else {
      assert roots == {};
    }
    SumSetAgree(roots, f, k => Get(cum, k));
  }

  datatype Refusal = AlphaNotPositive | NoRoots

  /** On a forest every node is measured by the smoothed counts at and below it against all of them. */
  method SmoothIc(own: map<string, real>, parents: Parents, alpha: real, log: real -> real, sqrt: real -> real)
    returns (r: Result<map<string, (real, real)>, Refusal>)
    ensures alpha <= 0.0 <==> r == Err(AlphaNotPositive)
    ensures alpha > 0.0 ==> (r == Err(NoRoots) <==> forall n :: n in parents ==> parents[n].Some?)
    ensures Forest(parents) && alpha > 0.0 ==> (r == Err(NoRoots) <==> parents == map[])
    ensures r.Ok? ==> r.value.Keys == parents.Keys
    ensures r.Ok? && Forest(parents) ==> forall n :: n in parents ==>
              && MassOf(own, alpha, Subtree(parents, n)) >= alpha && MassOf(own, alpha, parents.Keys) > 0.0
              && r.value[n] ==
                 Measure(log, sqrt, MassOf(own, alpha, Subtree(parents, n)), MassOf(own, alpha, parents.Keys))
    ensures r.Ok? && Forest(parents) && IsSqrt(sqrt) ==> forall n :: n in parents ==>
              Measured(own, parents, alpha, log, n, r.value[n])
  {
    if alpha <= 0.0 {
      return Err(AlphaNotPositive);
    }
    var names := ListNames(parents);
    var children := IndexChildren(parents, names);
    var order := DeepestFirst(parents, names);
    var cum := Accumulate(parents, own, alpha, children, order);
    var total := SumRoots(parents, names, cum);
    RootsWeigh(parents, alpha, cum);
    if Forest(parents) {
      CumIsMass(parents, own, alpha, cum);
    }
    if total <= 0.0 {
      return Err(NoRoots);
    }
    r := Ok(map n | n in cum :: Measure(log, sqrt, cum[n], total));
    if Forest(parents) && IsSqrt(sqrt) {
      forall n | n in parents
        ensures Measured(own, parents, alpha, log, n, r.value[n])
      {
        NodeMeasured(own, parents, alpha, log, sqrt, n);
      }
    }
  }

  /** The measure of a node is that of its subtree's mass in the whole. */
  ghost predicate Measured(own: map<string, real>, parents: Parents, alpha: real, log: real -> real, n: string,
                           m: (real, real)) {
    var total := MassOf(own, alpha, parents.Keys);
    total > 0.0 && Says(log, m, MassOf(own, alpha, Subtree(parents, n)), total)
  }

  lemma NodeMeasured(own: map<string, real>, parents: Parents, alpha: real, log: real -> real, sqrt: real -> real,
                     n: string)
    requires IsSqrt(sqrt) && alpha > 0.0 && Forest(parents) && n in parents
    requires MassOf(own, alpha, Subtree(parents, n)) >= alpha && MassOf(own, alpha, parents.Keys) > 0.0
    ensures Measured(own, parents, alpha, log, n,
                     Measure(log, sqrt, MassOf(own, alpha, Subtree(parents, n)), MassOf(own, alpha, parents.Keys)))
  {
    assert Subtree(parents, n) <= parents.Keys;
    MassGrows(own, alpha, Subtree(parents, n), parents.Keys);
    MeasureSays(log, sqrt, MassOf(own, alpha, Subtree(parents, n)), MassOf(own, alpha, parents.Keys));
  }

  /** The count seen at a name, none being negative. */
  ghost function Seen(own: map<string, real>): string -> real {
    n => if n in own && own[n] > 0.0 then own[n] else 0.0
  }

  /** A mass is what was counted, and alpha for each name, counted or not. */
  lemma MassIsCounts(own: map<string, real>, alpha: real, s: set<string>) returns (n: nat)
    ensures n == |s| && MassOf(own, alpha, s) == SumSet(s, Seen(own)) + n as real * alpha
  {
    var f := OwnOf(own, alpha, s);
    var g := Seen(own);
    OwnShifts(own, alpha, f, g);
    n := SumShifted(s, f, g, alpha);
  }

  lemma OwnOf(own: map<string, real>, alpha: real, s: set<string>) returns (f: string -> real)
    ensures forall k :: f(k) == Own(own, alpha, k)
    ensures MassOf(own, alpha, s) == SumSet(s, f)
  {
    f := k => Own(own, alpha, k);
    SumSetAgree(s, f, k => Own(own, alpha, k));
  }

  lemma OwnShifts(own: map<string, real>, alpha: real, f: string -> real, g: string -> real)
    requires (forall k :: f(k) == Own(own, alpha, k)) && g == Seen(own)
    ensures forall k :: f(k) == g(k) + alpha
  {
  }

  /** `n` and the product are handed back by name. */
  lemma {:induction false} SumShifted(s: set<string>, f: string -> real, g: string -> real, alpha: real)
    returns (n: nat)
    requires forall k :: f(k) == g(k) + alpha
    ensures n == |s| && SumSet(s, f) == SumSet(s, g) + n as real * alpha
    decreases s
  {
    if s == {} {
      n := 0;
    } else {
      var x :| x in s;
      var m := SumShifted(s - {x}, f, g, alpha);
      n := m + 1;
      SumSetPick(s, f, x);
      SumSetPick(s, g, x);
      ShiftOne(m, alpha, SumSet(s - {x}, f), SumSet(s - {x}, g), f(x), g(x));
    }
  }

  lemma ShiftOne(m: nat, alpha: real, restF: real, restG: real, x: real, y: real)
    requires restF == restG + m as real * alpha && x == y + alpha
    ensures x + restF == y + restG + (m + 1) as real * alpha
  {
    assert (m + 1) as real * alpha == m as real * alpha + alpha;
  }

  lemma CumIsMass(parents: Parents, own: map<string, real>, alpha: real, cum: map<string, real>)
    requires alpha > 0.0 && Forest(parents) && Balanced(parents, own, alpha, cum)
    ensures forall n :: n in parents ==> cum[n] == MassOf(own, alpha, Subtree(parents, n)) >= alpha
    ensures SumSet(RootsOf(parents), k => Get(cum, k)) == MassOf(own, alpha, parents.Keys)
    ensures MassOf(own, alpha, parents.Keys) > 0.0 <==> parents != map[]
  {
    var put, carried := k => Own(own, alpha, k), k => Get(cum, k);
    forall n | n in parents
      ensures cum[n] == MassOf(own, alpha, Subtree(parents, n)) >= alpha
    {
      MassIsSubtree(parents, own, alpha, cum, n, put);
      SumSetAgree(Subtree(parents, n), put, k => Own(own, alpha, k));
      MassGrows(own, alpha, Subtree(parents, n), Subtree(parents, n));
    }
    RootsCarryAll(parents, own, alpha, cum, carried, put);
    SumSetAgree(RootsOf(parents), carried, k => Get(cum, k));
    SumSetAgree(parents.Keys, put, k => Own(own, alpha, k));
    MassGrows(own, alpha, parents.Keys, parents.Keys);
    assert parents.Keys == {} <==> parents == map[];
  }

  /** What the smoothed measure promises of a parent and its child. */
  lemma ChildOutranksParent(own: map<string, real>, parents: Parents, alpha: real, log: real -> real,
                            sqrt: real -> real, child: string)
    requires IsLog(log) && IsSqrt(sqrt) && alpha > 0.0 && Forest(parents)
    requires child in parents && parents[child].Some?
    ensures var c := MassOf(own, alpha, Subtree(parents, child));
            var p := MassOf(own, alpha, Subtree(parents, parents[child].value));
            var total := MassOf(own, alpha, parents.Keys);
            && 0.0 < c <= p - alpha && p <= total
            && 0.0 <= Measure(log, sqrt, p, total).0 < Measure(log, sqrt, c, total).0
            && Measure(log, sqrt, p, total).1 < Measure(log, sqrt, c, total).1
  {
    var q := parents[child].value;
    SubtreesNest(parents, child);
    MassGrows(own, alpha, Subtree(parents, child), Subtree(parents, q));
    MassGrows(own, alpha, Subtree(parents, q), parents.Keys);
    MeasureFalls(log, sqrt, MassOf(own, alpha, Subtree(parents, child)), MassOf(own, alpha, Subtree(parents, q)),
                 MassOf(own, alpha, parents.Keys));
  }

  lemma NotBelowChild(g: Graph, child: string, q: string)
    requires Acyclic(g) && Step(g, child, q)
    ensures q != child && q !in Below(g, child)
  {
    StepReaches(g, child, q);
    if q in Below(g, child) {
      ReachesTrans(g, child, q, child);
    }
  }

  lemma SubtreesNest(parents: Parents, child: string)
    requires Forest(parents) && child in parents && parents[child].Some?
    ensures {} != Subtree(parents, child) < Subtree(parents, parents[child].value) <= parents.Keys
  {
    var g, q := Tree(parents), parents[child].value;
    KidStep(parents, child);
    BelowGrows(g, child, q);
    NotBelowChild(g, child, q);
    assert Subtree(parents, child) <= Subtree(parents, q);
    assert q !in Subtree(parents, child) && q in Subtree(parents, q);
  }

  /** A node is at content zero exactly when everything lies at or below it: when it is the only root. */
  lemma ZeroContentIsOnlyRoot(own: map<string, real>, parents: Parents, alpha: real, log: real -> real,
                              sqrt: real -> real, n: string)
    requires IsLog(log) && IsSqrt(sqrt) && alpha > 0.0 && Forest(parents) && n in parents
    ensures var c, total := MassOf(own, alpha, Subtree(parents, n)), MassOf(own, alpha, parents.Keys);
            0.0 < c <= total && (Measure(log, sqrt, c, total).0 == 0.0 <==> Subtree(parents, n) == parents.Keys)
  {
    var s := Subtree(parents, n);
    assert s <= parents.Keys;
    MassGrows(own, alpha, s, parents.Keys);
    MeasureZero(log, sqrt, MassOf(own, alpha, s), MassOf(own, alpha, parents.Keys));
  }

  lemma MeasureZero(log: real -> real, sqrt: real -> real, c: real, total: real)
    requires IsLog(log) && IsSqrt(sqrt) && 0.0 < c <= total
    ensures Measure(log, sqrt, c, total).0 == 0.0 <==> c == total
  {
    if c < total {
      MeasureFalls(log, sqrt, c, total, total);
    } else {
      assert c / total == 1.0;
    }
  }
}
