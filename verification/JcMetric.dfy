/** Jiang-Conrath as a metric on the tree, and against the many-parent form. */
module JcMetric {
  import opened Outcomes
  import opened Sums
  import opened Graphs
  import opened Reals
  import opened Geometry
  import opened JiangConrath
  import opened IntrinsicIc
  import S = SmoothIc

  // ---- lines: the climbs of an acyclic ontology, and where two of them meet ----

  /** The nodes on the climb from `s`. */
  ghost function Line(o: Ontology, s: string): (line: set<string>)
    requires s in o && Acyclic(Up(o))
    ensures forall k :: k in line ==> k in o
    decreases |Above(Up(o), s)|
  {
    var p := CanonicalParent(o, s);
    if p == None then {s}
    else
      AboveShrinks(Up(o), s, p.value);
      {s} + Line(o, p.value)
  }

  lemma {:induction false} LineIsClimb(o: Ontology, s: string, k: string)
    requires s in o && Acyclic(Up(o))
    ensures k in Line(o, s) <==> k in Climb(o, s)
    decreases |Above(Up(o), s)|
  {
    var p := CanonicalParent(o, s);
    if p.Some? {
      AboveShrinks(Up(o), s, p.value);
      LineIsClimb(o, p.value, k);
    }
  }

  lemma LineSplits(o: Ontology, s: string)
    requires s in o && Forestlike(o)
    ensures CanonicalParent(o, s) == None ==> Line(o, s) == {s}
    ensures CanonicalParent(o, s).Some? ==>
              Line(o, s) == {s} + Line(o, CanonicalParent(o, s).value) && s !in Line(o, CanonicalParent(o, s).value)
  {
    var p := CanonicalParent(o, s);
    if p.Some? {
      AboveShrinks(Up(o), s, p.value);
      StepReaches(Up(o), s, p.value);
      LineIsClimb(o, p.value, s);
      if s in Climb(o, p.value) {
        ClimbMembers(o, p.value, s);
      }
    }
  }

  ghost predicate UpClosed(o: Ontology, S: set<string>) {
    forall k :: k in S && k in o && CanonicalParent(o, k).Some? ==> CanonicalParent(o, k).value in S
  }

  lemma {:induction false} LineInside(o: Ontology, s: string, S: set<string>)
    requires s in o && Forestlike(o) && UpClosed(o, S) && s in S
    ensures Line(o, s) <= S
    decreases |Above(Up(o), s)|
  {
    LineSplits(o, s);
    var p := CanonicalParent(o, s);
    if p.Some? {
      AboveShrinks(Up(o), s, p.value);
      LineInside(o, p.value, S);
    }
  }

  lemma {:induction false} LineUpClosed(o: Ontology, s: string)
    requires s in o && Forestlike(o)
    ensures UpClosed(o, Line(o, s))
    decreases |Above(Up(o), s)|
  {
    LineSplits(o, s);
    var p := CanonicalParent(o, s);
    if p.Some? {
      AboveShrinks(Up(o), s, p.value);
      LineUpClosed(o, p.value);
      LineSplits(o, p.value);
    }
  }

  /** The first node of `s`'s climb inside an upward-closed set lies below every other such node. */
  lemma {:induction false} MeetIsLowest(o: Ontology, s: string, S: set<string>)
    requires s in o && Forestlike(o) && UpClosed(o, S)
    ensures var m := FirstShared(o, Climb(o, s), S);
            && (m == None ==> Line(o, s) !! S)
            && (m.Some? ==> m.value in o && m.value in Line(o, s) && m.value in S)
            && (m.Some? ==> forall k :: k in Line(o, s) && k in S ==> k in Line(o, m.value))
    decreases |Above(Up(o), s)|
  {
    var path, p := Climb(o, s), CanonicalParent(o, s);
    if s !in S && p.Some? {
      AboveShrinks(Up(o), s, p.value);
      assert path[1..] == Climb(o, p.value);
      MeetIsLowest(o, p.value, S);
    }
  }

  lemma LineAntisym(o: Ontology, j: string, k: string)
    requires j in o && k in o && Forestlike(o)
    requires j in Line(o, k) && k in Line(o, j)
    ensures j == k
  {
    LineIsClimb(o, k, j);
    LineIsClimb(o, j, k);
    ClimbMembers(o, k, j);
    ClimbMembers(o, j, k);
    if j != k {
      ReachesTrans(Up(o), j, k, j);
    }
  }

  lemma LcsIsFirstShared(o: Ontology, a: string, b: string)
    requires a in o && b in o && Forestlike(o)
    ensures TreeLcs(o, a, b) == FirstShared(o, Climb(o, a), Line(o, b))
  {
    TreePathIsClimb(o, a);
    TreePathIsClimb(o, b);
    forall k
      ensures k in PathNames(o, Climb(o, b)) <==> k in Line(o, b)
    {
      LineIsClimb(o, b, k);
    }
    assert PathNames(o, Climb(o, b)) == Line(o, b);
  }

  /** The least common subsumer: on both lines, below all other shared nodes, and the same from either side. */
  lemma LcsIsLowest(o: Ontology, a: string, b: string)
    requires a in o && b in o && Forestlike(o)
    ensures TreeLcs(o, a, b) == FirstShared(o, Climb(o, a), Line(o, b))
    ensures TreeLcs(o, a, b) == None <==> Line(o, a) !! Line(o, b)
    ensures TreeLcs(o, a, b).Some? ==>
              var m := TreeLcs(o, a, b).value;
              && m in o && m in Line(o, a) && m in Line(o, b)
              && forall k :: k in Line(o, a) && k in Line(o, b) ==> k in Line(o, m)
    ensures TreeLcs(o, b, a) == TreeLcs(o, a, b)
  {
    LcsIsFirstShared(o, a, b);
    LcsIsFirstShared(o, b, a);
    LineUpClosed(o, a);
    LineUpClosed(o, b);
    MeetIsLowest(o, a, Line(o, b));
    MeetIsLowest(o, b, Line(o, a));
    var m, n := TreeLcs(o, a, b), TreeLcs(o, b, a);
    if m.Some? && n.Some? {
      LineAntisym(o, m.value, n.value);
    }
  }

  // ---- content along a line ----

  lemma {:induction false} ContentFallsUpLine(o: Ontology, s: string, k: string)
    requires s in o && Forestlike(o) && Monotone(o) && k in Line(o, s)
    ensures k in o && IcOf(o, k) <= IcOf(o, s)
    decreases |Above(Up(o), s)|
  {
    var p := CanonicalParent(o, s);
    if k != s {
      AboveShrinks(Up(o), s, p.value);
      ContentFallsUpLine(o, p.value, k);
      assert !Falls(o, s);
    }
  }

  /** Every climb ends at `r`. */
  ghost predicate SingleRoot(o: Ontology, r: string) {
    Forestlike(o) && forall s :: s in o ==> r in Line(o, s)
  }

  lemma SharedContentBelowMeet(o: Ontology, a: string, b: string, k: string)
    requires a in o && b in o && Forestlike(o) && Monotone(o)
    requires k in Line(o, a) && k in Line(o, b)
    ensures k in o && TreeLcs(o, a, b).Some? && IcOf(o, k) <= TreeLcsIc(o, a, b)
  {
    LcsIsLowest(o, a, b);
    ContentFallsUpLine(o, TreeLcs(o, a, b).value, k);
  }

  /** Of two nodes on one line, one is on the other's line. */
  lemma {:induction false} LineIsChain(o: Ontology, s: string, j: string, k: string)
    requires s in o && Forestlike(o) && j in Line(o, s) && k in Line(o, s)
    ensures j in Line(o, k) || k in Line(o, j)
    decreases |Above(Up(o), s)|
  {
    var p := CanonicalParent(o, s);
    if j != s && k != s {
      AboveShrinks(Up(o), s, p.value);
      LineIsChain(o, p.value, j, k);
    }
  }

  lemma LineTrans(o: Ontology, j: string, k: string, s: string)
    requires s in o && Forestlike(o) && k in Line(o, s) && j in Line(o, k)
    ensures j in Line(o, s)
  {
    LineUpClosed(o, s);
    LineInside(o, k, Line(o, s));
  }

  /** On a single-rooted monotone tree the distance is symmetric, non-negative, zero from a node to itself,
      and obeys the triangle inequality. */
  lemma JcTreeIsMetric(o: Ontology, r: string, a: string, b: string, c: string)
    requires SingleRoot(o, r) && Monotone(o)
    requires a in o && b in o && c in o
    ensures JcTree(o, a, b) == JcTree(o, b, a)
    ensures JcTree(o, a, b) >= 0.0
    ensures JcTree(o, a, a) == 0.0
    ensures JcTree(o, a, c) <= JcTree(o, a, b) + JcTree(o, b, c)
  {
    LcsIsLowest(o, a, b);
    SharedContentBelowMeet(o, a, b, r);
    ContentFallsUpLine(o, a, TreeLcs(o, a, b).value);
    ContentFallsUpLine(o, b, TreeLcs(o, a, b).value);
    SelfMeet(o, a);
    MeetsCompare(o, r, a, b, c);
  }

  /** Of three synsets on one tree, two meet no higher than either meets the third, by way of the third. */
  lemma MeetsCompare(o: Ontology, r: string, a: string, b: string, c: string)
    requires SingleRoot(o, r) && Monotone(o)
    requires a in o && b in o && c in o
    ensures TreeLcsIc(o, a, b) + TreeLcsIc(o, b, c) <= TreeLcsIc(o, a, c) + IcOf(o, b)
  {
    LcsIsLowest(o, a, b);
    LcsIsLowest(o, b, c);
    SharedContentBelowMeet(o, a, b, r);
    SharedContentBelowMeet(o, b, c, r);
    var m, n := TreeLcs(o, a, b).value, TreeLcs(o, b, c).value;
    ContentFallsUpLine(o, b, m);
    ContentFallsUpLine(o, b, n);
    LineIsChain(o, b, m, n);
    if m in Line(o, n) {
      LineTrans(o, m, n, c);
      SharedContentBelowMeet(o, a, c, m);
    } else {
      LineTrans(o, n, m, a);
      SharedContentBelowMeet(o, a, c, n);
    }
  }

  lemma SelfMeet(o: Ontology, a: string)
    requires a in o && Forestlike(o)
    ensures TreeLcs(o, a, a) == Some(a)
  {
    LcsIsFirstShared(o, a, a);
  }

  // ---- jc_exact: the most informative of all common ancestors ----

  ghost function ClosureOf(o: Ontology, s: string): set<string> {
    {s} + Above(Up(o), s)
  }

  lemma ClosureClimbs(o: Ontology, s: string, k: string)
    requires s in o && k in ClosureOf(o, s)
    ensures k in o && forall p :: p in Parents(o, k) ==> p in ClosureOf(o, s)
  {
    if k != s {
      ReachesKeys(Up(o), s, k);
    }
    forall p | p in Parents(o, k)
      ensures p in ClosureOf(o, s)
    {
      StepReaches(Up(o), k, p);
      if k != s {
        ReachesTrans(Up(o), s, k, p);
      }
    }
  }

  /** `_closure`: the synset and everything above it, by a worklist over resolved parents. */
  method Closure(o: Ontology, s: string) returns (seen: set<string>)
    requires s in o
    ensures seen == ClosureOf(o, s)
  {
    seen := {};
    var stack := [s];
    while stack != []
      invariant forall k :: k in stack ==> k in ClosureOf(o, s)
      invariant seen <= ClosureOf(o, s)
      invariant s in seen || s in stack
      invariant forall j, k :: j in seen && Step(Up(o), j, k) ==> k in seen || k in stack
      decreases ClosureOf(o, s) - seen, |stack|
    {
      var k, rest := stack[|stack| - 1], stack[..|stack| - 1];
      assert stack == rest + [k];
      stack := rest;
      if k in seen {
        continue;
      }
      seen := seen + {k};
      ClosureClimbs(o, s, k);
      stack := stack + Parents(o, k);
    }
    forall k | k in Above(Up(o), s)
      ensures k in seen
    {
      var n: nat :| n > 0 && ReachesIn(Up(o), s, k, n);
      ClosedContains(Up(o), seen, s, k, n);
    }
  }

  /** `max(..., default=0.0)` over the common ancestors. */
  ghost predicate IsBestCommon(o: Ontology, a: string, b: string, best: real)
    requires a in o && b in o
  {
    var commons := ClosureOf(o, a) * ClosureOf(o, b);
    && (commons == {} ==> best == 0.0)
    && (commons != {} ==> exists k :: k in commons && k in o && best == IcOf(o, k))
    && forall k :: k in commons && k in o ==> IcOf(o, k) <= best
  }

  method JcExact(o: Ontology, a: string, b: string) returns (jc: real)
    requires a in o && b in o
    ensures exists best :: IsBestCommon(o, a, b, best) && jc == IcOf(o, a) + IcOf(o, b) - 2.0 * best
  {
    var ca := Closure(o, a);
    var cb := Closure(o, b);
    var commons := ca * cb;
    forall k | k in commons
      ensures k in o
    {
      if k != a {
        ReachesKeys(Up(o), a, k);
      }
    }
    var best := 0.0;
    var todo := commons;
    while todo != {}
      invariant todo <= commons
      invariant todo == commons ==> best == 0.0
      invariant todo != commons ==> exists k :: k in commons && best == IcOf(o, k)
      invariant forall k :: k in commons - todo ==> IcOf(o, k) <= best
      decreases todo
    {
      var k :| k in todo;
      if todo == commons || IcOf(o, k) > best {
        best := IcOf(o, k);
      }
      todo := todo - {k};
      assert k in commons && k !in todo;
    }
    assert IsBestCommon(o, a, b, best);
    jc := IcOf(o, a) + IcOf(o, b) - 2.0 * best;
  }

  ghost predicate OneParent(o: Ontology) {
    forall k, p, q :: Step(Up(o), k, p) && Step(Up(o), k, q) ==> p == q
  }

  lemma LineInClosure(o: Ontology, s: string, k: string)
    requires s in o && Forestlike(o) && k in Line(o, s)
    ensures k in ClosureOf(o, s)
  {
    LineIsClimb(o, s, k);
    ClimbMembers(o, s, k);
  }

  lemma {:induction false} ClosureInLine(o: Ontology, s: string, k: string, n: nat)
    requires s in o && Forestlike(o) && OneParent(o) && ReachesIn(Up(o), s, k, n)
    ensures k in Line(o, s)
    decreases n
  {
    if n > 0 {
      var m :| Step(Up(o), s, m) && ReachesIn(Up(o), m, k, n - 1);
      ClosureInLine(o, m, k, n - 1);
      assert m in Parents(o, s);
      AboveShrinks(Up(o), s, m);
    }
  }

  /** Allowing every path up never lengthens the distance; with one parent each it changes nothing. */
  lemma JcExactAgainstTree(o: Ontology, a: string, b: string, best: real)
    requires a in o && b in o && Forestlike(o) && IsBestCommon(o, a, b, best)
    requires forall k :: k in o ==> IcOf(o, k) >= 0.0
    ensures IcOf(o, a) + IcOf(o, b) - 2.0 * best <= JcTree(o, a, b)
    ensures OneParent(o) && Monotone(o) ==> IcOf(o, a) + IcOf(o, b) - 2.0 * best == JcTree(o, a, b)
  {
    LcsIsLowest(o, a, b);
    var m := TreeLcs(o, a, b);
    if m.Some? {
      LineInClosure(o, a, m.value);
      LineInClosure(o, b, m.value);
      assert m.value in ClosureOf(o, a) * ClosureOf(o, b);
    }
    if OneParent(o) && Monotone(o) && ClosureOf(o, a) * ClosureOf(o, b) != {} {
      var k :| k in ClosureOf(o, a) * ClosureOf(o, b) && k in o && best == IcOf(o, k);
      ReachableOnLine(o, a, k);
      ReachableOnLine(o, b, k);
      SharedContentBelowMeet(o, a, b, k);
    }
  }

  lemma ReachableOnLine(o: Ontology, s: string, k: string)
    requires s in o && Forestlike(o) && OneParent(o) && k in ClosureOf(o, s)
    ensures k in Line(o, s)
  {
    if k != s {
      var n: nat :| n > 0 && ReachesIn(Up(o), s, k, n);
      ClosureInLine(o, s, k, n);
    }
  }

  // ---- the whole chain: intrinsic content, counted off an acyclic graph, makes the coordinate exact ----

  ghost predicate Measured(o: Ontology, log: real -> real) {
    IsLog(log) && forall k :: k in o ==>
      log(|o| as real + 1.0) > 0.0 && o[k].ic == Some(Intrinsic(log, |Below(Up(o), k)|, |o|))
  }

  /**
   * On any ontology, cycles or not, the measure never rises on the way up; where there are no cycles it falls on
   * every link.
   */
  lemma MeasuredIsMonotone(o: Ontology, log: real -> real)
    requires Measured(o, log)
    ensures Monotone(o)
    ensures Acyclic(Up(o)) ==> forall k, p :: Step(Up(o), k, p) ==> IcOf(o, p) < IcOf(o, k)
    ensures forall k :: k in o ==> 0.0 <= IcOf(o, k) <= 1.0
  {
    assert |Up(o)| == |o| by {
      assert Up(o).Keys == o.Keys;
    }
    forall k, p | Step(Up(o), k, p)
      ensures IcOf(o, p) <= IcOf(o, k) && (Acyclic(Up(o)) ==> IcOf(o, p) < IcOf(o, k))
    {
      IcFallsUpward(Up(o), log, k, p);
    }
    forall k | k in o
      ensures 0.0 <= IcOf(o, k) <= 1.0
    {
      BelowFits(Up(o), k);
      IntrinsicRange(log, |Below(Up(o), k)|, |o|);
    }
  }

  /** The documented claim, with its hypotheses discharged: any two synsets of a corpus that carries its intrinsic
      measure and that share a tree ancestor are exactly `jc_tree` apart, even if the corpus has cycles. */
  lemma IntrinsicCoordinateIsExact(o: Ontology, log: real -> real, sqrt: real -> real, a: string, b: string)
    requires a in o && b in o && Registry(o) && Measured(o, log) && IsSqrt(sqrt)
    ensures SqDist(SparseVec(o, sqrt, a), SparseVec(o, sqrt, b)) == JcMeeting(o, a, b)
    ensures TreeLcs(o, a, b).Some? ==> SqDist(SparseVec(o, sqrt, a), SparseVec(o, sqrt, b)) == JcTree(o, a, b)
  {
    MeasuredIsMonotone(o, log);
    MonotoneIsExact(o, sqrt, a, b);
  }

  /** `parents` is the tree the ontology's canonical parents induce, and its smoothed measure is what is stored. */
  ghost predicate Smoothed(o: Ontology, own: map<string, real>, parents: S.Parents, alpha: real,
                           log: real -> real, sqrt: real -> real) {
    && S.Forest(parents) && alpha > 0.0 && parents.Keys == o.Keys
    && forall k :: k in o ==>
         var c, total := S.MassOf(own, alpha, S.Subtree(parents, k)), S.MassOf(own, alpha, parents.Keys);
         && parents[k] == CanonicalParent(o, k)
         && c > 0.0 && total > 0.0 && o[k].ic == Some(S.Measure(log, sqrt, c, total).0)
  }

  lemma SmoothedNeverFalls(o: Ontology, own: map<string, real>, parents: S.Parents, alpha: real,
                           log: real -> real, sqrt: real -> real, k: string)
    requires k in o && IsLog(log) && IsSqrt(sqrt) && Smoothed(o, own, parents, alpha, log, sqrt)
    ensures !Falls(o, k)
  {
    if CanonicalParent(o, k).Some? {
      S.ChildOutranksParent(own, parents, alpha, log, sqrt, k);
    }
  }

  lemma SmoothedIsMonotone(o: Ontology, own: map<string, real>, parents: S.Parents, alpha: real,
                           log: real -> real, sqrt: real -> real)
    requires IsLog(log) && IsSqrt(sqrt) && Smoothed(o, own, parents, alpha, log, sqrt)
    ensures Monotone(o)
  {
    forall k | k in o
      ensures !Falls(o, k)
    {
      SmoothedNeverFalls(o, own, parents, alpha, log, sqrt, k);
    }
  }

  lemma SmoothedCoordinateIsExact(o: Ontology, own: map<string, real>, parents: S.Parents, alpha: real,
                                  log: real -> real, sqrt: real -> real, a: string, b: string)
    requires a in o && b in o && Registry(o) && IsLog(log) && IsSqrt(sqrt)
    requires Smoothed(o, own, parents, alpha, log, sqrt)
    ensures SqDist(SparseVec(o, sqrt, a), SparseVec(o, sqrt, b)) == JcMeeting(o, a, b)
  {
    SmoothedIsMonotone(o, own, parents, alpha, log, sqrt);
    MonotoneIsExact(o, sqrt, a, b);
  }

  lemma SqDistNonNegative(u: map<string, real>, v: map<string, real>)
    ensures SqDist(u, v) >= 0.0
  {
    SumSetNonNegative(u.Keys + v.Keys, k => SqDiff(u, v, k));
  }

  /** Without acyclicity the claim fails: two synsets above each other, `a` measured higher than `b`. */
  lemma CycleBreaksExactness(sqrt: real -> real)
    ensures var o: Ontology := map["a" := Node("a", ["b"], [], Some(1.0)), "b" := Node("b", ["a"], [], Some(0.0))];
            && Registry(o)
            && TreeLcs(o, "a", "b") == Some("a")
            && SqDist(SparseVec(o, sqrt, "a"), SparseVec(o, sqrt, "b")) > JcTree(o, "a", "b")
  {
    var o: Ontology := map["a" := Node("a", ["b"], [], Some(1.0)), "b" := Node("b", ["a"], [], Some(0.0))];
    assert o["a"].hyper + o["a"].inst == ["b"] && o["b"].hyper + o["b"].inst == ["a"];
    assert Held(o, ["b"]) == ["b"] && Held(o, ["a"]) == ["a"];
    assert TreePath(o, "b")[0] == "b" && "a" in TreePath(o, "b");
    assert TreePath(o, "a")[0] == "a";
    SqDistNonNegative(SparseVec(o, sqrt, "a"), SparseVec(o, sqrt, "b"));
  }
}
