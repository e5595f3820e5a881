/** Is-a graphs: each node lists the nodes directly above it; a listed node may be absent from the graph. */
module Graphs {

  type Graph = map<string, seq<string>>

  predicate Step(g: Graph, a: string, b: string) {
    a in g && b in g && b in g[a]
  }

  ghost predicate ReachesIn(g: Graph, a: string, b: string, k: nat)
    decreases k
  {
    if k == 0 then a == b else exists m :: Step(g, a, m) && ReachesIn(g, m, b, k - 1)
  }

  /** `b` is reached from `a` by one link or more. */
  ghost predicate Reaches(g: Graph, a: string, b: string) {
    exists k: nat :: k > 0 && ReachesIn(g, a, b, k)
  }

  ghost predicate Acyclic(g: Graph) {
    forall a :: a in g ==> !Reaches(g, a, a)
  }

  lemma {:induction false} ReachesInTrans(g: Graph, a: string, b: string, c: string, j: nat, k: nat)
    requires ReachesIn(g, a, b, j) && ReachesIn(g, b, c, k)
    ensures ReachesIn(g, a, c, j + k)
    decreases j
  {
    if j > 0 {
      var m :| Step(g, a, m) && ReachesIn(g, m, b, j - 1);
      ReachesInTrans(g, m, b, c, j - 1, k);
      assert ReachesIn(g, m, c, j + k - 1);
    }
  }

  lemma ReachesTrans(g: Graph, a: string, b: string, c: string)
    requires Reaches(g, a, b) && Reaches(g, b, c)
    ensures Reaches(g, a, c)
  {
    var j: nat :| j > 0 && ReachesIn(g, a, b, j);
    var k: nat :| k > 0 && ReachesIn(g, b, c, k);
    ReachesInTrans(g, a, b, c, j, k);
  }

  lemma StepReaches(g: Graph, a: string, b: string)
    requires Step(g, a, b)
    ensures Reaches(g, a, b)
  {
    assert ReachesIn(g, b, b, 0);
    assert ReachesIn(g, a, b, 1);
  }

  ghost predicate ClosedUp(g: Graph, s: set<string>) {
    forall a, b :: a in s && Step(g, a, b) ==> b in s
  }

  /** What a worklist has closed off contains everything reachable from what it started with. */
  lemma {:induction false} ClosedContains(g: Graph, s: set<string>, a: string, b: string, k: nat)
    requires ClosedUp(g, s)
    requires forall m :: Step(g, a, m) ==> m in s
    requires k > 0 && ReachesIn(g, a, b, k)
    ensures b in s
    decreases k
  {
    var m :| Step(g, a, m) && ReachesIn(g, m, b, k - 1);
    if k > 1 {
      ClosedContains(g, s, m, b, k - 1);
    }
  }

  lemma ReachesKeys(g: Graph, a: string, b: string)
    requires Reaches(g, a, b)
    ensures a in g && b in g
  {
    var k: nat :| k > 0 && ReachesIn(g, a, b, k);
    var m :| Step(g, a, m) && ReachesIn(g, m, b, k - 1);
    ReachesInEnd(g, m, b, k - 1);
  }

  lemma {:induction false} ReachesInEnd(g: Graph, a: string, b: string, k: nat)
    requires a in g && ReachesIn(g, a, b, k)
    ensures b in g
    decreases k
  {
    if k > 0 {
      var m :| Step(g, a, m) && ReachesIn(g, m, b, k - 1);
      ReachesInEnd(g, m, b, k - 1);
    }
  }

  /** Everything strictly above `a`. */
  ghost function Above(g: Graph, a: string): set<string> {
    set b | b in g && Reaches(g, a, b)
  }

  /** Everything strictly below `a`. */
  ghost function Below(g: Graph, a: string): set<string> {
    set b | b in g && Reaches(g, b, a)
  }

  lemma SubsetSize<T>(s: set<T>, t: set<T>)
    requires s <= t
    ensures |s| <= |t|
    ensures |s| == |t| ==> s == t
  {
    assert t == s + (t - s);
  }

  /** On an acyclic graph the number of nodes above falls along every link, so climbing ends. */
  lemma AboveShrinks(g: Graph, a: string, b: string)
    requires Acyclic(g) && Step(g, a, b)
    ensures Above(g, b) < Above(g, a)
    ensures |Above(g, b)| < |Above(g, a)|
  {
    StepReaches(g, a, b);
    forall c | c in Above(g, b)
      ensures c in Above(g, a)
    {
      ReachesTrans(g, a, b, c);
    }
    assert b in Above(g, a) && b !in Above(g, b);
    SubsetSize(Above(g, b), Above(g, a));
  }

  /** Along a link from `a` up to `b`, what lies below only grows. */
  lemma BelowGrows(g: Graph, a: string, b: string)
    requires Step(g, a, b)
    ensures Below(g, a) <= Below(g, b) && a in Below(g, b)
    ensures |Below(g, a)| <= |Below(g, b)|
  {
    StepReaches(g, a, b);
    forall c | c in Below(g, a)
      ensures c in Below(g, b)
    {
      ReachesTrans(g, c, a, b);
    }
    SubsetSize(Below(g, a), Below(g, b));
  }

  /** The downward counterpart of `ClosedContains`. */
  lemma {:induction false} ClosedDownContains(g: Graph, s: set<string>, u: string, v: string, k: nat)
    requires forall a, b :: b in s && Step(g, a, b) ==> a in s
    requires v in s && ReachesIn(g, u, v, k)
    ensures u in s
    decreases k
  {
    if k > 0 {
      var m :| Step(g, u, m) && ReachesIn(g, m, v, k - 1);
      ClosedDownContains(g, s, m, v, k - 1);
    }
  }
}
