/** Intrinsic information content, counted off the is-a graph, once upward and once downward. */
module IntrinsicIc {
  import opened Graphs
  import opened Reals

  /** `1 - log(d+1)/log(n+1)`: the measure of a node with `d` descendants among `n`. */
  function Intrinsic(log: real -> real, d: nat, n: nat): real
    requires log(n as real + 1.0) != 0.0
  {
    1.0 - log(d as real + 1.0) / log(n as real + 1.0)
  }

  lemma LogPositive(log: real -> real, n: nat)
    requires IsLog(log) && n > 0
    ensures log(n as real + 1.0) > 0.0
  {
    assert log(1.0) < log(n as real + 1.0);
  }

  /** What the measure says of a node with `d` descendants among `n`. */
  ghost predicate Says(log: real -> real, ic: real, d: nat, n: nat) {
    (1.0 - ic) * log(n as real + 1.0) == log(d as real + 1.0)
  }

  lemma IntrinsicSays(log: real -> real, d: nat, n: nat)
    requires log(n as real + 1.0) != 0.0
    ensures Says(log, Intrinsic(log, d, n), d, n)
  {
  }

  lemma IntrinsicRange(log: real -> real, d: nat, n: nat)
    requires IsLog(log) && n > 0 && d <= n
    ensures log(n as real + 1.0) > 0.0
    ensures 0.0 <= Intrinsic(log, d, n) <= 1.0
    ensures Intrinsic(log, d, n) == 1.0 <==> d == 0
    ensures Intrinsic(log, d, n) == 0.0 <==> d == n
  {
    LogPositive(log, n);
    var top := log(n as real + 1.0);
    assert d > 0 ==> 0.0 < log(d as real + 1.0);
    assert d < n ==> log(d as real + 1.0) < top;
    UnitRatio(log(d as real + 1.0), top);
  }

  lemma IntrinsicFalls(log: real -> real, d: nat, e: nat, n: nat)
    requires IsLog(log) && n > 0
    ensures log(n as real + 1.0) > 0.0
    ensures d < e <==> Intrinsic(log, e, n) < Intrinsic(log, d, n)
  {
    LogPositive(log, n);
    var top := log(n as real + 1.0);
    DivMonotone(log(d as real + 1.0), log(e as real + 1.0), top);
    DivMonotone(log(e as real + 1.0), log(d as real + 1.0), top);
    assert d < e ==> log(d as real + 1.0) < log(e as real + 1.0);
    assert e < d ==> log(e as real + 1.0) < log(d as real + 1.0);
  }

  // ---- derive_intrinsic_ic: every node credits each of its ancestors once ----

  function Count(desc: map<string, nat>, q: string): nat {
    if q in desc then desc[q] else 0
  }

  /** The inner worklist: credit everything strictly above `n`, each node once, cycles included. */
  method CreditAncestors(g: Graph, n: string, desc: map<string, nat>) returns (credited: map<string, nat>)
    requires n in g
    ensures forall q :: Count(credited, q) == Count(desc, q) + if q in Above(g, n) then 1 else 0
  {
    credited := desc;
    var seenUp: set<string>, stack := {}, g[n];
    forall q | Step(g, n, q)
      ensures Reaches(g, n, q)
    {
      StepReaches(g, n, q);
    }
    while stack != []
      invariant seenUp <= Above(g, n)
      invariant forall q :: q in stack && q in g ==> Reaches(g, n, q)
      invariant forall q :: Step(g, n, q) ==> q in seenUp || q in stack
      invariant forall a, q :: a in seenUp && Step(g, a, q) ==> q in seenUp || q in stack
      invariant forall q :: Count(credited, q) == Count(desc, q) + if q in seenUp then 1 else 0
      decreases Above(g, n) - seenUp, |stack|
    {
      var q := stack[|stack| - 1];
      ghost var before := stack;
      stack := stack[..|stack| - 1];
      assert forall p :: p in before ==> p in stack || p == q;
      if q in seenUp || q !in g {
        continue;
      }
      seenUp := seenUp + {q};
      credited := credited[q := Count(credited, q) + 1];
      ReachesOn(g, n, q);
      stack := stack + g[q];
    }
    AllAbove(g, n, seenUp);
  }

  lemma ReachesOn(g: Graph, n: string, q: string)
    requires Reaches(g, n, q)
    ensures forall p :: p in g && q in g && p in g[q] ==> Reaches(g, n, p)
  {
    forall p | p in g && q in g && p in g[q]
      ensures Reaches(g, n, p)
    {
      StepReaches(g, q, p);
      ReachesTrans(g, n, q, p);
    }
  }

  /** What is closed off above `n` is all there is above it. */
  lemma AllAbove(g: Graph, n: string, seenUp: set<string>)
    requires seenUp <= Above(g, n) && (forall q :: Step(g, n, q) ==> q in seenUp) && ClosedUp(g, seenUp)
    ensures seenUp == Above(g, n)
  {
    forall q | q in Above(g, n)
      ensures q in seenUp
    {
      var k: nat :| k > 0 && ReachesIn(g, n, q, k);
      ClosedContains(g, seenUp, n, q, k);
    }
  }

  /** The descendants of `q` that have had their turn. */
  ghost function Credited(g: Graph, todo: set<string>, q: string): nat {
    |Below(g, q) - todo|
  }

  lemma CreditedOnce(g: Graph, todo: set<string>, n: string, q: string)
    requires n in g && n in todo
    ensures Credited(g, todo - {n}, q) == Credited(g, todo, q) + if q in Above(g, n) then 1 else 0
  {
    if q in Above(g, n) {
      assert Below(g, q) - (todo - {n}) == (Below(g, q) - todo) + {n};
    } else {
      if n in Below(g, q) {
        ReachesKeys(g, n, q);
      }
      assert Below(g, q) - (todo - {n}) == Below(g, q) - todo;
    }
  }

  lemma CreditEnds(g: Graph, q: string)
    ensures Credited(g, g.Keys, q) == 0
    ensures Credited(g, {}, q) == |Below(g, q)|
  {
    assert Below(g, q) - g.Keys == {} && Below(g, q) - {} == Below(g, q);
  }

  /** Counts at each node exactly the nodes that reach it, on any graph. */
  method DeriveIntrinsicIc(g: Graph, log: real -> real) returns (ic: map<string, real>)
    requires IsLog(log)
    ensures ic.Keys == g.Keys
    ensures forall n :: n in g ==> log(|g| as real + 1.0) > 0.0 && ic[n] == Intrinsic(log, |Below(g, n)|, |g|)
    ensures forall n :: n in g ==> Says(log, ic[n], |Below(g, n)|, |g|)
  {
    var desc := CountDescendants(g);
    if g == map[] {
      return map[];
    }
    assert |g| > 0;
    LogPositive(log, |g|);
    ic := map n | n in g :: Intrinsic(log, Count(desc, n), |g|);
    forall n | n in g
      ensures Says(log, ic[n], |Below(g, n)|, |g|)
    {
      IntrinsicSays(log, |Below(g, n)|, |g|);
    }
  }

  method CountDescendants(g: Graph) returns (desc: map<string, nat>)
    ensures forall q :: Count(desc, q) == |Below(g, q)|
  {
    desc := map[];
    var todo := g.Keys;
    forall q {
      CreditEnds(g, q);
    }
    while todo != {}
      invariant todo <= g.Keys
      invariant forall q :: Count(desc, q) == Credited(g, todo, q)
      decreases todo
    {
      var n :| n in todo;
      forall q {
        CreditedOnce(g, todo, n, q);
      }
      desc := CreditAncestors(g, n, desc);
      todo := todo - {n};
    }
    forall q {
      CreditEnds(g, q);
    }
  }

  // ---- what the count gives on any graph, and on an acyclic one ----

  /** Climbing a link never raises the measure, and lowers it unless the lower node is on a cycle. */
  lemma IcFallsUpward(g: Graph, log: real -> real, child: string, parent: string)
    requires IsLog(log) && Step(g, child, parent)
    ensures log(|g| as real + 1.0) > 0.0
    ensures 0.0 <= Intrinsic(log, |Below(g, parent)|, |g|) <= Intrinsic(log, |Below(g, child)|, |g|) <= 1.0
    ensures !Reaches(g, child, child) ==>
              Intrinsic(log, |Below(g, parent)|, |g|) < Intrinsic(log, |Below(g, child)|, |g|)
  {
    BelowGrows(g, child, parent);
    BelowFits(g, parent);
    BelowFits(g, child);
    IntrinsicRange(log, |Below(g, parent)|, |g|);
    IntrinsicRange(log, |Below(g, child)|, |g|);
    IntrinsicFalls(log, |Below(g, child)|, |Below(g, parent)|, |g|);
    if !Reaches(g, child, child) {
      assert child in Below(g, parent) && child !in Below(g, child);
      SubsetSize(Below(g, child), Below(g, parent));
    }
  }

  lemma BelowFits(g: Graph, n: string)
    requires n in g
    ensures |g| > 0 && |Below(g, n)| <= |g|
  {
    assert Below(g, n) <= g.Keys && n in g.Keys;
    SubsetSize(Below(g, n), g.Keys);
  }

  // ---- conceptnet_ic: one breadth-first search downward per vertex ----

  function Verts(edges: seq<(string, string)>): set<string> {
    (set e | e in edges :: e.0) + (set e | e in edges :: e.1)
  }

  function Ups(edges: seq<(string, string)>, v: string): (ups: seq<string>)
    ensures forall w :: w in ups <==> (v, w) in edges
  {
    if edges == [] then []
    else
      var rest := Ups(edges[1..], v);
      assert edges == [edges[0]] + edges[1..];
      if edges[0].0 == v then [edges[0].1] + rest else rest
  }

  /** The graph the `is_a` rows describe: its nodes are the rows' endpoints. */
  function IsaGraph(edges: seq<(string, string)>): (g: Graph)
    ensures g.Keys == Verts(edges)
    ensures forall a, b :: Step(g, a, b) <==> (a, b) in edges
  {
    var g := map v | v in Verts(edges) :: Ups(edges, v);
    assert forall a, b :: (a, b) in edges ==> a in Verts(edges) && b in Verts(edges) by {
      forall a, b | (a, b) in edges
        ensures a in Verts(edges) && b in Verts(edges)
      {
        assert (a, b).0 == a && (a, b).1 == b;
      }
    }
    g
  }

  function Kids(kids: map<string, set<string>>, v: string): set<string> {
    if v in kids then kids[v] else {}
  }

  method IndexKids(edges: seq<(string, string)>) returns (kids: map<string, set<string>>, verts: set<string>)
    ensures verts == Verts(edges)
    ensures forall a, b :: a in Kids(kids, b) <==> (a, b) in edges
  {
    kids, verts := map[], {};
    for i := 0 to |edges|
      invariant verts == Verts(edges[..i])
      invariant forall a, b :: a in Kids(kids, b) <==> (a, b) in edges[..i]
    {
      var (a, b) := edges[i];
      assert edges[..i + 1] == edges[..i] + [edges[i]];
      kids := kids[b := Kids(kids, b) + {a}];
      verts := verts + {a, b};
    }
    assert edges[..|edges|] == edges;
  }

  /** Everything below `v`, and `v` itself: the visited set of the search. */
  method VisitDown(ghost g: Graph, kids: map<string, set<string>>, v: string) returns (seen: set<string>)
    requires v in g
    requires forall a, b :: a in Kids(kids, b) <==> Step(g, a, b)
    ensures seen == Below(g, v) + {v}
  {
    seen := {v};
    var queue: seq<string> := [];
    var rest := Kids(kids, v);
    while rest != {}
      invariant rest <= Kids(kids, v)
      invariant forall k :: k in Kids(kids, v) ==> k in rest || k in queue
      invariant forall k :: k in queue ==> Reaches(g, k, v)
      decreases rest
    {
      var k :| k in rest;
      StepReaches(g, k, v);
      queue, rest := queue + [k], rest - {k};
    }
    seen := seen + set k | k in queue;
    while queue != []
      invariant v in seen && (forall k :: k in queue ==> k in seen)
      invariant seen <= Below(g, v) + {v}
      invariant forall a, b :: b in seen && b !in queue && Step(g, a, b) ==> a in seen
      decreases Below(g, v) + {v} - seen, |queue|
    {
      seen, queue := Enqueue(g, kids, v, seen, queue);
    }
    forall u | u in Below(g, v)
      ensures u in seen
    {
      var k: nat :| k > 0 && ReachesIn(g, u, v, k);
      ClosedDownContains(g, seen, u, v, k);
    }
  }

  /** One turn of the search: take the front vertex, mark and queue its unmarked children. */
  method Enqueue(ghost g: Graph, kids: map<string, set<string>>, v: string, was: set<string>, queue: seq<string>)
    returns (seen: set<string>, next: seq<string>)
    requires queue != [] && queue[0] in was && was <= Below(g, v) + {v}
    requires forall a, b :: a in Kids(kids, b) <==> Step(g, a, b)
    ensures was <= seen <= Below(g, v) + {v}
    ensures seen == was ==> next == queue[1..]
    ensures forall k :: k in next <==> k in queue[1..] || k in seen - was
    ensures forall k :: k in Kids(kids, queue[0]) ==> k in seen
  {
    var u := queue[0];
    seen, next := was, queue[1..];
    var rest := Kids(kids, u);
    while rest != {}
      invariant rest <= Kids(kids, u)
      invariant was <= seen <= Below(g, v) + {v}
      invariant seen == was ==> next == queue[1..]
      invariant forall k :: k in next <==> k in queue[1..] || k in seen - was
      invariant forall k :: k in Kids(kids, u) ==> k in rest || k in seen
      decreases rest
    {
      var k :| k in rest;
      rest := rest - {k};
      if k !in seen {
        StepReaches(g, k, u);
        if u != v {
          ReachesTrans(g, k, u, v);
        }
        seen, next := seen + {k}, next + [k];
      }
    }
  }

  /** `1 - log(m)/log(n+1)`: the measure of a vertex whose visited set has `m` members, itself included. */
  function Visited(log: real -> real, m: nat, n: nat): real
    requires log(n as real + 1.0) != 0.0
  {
    1.0 - log(m as real) / log(n as real + 1.0)
  }

  method VisitAll(ghost g: Graph, kids: map<string, set<string>>, verts: set<string>)
    returns (sizes: map<string, nat>)
    requires verts == g.Keys
    requires forall a, b :: a in Kids(kids, b) <==> Step(g, a, b)
    ensures sizes.Keys == verts
    ensures forall v :: v in sizes ==> sizes[v] == |Below(g, v) + {v}|
  {
    sizes := map[];
    var todo := verts;
    while todo != {}
      invariant todo <= verts && sizes.Keys == verts - todo
      invariant forall v :: v in sizes ==> sizes[v] == |Below(g, v) + {v}|
      decreases todo
    {
      var v :| v in todo;
      var seen := VisitDown(g, kids, v);
      sizes, todo := sizes[v := |seen|], todo - {v};
    }
  }

  /** Each vertex is measured by what lies strictly below it, itself counted once if it is on a cycle. */
  ghost predicate AllVisited(g: Graph, log: real -> real, ic: map<string, real>, n: nat) {
    forall v :: v in ic ==> Says(log, ic[v], |Below(g, v) + {v}| - 1, n)
  }

  lemma VisitedAllSay(g: Graph, log: real -> real, ic: map<string, real>, n: nat)
    requires log(n as real + 1.0) != 0.0
    requires forall v :: v in ic ==> ic[v] == Visited(log, |Below(g, v) + {v}|, n)
    ensures AllVisited(g, log, ic, n)
  {
    forall v | v in ic
      ensures Says(log, ic[v], |Below(g, v) + {v}| - 1, n)
    {
      VisitedSays(log, |Below(g, v) + {v}|, n);
    }
  }

  method ConceptnetIc(edges: seq<(string, string)>, log: real -> real) returns (ic: map<string, real>)
    requires IsLog(log)
    ensures |Verts(edges)| < 2 ==> ic == map[]
    ensures |Verts(edges)| >= 2 ==> ic.Keys == Verts(edges) && log(|Verts(edges)| as real + 1.0) > 0.0
    ensures |Verts(edges)| >= 2 ==> forall v :: v in ic ==>
              ic[v] == Visited(log, |Below(IsaGraph(edges), v) + {v}|, |Verts(edges)|)
    ensures |Verts(edges)| >= 2 ==> AllVisited(IsaGraph(edges), log, ic, |Verts(edges)|)
  {
    var kids, verts := IndexKids(edges);
    var n := |verts|;
    if n < 2 {
      return map[];
    }
    LogPositive(log, n);
    var sizes := VisitAll(IsaGraph(edges), kids, verts);
    ic := map v | v in sizes :: Visited(log, sizes[v], n);
    VisitedAllSay(IsaGraph(edges), log, ic, n);
  }

  lemma VisitedSays(log: real -> real, m: nat, n: nat)
    requires log(n as real + 1.0) != 0.0 && m > 0
    ensures Says(log, Visited(log, m, n), m - 1, n)
  {
    assert (m - 1) as real + 1.0 == m as real;
  }

  lemma VisitedIsIntrinsic(log: real -> real, d: nat, m: nat, n: nat)
    requires IsLog(log) && n > 0 && m > 0
    ensures log(n as real + 1.0) > 0.0
    ensures Visited(log, m, n) == Intrinsic(log, d, n) <==> m == d + 1
  {
    LogPositive(log, n);
    IntrinsicFalls(log, m - 1, d, n);
    IntrinsicFalls(log, d, m - 1, n);
    assert (m - 1) as real + 1.0 == m as real;
  }

  /** The two derivations agree at a vertex exactly when it lies on no cycle. */
  lemma DerivationsAgree(edges: seq<(string, string)>, log: real -> real, v: string)
    requires IsLog(log) && v in Verts(edges)
    ensures var g, n := IsaGraph(edges), |Verts(edges)|;
            && |g| == n && log(n as real + 1.0) > 0.0
            && (Visited(log, |Below(g, v) + {v}|, n) == Intrinsic(log, |Below(g, v)|, n) <==> !Reaches(g, v, v))
  {
    var g := IsaGraph(edges);
    assert g.Keys == Verts(edges);
    BelowFits(g, v);
    VisitedIsIntrinsic(log, |Below(g, v)|, |Below(g, v) + {v}|, |g|);
    if v in Below(g, v) {
      assert Below(g, v) + {v} == Below(g, v);
    } else {
      assert |Below(g, v) + {v}| == |Below(g, v)| + 1;
    }
  }

  /** Two vertices above each other are measured differently by the two. */
  lemma TwoCycleDisagrees(log: real -> real)
    requires IsLog(log)
    ensures var edges := [("a", "b"), ("b", "a")]; var g, n := IsaGraph(edges), |Verts(edges)|;
            && "a" in Verts(edges) && log(n as real + 1.0) != 0.0
            && Visited(log, |Below(g, "a") + {"a"}|, n) != Intrinsic(log, |Below(g, "a")|, n)
  {
    var edges := [("a", "b"), ("b", "a")];
    var g := IsaGraph(edges);
    assert edges[0] in edges && edges[1] in edges;
    assert Step(g, "a", "b") && Step(g, "b", "a");
    StepReaches(g, "a", "b");
    StepReaches(g, "b", "a");
    ReachesTrans(g, "a", "b", "a");
    DerivationsAgree(edges, log, "a");
  }
}
