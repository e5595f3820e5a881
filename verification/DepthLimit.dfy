/** What the depth limit on inheritance costs: how far a lineage sees, exactly what it sees where each type has one
    parent, and registries in which it loses an ancestor a short path leads to. */
module DepthLimit {
  import opened Outcomes
  import opened Sums
  import opened Graphs
  import opened TypeLineage
  import opened TypeRegistration

  // ---- nothing beyond eight links is seen ----

  /** `x` is at most `n` links above `a`. */
  ghost predicate Within(g: Graph, a: string, x: string, n: int) {
    exists k: nat :: k <= n && ReachesIn(g, a, x, k)
  }

  lemma {:induction false} WalkNear(g: Graph, c: string, depth: nat, w: Walked, x: string)
    requires depth <= MAX_DEPTH + 1 && x in g && x in Walk(g, c, depth, w).seen && x !in w.seen
    ensures c in g && Within(g, c, x, MAX_DEPTH - depth)
    decreases MAX_DEPTH + 1 - depth, 0
  {
    assert ReachesIn(g, x, x, 0);
    if x != c {
      WalkAllNear(g, g[c], depth + 1, Meet(g, c, w), x);
      var p, k: nat :| p in g[c] && p in g && k <= MAX_DEPTH - depth - 1 && ReachesIn(g, p, x, k);
      assert Step(g, c, p);
      assert ReachesIn(g, c, x, k + 1);
    }
  }

  lemma {:induction false} WalkAllNear(g: Graph, cs: seq<string>, depth: nat, w: Walked, x: string)
    requires depth <= MAX_DEPTH + 1 && x in g && x in WalkAll(g, cs, depth, w).seen && x !in w.seen
    ensures exists p, k: nat :: p in cs && p in g && k <= MAX_DEPTH - depth && ReachesIn(g, p, x, k)
    decreases MAX_DEPTH + 1 - depth, 1 + |cs|
  {
    var next := Walk(g, cs[0], depth, w);
    if x in next.seen {
      WalkNear(g, cs[0], depth, w, x);
      assert cs[0] in cs;
    } else {
      WalkAllNear(g, cs[1..], depth, next, x);
    }
  }

  /** Every declared type listed for a declared type is at most eight links above it or above the root. */
  lemma ListedIsNear(g: Graph, c: string, x: string)
    requires c in g && x in Ancestry(g, c).out
    ensures Within(g, c, x, MAX_DEPTH) || Within(g, ROOT, x, MAX_DEPTH)
  {
    LineageShape(g, c);
    WalkAllGrows(g, g[c], 1, Meet(g, c, NOTHING));
    assert Kin(g, c) == Walk(g, c, 0, NOTHING);
    if x in Kin(g, c).seen {
      WalkNear(g, c, 0, NOTHING, x);
    } else {
      WalkNear(g, ROOT, 0, Kin(g, c), x);
    }
  }

  /** So a complete lineage has every declared ancestor that near. */
  lemma CompleteIsNear(g: Graph, c: string)
    requires c in g && Complete(g, c)
    ensures forall x :: x in g && AtOrAbove(g, c, x) ==> Within(g, c, x, MAX_DEPTH) || Within(g, ROOT, x, MAX_DEPTH)
  {
    forall x | x in g && AtOrAbove(g, c, x)
      ensures Within(g, c, x, MAX_DEPTH) || Within(g, ROOT, x, MAX_DEPTH)
    {
      ListedIsNear(g, c, x);
    }
  }

  // ---- one parent each: exactly what is seen ----

  /** `k` links lead from `a` to `x` through declared types outside `s`. */
  ghost predicate ClearPath(g: Graph, a: string, x: string, k: nat, s: set<string>)
    decreases k
  {
    a in g && a !in s && if k == 0 then a == x else exists m :: Step(g, a, m) && ClearPath(g, m, x, k - 1, s)
  }

  ghost predicate ClearWithin(g: Graph, a: string, x: string, n: int, s: set<string>) {
    exists k: nat :: k <= n && ClearPath(g, a, x, k, s)
  }

  lemma {:induction false} ClearMore(g: Graph, a: string, x: string, k: nat, s: set<string>, t: set<string>)
    requires ClearPath(g, a, x, k, s) && t <= s
    ensures ClearPath(g, a, x, k, t)
    decreases k
  {
    if k > 0 {
      var m :| Step(g, a, m) && ClearPath(g, m, x, k - 1, s);
      ClearMore(g, m, x, k - 1, s, t);
    }
  }

  lemma {:induction false} ClearIsReach(g: Graph, a: string, x: string, k: nat)
    requires a in g
    ensures ClearPath(g, a, x, k, {}) <==> ReachesIn(g, a, x, k)
    decreases k
  {
    if k > 0 {
      if ClearPath(g, a, x, k, {}) {
        var m :| Step(g, a, m) && ClearPath(g, m, x, k - 1, {});
        ClearIsReach(g, m, x, k - 1);
      }
      if ReachesIn(g, a, x, k) {
        var m :| Step(g, a, m) && ReachesIn(g, m, x, k - 1);
        ClearIsReach(g, m, x, k - 1);
      }
    }
  }

  /** A path either keeps clear of `c` as well, or contains a path from `c` no longer than itself. */
  lemma {:induction false} Detour(g: Graph, c: string, m: string, x: string, k: nat, s: set<string>)
    requires ClearPath(g, m, x, k, s)
    ensures ClearPath(g, m, x, k, s + {c}) || exists i: nat :: i <= k && ClearPath(g, c, x, i, s)
    decreases k
  {
    if m == c {
      assert ClearPath(g, c, x, k, s);
    } else if k > 0 {
      var n :| Step(g, m, n) && ClearPath(g, n, x, k - 1, s);
      Detour(g, c, n, x, k - 1, s);
      if ClearPath(g, n, x, k - 1, s + {c}) {
        assert ClearPath(g, m, x, k, s + {c});
      } else {
        var i: nat :| i <= k - 1 && ClearPath(g, c, x, i, s);
        assert i <= k;
      }
    }
  }

  /** Whatever is reached from `c` is reached without coming back to it. */
  lemma {:induction false} LeaveOnce(g: Graph, c: string, x: string, k: nat, s: set<string>)
    requires ClearPath(g, c, x, k, s) && x != c
    ensures exists m, i: nat :: i < k && Step(g, c, m) && ClearPath(g, m, x, i, s + {c})
    decreases k
  {
    var m :| Step(g, c, m) && ClearPath(g, m, x, k - 1, s);
    Detour(g, c, m, x, k - 1, s);
    if !ClearPath(g, m, x, k - 1, s + {c}) {
      var i: nat :| i <= k - 1 && ClearPath(g, c, x, i, s);
      LeaveOnce(g, c, x, i, s);
    }
  }

  lemma {:induction false} WalkOne(g: Graph, c: string, depth: nat, w: Walked, x: string)
    requires depth <= MAX_DEPTH + 1 && OneParent(g) && c in g && x in g
    ensures x in Walk(g, c, depth, w).seen <==> x in w.seen || ClearWithin(g, c, x, MAX_DEPTH - depth, Known(g, w))
    decreases MAX_DEPTH + 1 - depth, 0
  {
    if c !in w.seen && depth <= MAX_DEPTH {
      var met := Meet(g, c, w);
      var d := Known(g, w);
      assert Known(g, met) == d + {c};
      WalkAllOne(g, c, g[c], depth + 1, met, x);
      if x == c {
        WalkAllGrows(g, g[c], depth + 1, met);
        assert ClearPath(g, c, x, 0, d);
      } else {
        if ClearWithin(g, c, x, MAX_DEPTH - depth, d) {
          var k: nat :| k <= MAX_DEPTH - depth && ClearPath(g, c, x, k, d);
          LeaveOnce(g, c, x, k, d);
        }
        if p, k: nat :| p in g[c] && k <= MAX_DEPTH - depth - 1 && ClearPath(g, p, x, k, d + {c}) {
          ClearMore(g, p, x, k, d + {c}, d);
          assert Step(g, c, p);
          assert ClearPath(g, c, x, k + 1, d);
        }
      }
    }
  }

  lemma {:induction false} WalkAllOne(g: Graph, a: string, cs: seq<string>, depth: nat, w: Walked, x: string)
    requires depth <= MAX_DEPTH + 1 && OneParent(g) && x in g && a in g && forall p :: p in cs ==> p in g[a]
    ensures x in WalkAll(g, cs, depth, w).seen <==>
              x in w.seen || exists p, k: nat :: p in cs && k <= MAX_DEPTH - depth && ClearPath(g, p, x, k, Known(g, w))
    decreases MAX_DEPTH + 1 - depth, 1 + |cs|
  {
    if cs != [] {
      var p, next := cs[0], Walk(g, cs[0], depth, w);
      assert p in cs && forall q :: q in cs[1..] ==> q in cs;
      if p in g {
        WalkOne(g, p, depth, w, x);
        WalkGrows(g, p, depth, w);
        forall q | q in cs[1..] && q in g
          ensures q == p
        {
          assert Step(g, a, p) && Step(g, a, q);
        }
        NothingNew(g, cs[1..], depth, next);
        assert x in WalkAll(g, cs, depth, w).seen <==> x in Known(g, WalkAll(g, cs[1..], depth, next));
        assert x in next.seen <==> x in w.seen || ClearWithin(g, p, x, MAX_DEPTH - depth, Known(g, w));
        if q, k: nat :| q in cs && k <= MAX_DEPTH - depth && ClearPath(g, q, x, k, Known(g, w)) {
          assert q == p;
          assert ClearWithin(g, p, x, MAX_DEPTH - depth, Known(g, w));
        }
        if ClearWithin(g, p, x, MAX_DEPTH - depth, Known(g, w)) {
          var k: nat :| k <= MAX_DEPTH - depth && ClearPath(g, p, x, k, Known(g, w));
          assert p in cs && ClearPath(g, p, x, k, Known(g, w));
        }
      } else {
        assert Known(g, next) == Known(g, w);
        WalkAllOne(g, a, cs[1..], depth, next, x);
      }
    }
  }

  /** What lies at most eight links above `c`. */
  ghost function Near(g: Graph, c: string): set<string> {
    set x | x in g && Within(g, c, x, MAX_DEPTH)
  }

  /** Where each type has one declared parent, exactly this is listed: what is at most eight links above the type, and
      what is at most eight links above the root along a path that keeps clear of the former. */
  lemma ListedExactly(g: Graph, c: string, x: string)
    requires OneParent(g) && c in g && x in g
    ensures x in Ancestry(g, c).out <==> x in Near(g, c) || ClearWithin(g, ROOT, x, MAX_DEPTH, Near(g, c))
  {
    LineageShape(g, c);
    WalkAllGrows(g, g[c], 1, Meet(g, c, NOTHING));
    var own := Walk(g, c, 0, NOTHING);
    assert Kin(g, c) == own;
    forall y | y in g
      ensures y in own.seen <==> y in Near(g, c)
    {
      WalkOne(g, c, 0, NOTHING, y);
      assert Known(g, NOTHING) == {};
      forall k: nat
        ensures ClearPath(g, c, y, k, {}) <==> ReachesIn(g, c, y, k)
      {
        ClearIsReach(g, c, y, k);
      }
    }
    assert Known(g, own) == Near(g, c);
    if ROOT in g {
      WalkOne(g, ROOT, 0, own, x);
    }
  }

  /** There a lineage is complete exactly when every ancestor is that near. */
  lemma CompleteExactly(g: Graph, c: string)
    requires OneParent(g) && c in g
    ensures Complete(g, c) <==>
              forall x :: x in g && AtOrAbove(g, c, x) ==>
                x in Near(g, c) || ClearWithin(g, ROOT, x, MAX_DEPTH, Near(g, c))
  {
    forall x | x in g
      ensures x in Ancestry(g, c).out <==> x in Near(g, c) || ClearWithin(g, ROOT, x, MAX_DEPTH, Near(g, c))
    {
      ListedExactly(g, c, x);
    }
  }

  /** And where moreover the root inherits nothing declared: exactly when every ancestor but the root is at most eight
      links up. */
  lemma CompleteUnderPlainRoot(g: Graph, c: string)
    requires OneParent(g) && c in g && ROOT in g && forall p :: !Step(g, ROOT, p)
    ensures Complete(g, c) <==> forall x :: x in g && AtOrAbove(g, c, x) ==> x == ROOT || Within(g, c, x, MAX_DEPTH)
  {
    CompleteExactly(g, c);
    forall x | x in g
      ensures x in Near(g, c) || ClearWithin(g, ROOT, x, MAX_DEPTH, Near(g, c)) <==>
              x == ROOT || Within(g, c, x, MAX_DEPTH)
    {
      if x == ROOT && x !in Near(g, c) {
        assert ClearPath(g, ROOT, x, 0, Near(g, c));
      }
    }
  }

  // ---- registries in which the limit hides a parent ----

  /** Whatever `p` inherits, it does not come to the last rung. */
  ghost predicate Aside(g: Graph, s: seq<string>, p: string)
    requires s != []
  {
    p in g ==> !AtOrAbove(g, p, s[|s| - 1])
  }

  /**
   * A ladder of nine rungs above `c`, the eighth of which `c` also names, after the first. Beside the next rung, a
   * rung may inherit anything, and so may `c` and the root, that does not come to the last rung.
   */
  ghost predicate Trap(g: Graph, c: string, s: seq<string>) {
    && |s| == MAX_DEPTH + 1 && Distinct(s) && c in g && c !in s && (forall k :: 0 <= k < |s| ==> s[k] in g)
    && (forall k :: 0 <= k < MAX_DEPTH ==>
          s[k + 1] in g[s[k]] && forall p :: p in g[s[k]] && p != s[k + 1] ==> Aside(g, s, p))
    && s[MAX_DEPTH - 1] in g[c] && (forall p :: p in g[c] && p != s[0] && p != s[MAX_DEPTH - 1] ==> Aside(g, s, p))
    && (exists i :: 0 <= i < |g[c]| && g[c][i] == s[0] && s[MAX_DEPTH - 1] !in g[c][..i])
    && Aside(g, s, ROOT)
  }

  /** From each rung the last is reached. */
  lemma {:induction false} RungReaches(g: Graph, c: string, s: seq<string>, k: nat)
    requires Trap(g, c, s) && k <= MAX_DEPTH
    ensures AtOrAbove(g, s[k], s[MAX_DEPTH])
    decreases MAX_DEPTH - k
  {
    if k < MAX_DEPTH {
      RungReaches(g, c, s, k + 1);
      StepReaches(g, s[k], s[k + 1]);
      if k + 1 < MAX_DEPTH {
        assert s[k + 1] != s[MAX_DEPTH];
        ReachesTrans(g, s[k], s[k + 1], s[MAX_DEPTH]);
      }
    }
  }

  /** The rungs from `k` on, unseen. */
  ghost predicate Fresh(s: seq<string>, k: nat, w: Walked) {
    forall j :: k <= j < |s| ==> s[j] !in w.seen
  }

  /** The rungs from `k` on seen, but for the last, which was turned away. */
  ghost predicate Sprung(s: seq<string>, k: nat, w: Walked)
    requires |s| == MAX_DEPTH + 1
  {
    s[MAX_DEPTH] !in w.seen && s[MAX_DEPTH] in w.refused && forall j :: k <= j < MAX_DEPTH ==> s[j] in w.seen
  }

  /** Walking something aside touches no rung. */
  lemma AsideTouchesNone(g: Graph, c: string, s: seq<string>, p: string, depth: nat, w: Walked, j: nat)
    requires Trap(g, c, s) && Aside(g, s, p) && depth <= MAX_DEPTH + 1 && j <= MAX_DEPTH && s[j] !in w.seen
    ensures s[j] !in Walk(g, p, depth, w).seen
  {
    if s[j] in Walk(g, p, depth, w).seen {
      WalkNear(g, p, depth, w, s[j]);
      var k: nat :| k <= MAX_DEPTH - depth && ReachesIn(g, p, s[j], k);
      RungReaches(g, c, s, j);
      assert k > 0 ==> Reaches(g, p, s[j]);
      if p != s[j] && j != MAX_DEPTH {
        ReachesTrans(g, p, s[j], s[MAX_DEPTH]);
      }
    }
  }

  lemma AsideKeeps(g: Graph, c: string, s: seq<string>, p: string, depth: nat, w: Walked, k: nat)
    requires Trap(g, c, s) && Aside(g, s, p) && depth <= MAX_DEPTH + 1
    ensures Fresh(s, k, w) ==> Fresh(s, k, Walk(g, p, depth, w))
    ensures Sprung(s, k, w) ==> Sprung(s, k, Walk(g, p, depth, w))
  {
    WalkGrows(g, p, depth, w);
    forall j: nat | j <= MAX_DEPTH && s[j] !in w.seen
      ensures s[j] !in Walk(g, p, depth, w).seen
    {
      AsideTouchesNone(g, c, s, p, depth, w, j);
    }
  }

  lemma {:induction false} WalkRung(g: Graph, c: string, s: seq<string>, k: nat, w: Walked)
    requires Trap(g, c, s) && k <= MAX_DEPTH && Fresh(s, k, w)
    ensures Sprung(s, k, Walk(g, s[k], k + 1, w))
    decreases 2 * (MAX_DEPTH - k) + 1, 0
  {
    if k < MAX_DEPTH {
      var met := Meet(g, s[k], w);
      assert Fresh(s, k + 1, met);
      WalkRungs(g, c, s, k, g[s[k]], met);
      WalkAllGrows(g, g[s[k]], k + 2, met);
    }
  }

  lemma {:induction false} WalkRungs(g: Graph, c: string, s: seq<string>, k: nat, cs: seq<string>, w: Walked)
    requires Trap(g, c, s) && k < MAX_DEPTH && forall p :: p in cs ==> p in g[s[k]]
    requires Sprung(s, k + 1, w) || (Fresh(s, k + 1, w) && s[k + 1] in cs)
    ensures Sprung(s, k + 1, WalkAll(g, cs, k + 2, w))
    decreases 2 * (MAX_DEPTH - k), |cs|
  {
    if cs != [] {
      var p, next := cs[0], Walk(g, cs[0], k + 2, w);
      assert p in cs && forall q :: q in cs[1..] ==> q in cs;
      if p != s[k + 1] {
        AsideKeeps(g, c, s, p, k + 2, w, k + 1);
      } else if Fresh(s, k + 1, w) {
        WalkRung(g, c, s, k + 1, w);
      } else {
        assert k + 1 == MAX_DEPTH || p in w.seen;
      }
      assert Sprung(s, k + 1, next) || (Fresh(s, k + 1, next) && s[k + 1] in cs[1..]);
      WalkRungs(g, c, s, k, cs[1..], next);
    }
  }

  /** The walk over what `c` names: nothing until the first rung, and then the whole ladder. */
  lemma {:induction false} WalkFoot(g: Graph, c: string, s: seq<string>, cs: seq<string>, i: nat, w: Walked)
    requires Trap(g, c, s) && forall p :: p in cs ==> p in g[c]
    requires Sprung(s, 0, w) || (Fresh(s, 0, w) && i < |cs| && cs[i] == s[0] && s[MAX_DEPTH - 1] !in cs[..i])
    ensures Sprung(s, 0, WalkAll(g, cs, 1, w))
    decreases |cs|
  {
    if cs != [] {
      var p, next := cs[0], Walk(g, cs[0], 1, w);
      assert p in cs && forall q :: q in cs[1..] ==> q in cs;
      if Sprung(s, 0, w) {
        if p != s[0] && p != s[MAX_DEPTH - 1] {
          AsideKeeps(g, c, s, p, 1, w, 0);
        }
        WalkFoot(g, c, s, cs[1..], 0, next);
      } else if p == s[0] {
        WalkRung(g, c, s, 0, w);
        WalkFoot(g, c, s, cs[1..], 0, next);
      } else {
        assert i > 0 && p in cs[..i] && cs[1..][i - 1] == s[0];
        assert forall q :: q in cs[1..][..i - 1] ==> q in cs[..i];
        AsideKeeps(g, c, s, p, 1, w, 0);
        WalkFoot(g, c, s, cs[1..], i - 1, next);
      }
    }
  }

  /** There the last rung is a parent of a type `c` itself names, and is missing from the lineage: the long way met
      its child at the limit, and the short way found that child already seen. */
  lemma DepthLimitHidesParents(g: Graph, c: string, s: seq<string>)
    requires Trap(g, c, s)
    ensures Step(g, c, s[MAX_DEPTH - 1]) && Step(g, s[MAX_DEPTH - 1], s[MAX_DEPTH])
    ensures s[MAX_DEPTH] !in Ancestry(g, c).out && !Complete(g, c)
  {
    var met := Meet(g, c, NOTHING);
    var i :| 0 <= i < |g[c]| && g[c][i] == s[0] && s[MAX_DEPTH - 1] !in g[c][..i];
    WalkFoot(g, c, s, g[c], i, met);
    WalkAllGrows(g, g[c], 1, met);
    assert Kin(g, c) == Walk(g, c, 0, NOTHING);
    AsideKeeps(g, c, s, ROOT, 0, Kin(g, c), 0);
    LineageShape(g, c);
    StepReaches(g, c, s[MAX_DEPTH - 1]);
    StepReaches(g, s[MAX_DEPTH - 1], s[MAX_DEPTH]);
    ReachesTrans(g, c, s[MAX_DEPTH - 1], s[MAX_DEPTH]);
  }

  // ---- one such registry, built by registering ----

  function Rung(k: nat): (r: string)
    ensures |r| == k + 1 && r[0] == 'x'
  {
    seq(k + 1, _ => 'x')
  }

  predicate Normal(ct: string) {
    NormalizeCt(ct) == ct && ct != ""
  }

  lemma RungIsNormal(k: nat)
    ensures Normal(Rung(k))
  {
    var r := Rung(k);
    assert forall i :: 0 <= i < |r| ==> r[i] == 'x';
    assert Plain(r);
    PlainIsNormal(r);
  }

  lemma RootIsNormal()
    ensures Normal(ROOT) && forall k :: Rung(k) != ROOT
  {
    PlainIsNormal(ROOT);
    assert ROOT[0] == '*';
  }

  lemma NormalList(cts: seq<string>)
    requires forall x :: x in cts ==> Normal(x)
    ensures Normalized(cts) == cts
  {
    forall k | 0 <= k < |cts|
      ensures NormalizeCt(cts[k]) == cts[k]
    {
      assert cts[k] in cts;
    }
  }

  /** The first names the second and the ninth, each after it the next, the last nothing. */
  function RungParents(k: nat): seq<string> {
    if k == 0 then [Rung(1), Rung(MAX_DEPTH)] else if k <= MAX_DEPTH then [Rung(k + 1)] else []
  }

  lemma RungParentsNormal(k: nat)
    ensures Normalized(RungParents(k)) == RungParents(k)
  {
    RungIsNormal(1);
    RungIsNormal(MAX_DEPTH);
    RungIsNormal(k + 1);
    NormalList(RungParents(k));
  }

  function RungDef(k: nat): Definition {
    Definition(Rung(k), map[], RungParents(k))
  }

  lemma RungParses(k: nat)
    ensures ParseTypeDef(RungDef(k), None) == Some(TypeDef(Rung(k), map[], RungParents(k), None))
  {
    RungIsNormal(k);
  }

  /** The cache once the first `k` rungs are registered. */
  function Rungs(k: nat): map<string, TypeDef> {
    if k == 0 then map[] else Rungs(k - 1)[Rung(k - 1) := TypeDef(Rung(k - 1), map[], RungParents(k - 1), None)]
  }

  lemma {:induction false} RungsHold(k: nat, j: nat)
    ensures Rung(j) in Rungs(k) <==> j < k
    ensures j < k ==> Rungs(k)[Rung(j)].inherits == RungParents(j)
    ensures ROOT !in Rungs(k)
  {
    if k > 0 {
      RungsHold(k - 1, j);
      RootIsNormal();
      assert j != k - 1 ==> |Rung(j)| != |Rung(k - 1)|;
    }
  }

  function Ladder(): (s: seq<string>)
    ensures |s| == MAX_DEPTH + 1 && forall k :: 0 <= k < |s| ==> s[k] == Rung(k + 1)
  {
    seq(MAX_DEPTH + 1, k requires 0 <= k => Rung(k + 1))
  }

  /** The ladder as a graph, under a root that inherits nothing. */
  ghost predicate IsLadder(g: Graph) {
    && ROOT in g && g[ROOT] == []
    && forall j: nat :: j < MAX_DEPTH + 2 ==> Rung(j) in g && g[Rung(j)] == RungParents(j)
  }

  lemma LadderInherits(reg: Registry)
    requires reg.cache == Rungs(MAX_DEPTH + 2) && ROOT in reg.builtin && reg.builtin[ROOT].inherits == []
    ensures IsLadder(Inherits(reg))
  {
    forall j: nat | j < MAX_DEPTH + 2
      ensures Rung(j) in reg.cache && Inherits(reg)[Rung(j)] == RungParents(j)
    {
      RungsHold(MAX_DEPTH + 2, j);
      RungParentsNormal(j);
    }
    RungsHold(MAX_DEPTH + 2, 0);
  }

  lemma LadderIsTrap(g: Graph)
    requires IsLadder(g)
    ensures Trap(g, Rung(0), Ladder())
  {
    var s := Ladder();
    forall k | 0 <= k < MAX_DEPTH
      ensures s[k + 1] in g[s[k]] && forall p :: p in g[s[k]] ==> p == s[k + 1]
    {
      assert g[Rung(k + 1)] == [Rung(k + 2)];
    }
    var foot := g[Rung(0)];
    assert foot == [s[0], s[MAX_DEPTH - 1]];
    assert foot[0] == s[0] && foot[..0] == [];
    RootAside(g, s);
    assert forall i :: 0 <= i < |s| ==> |s[i]| == i + 2;
    assert forall k :: 0 <= k < |s| ==> s[k] in g;
  }

  lemma RootAside(g: Graph, s: seq<string>)
    requires s == Ladder() && ROOT in g && g[ROOT] == []
    ensures Aside(g, s, ROOT)
  {
    RootIsNormal();
    assert forall p :: !Step(g, ROOT, p);
  }

  /** The state the witness is built in: a root that inherits nothing, and the first `k` rungs. */
  ghost predicate Rising(types: TypeRegistry, k: nat)
    reads types
  {
    types.Valid() && types.cache == Rungs(k) && ROOT in types.builtin && types.builtin[ROOT].inherits == []
  }

  lemma RisenIsTrap(types: TypeRegistry)
    requires Rising(types, MAX_DEPTH + 2)
    ensures Trap(Inherits(Registry(types.cache, types.builtin)), Rung(0), Ladder())
  {
    var reg := Registry(types.cache, types.builtin);
    LadderInherits(reg);
    LadderIsTrap(Inherits(reg));
  }

  /** Registering ten types under a root that inherits nothing makes such a registry. */
  method BuildTrap() returns (types: TypeRegistry)
    ensures fresh(types) && types.Valid() && ROOT in types.builtin
    ensures exists c, s :: Trap(Inherits(Registry(types.cache, types.builtin)), c, s)
  {
    types := new TypeRegistry();
    AddRoot(types);
    AddRungs(types);
    RisenIsTrap(types);
  }

  method AddRungs(types: TypeRegistry)
    requires Rising(types, 0)
    modifies types
    ensures Rising(types, MAX_DEPTH + 2)
  {
    var k := 0;
    while k < MAX_DEPTH + 2
      invariant 0 <= k <= MAX_DEPTH + 2 && Rising(types, k)
    {
      AddRung(types, k);
      k := k + 1;
    }
  }

  method AddRoot(types: TypeRegistry)
    requires types.Valid() && types.cache == map[]
    modifies types
    ensures Rising(types, 0)
  {
    RootIsNormal();
    var _ := types.LoadBuiltin(Definition(ROOT, map[], []));
  }

  method AddRung(types: TypeRegistry, k: nat)
    requires Rising(types, k)
    modifies types
    ensures Rising(types, k + 1)
  {
    RungParses(k);
    var _ := types.Register(RungDef(k), None);
  }
}
