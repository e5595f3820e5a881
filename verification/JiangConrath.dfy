/** The squared distance of two sparse coordinates against Jiang-Conrath on the tree, on any ontology. */
module JiangConrath {
  import opened Outcomes
  import opened Sums
  import opened Graphs
  import opened Reals
  import opened Geometry

  ghost predicate Forestlike(o: Ontology) {
    Registry(o) && Acyclic(Up(o))
  }

  /** The clipped weight of the link leaving `k` upward; a root has none. */
  ghost function Link(o: Ontology, k: string): real {
    if k in o && CanonicalParent(o, k).Some? then EdgeWeight(o, k, CanonicalParent(o, k).value) else 0.0
  }

  /** Information content drops on the way down to `k`: the clip hides a loss. */
  ghost predicate Falls(o: Ontology, k: string)
    requires k in o
  {
    CanonicalParent(o, k).Some? && IcOf(o, k) < IcOf(o, CanonicalParent(o, k).value)
  }

  ghost predicate Monotone(o: Ontology) {
    forall k {:trigger Falls(o, k)} :: k in o ==> !Falls(o, k)
  }

  // ---- vectors that are one function, each on its own set ----

  /** `u` is `r` on `s` and nothing elsewhere. */
  ghost predicate Overlays(u: map<string, real>, s: set<string>, r: string -> real) {
    u.Keys <= s && forall k :: Get(u, k) == if k in s then r(k) else 0.0
  }

  ghost predicate SquaresTo(r: string -> real, w: string -> real) {
    forall k :: r(k) * r(k) == w(k)
  }

  lemma SquareAt(x: real, y: real, inS: bool, inT: bool, r: real, w: real, d: real)
    requires x == if inS then r else 0.0
    requires y == if inT then r else 0.0
    requires w == r * r && d == (x - y) * (x - y)
    ensures d == if inS != inT then w else 0.0
  {
    assert x - y == if inS == inT then 0.0 else if inS then r else -r;
    assert (-r) * (-r) == r * r;
  }

  lemma OverlayAt(u: map<string, real>, v: map<string, real>, s: set<string>, t: set<string>,
                  r: string -> real, w: string -> real, k: string)
    requires Overlays(u, s, r) && Overlays(v, t, r) && SquaresTo(r, w)
    ensures SqDiff(u, v, k) == if (k in s) != (k in t) then w(k) else 0.0
  {
    SquareAt(Get(u, k), Get(v, k), k in s, k in t, r(k), w(k), SqDiff(u, v, k));
  }

  /** Two such vectors are as far apart as the squares only one of them has. */
  lemma DistanceOfOverlays(u: map<string, real>, v: map<string, real>, s: set<string>, t: set<string>,
                           r: string -> real, w: string -> real)
    requires Overlays(u, s, r) && Overlays(v, t, r) && SquaresTo(r, w)
    ensures SqDist(u, v) == SumSet(s - t, w) + SumSet(t - s, w)
  {
    var f := k => SqDiff(u, v, k);
    forall k
      ensures f(k) == if (k in s) != (k in t) then w(k) else 0.0
    {
      OverlayAt(u, v, s, t, r, w, k);
    }
    SumSetDifferences(u.Keys + v.Keys, s, t, f, w);
  }

  /** The squares of the roots of non-negative weights are the weights. */
  lemma RootsSquare(sqrt: real -> real, r: string -> real, w: string -> real)
    requires IsSqrt(sqrt) && forall k :: w(k) >= 0.0 && r(k) == sqrt(w(k))
    ensures SquaresTo(r, w)
  {
  }

  // ---- what a tree path is, on any ontology ----

  /** Each node's canonical parent comes next, and nothing comes twice. */
  ghost predicate Chained(o: Ontology, path: seq<string>)
    requires forall k :: k in path ==> k in o
  {
    Distinct(path) && forall i :: 0 <= i < |path| - 1 ==> CanonicalParent(o, path[i]) == Some(path[i + 1])
  }

  lemma {:induction false} WalkChained(o: Ontology, cur: string, seen: set<string>)
    requires cur in o && Registry(o) && cur in seen
    ensures Chained(o, WalkUp(o, cur, seen))
    ensures forall k :: k in WalkUp(o, cur, seen) ==> k == cur || k !in seen
    decreases AllNames(o) - seen
  {
    var p := CanonicalParent(o, cur);
    if p.Some? && p.value !in seen {
      assert o[p.value].name in AllNames(o);
      WalkChained(o, p.value, seen + {p.value});
      var rest := WalkUp(o, p.value, seen + {p.value});
      assert WalkUp(o, cur, seen) == [cur] + rest;
      assert cur !in rest;
    }
  }

  // ---- the pair-local condition ----

  /** From a node on both paths, the paths run on alike. */
  ghost predicate Alike(pa: seq<string>, pb: seq<string>) {
    forall i, j :: 0 <= i < |pa| && 0 <= j < |pb| && pa[i] == pb[j] ==> pa[i..] == pb[j..]
  }

  ghost predicate RunAlike(o: Ontology, a: string, b: string)
    requires a in o && b in o
  {
    Alike(TreePath(o, a), TreePath(o, b))
  }

  ghost predicate ReachesRoot(o: Ontology, s: string)
    requires s in o
  {
    var path := TreePath(o, s);
    CanonicalParent(o, path[|path| - 1]) == None
  }

  /** `next` gives each node of the path the one after it, and the last none. */
  ghost predicate Follows(next: string -> Option<string>, path: seq<string>) {
    forall i :: 0 <= i < |path| ==> next(path[i]) == At(path, i + 1)
  }

  function At(path: seq<string>, i: nat): Option<string> {
    if i < |path| then Some(path[i]) else None
  }

  lemma {:induction false} SameFromHere(next: string -> Option<string>, pa: seq<string>, pb: seq<string>, i: nat,
                                        j: nat)
    requires Follows(next, pa) && Follows(next, pb) && i < |pa| && j < |pb| && pa[i] == pb[j]
    ensures pa[i..] == pb[j..]
    decreases |pa| - i
  {
    assert next(pa[i]) == At(pa, i + 1) && next(pb[j]) == At(pb, j + 1);
    if i + 1 < |pa| && j + 1 < |pb| {
      SameFromHere(next, pa, pb, i + 1, j + 1);
    }
    assert pa[i..] == [pa[i]] + pa[i + 1..] && pb[j..] == [pb[j]] + pb[j + 1..];
  }

  ghost function Parent(o: Ontology): string -> Option<string> {
    k => if k in o then CanonicalParent(o, k) else None
  }

  lemma RootedFollows(o: Ontology, s: string)
    requires s in o && Registry(o) && ReachesRoot(o, s)
    ensures Follows(Parent(o), TreePath(o, s)) && Distinct(TreePath(o, s))
  {
    WalkChained(o, s, {s});
    var path := TreePath(o, s);
    forall i | 0 <= i < |path|
      ensures Parent(o)(path[i]) == At(path, i + 1)
    {
      assert path[i] in path;
    }
  }

  /** In particular wherever both climbs come to a root, cycles elsewhere or not. */
  lemma RootsRunAlike(o: Ontology, a: string, b: string)
    requires a in o && b in o && Registry(o) && ReachesRoot(o, a) && ReachesRoot(o, b)
    ensures RunAlike(o, a, b)
  {
    var pa, pb := TreePath(o, a), TreePath(o, b);
    RootedFollows(o, a);
    RootedFollows(o, b);
    forall i, j | 0 <= i < |pa| && 0 <= j < |pb| && pa[i] == pb[j]
      ensures pa[i..] == pb[j..]
    {
      SameFromHere(Parent(o), pa, pb, i, j);
    }
  }

  lemma {:induction false} ClimbReachesRoot(o: Ontology, s: string)
    requires s in o && Acyclic(Up(o))
    ensures var path := Climb(o, s); CanonicalParent(o, path[|path| - 1]) == None
    decreases |Above(Up(o), s)|
  {
    var p := CanonicalParent(o, s);
    if p.Some? {
      AboveShrinks(Up(o), s, p.value);
      ClimbReachesRoot(o, p.value);
    }
  }

  /** On an acyclic ontology that is every pair. */
  lemma AcyclicRunsAlike(o: Ontology, a: string, b: string)
    requires a in o && b in o && Forestlike(o)
    ensures ReachesRoot(o, a) && ReachesRoot(o, b) && RunAlike(o, a, b)
  {
    TreePathIsClimb(o, a);
    TreePathIsClimb(o, b);
    ClimbReachesRoot(o, a);
    ClimbReachesRoot(o, b);
    RootsRunAlike(o, a, b);
  }

  /** No link that is on one path only is clipped. */
  ghost predicate Unclipped(o: Ontology, pa: seq<string>, pb: seq<string>)
    requires forall k :: k in pa ==> k in o
  {
    forall i :: 0 <= i < |pa| - 1 && pa[i] !in pb ==> IcOf(o, pa[i + 1]) <= IcOf(o, pa[i])
  }

  ghost predicate NoneClipped(o: Ontology, a: string, b: string)
    requires a in o && b in o
  {
    Unclipped(o, TreePath(o, a), TreePath(o, b)) && Unclipped(o, TreePath(o, b), TreePath(o, a))
  }

  /** The tree distance, less the content at the two ends when the paths never meet. */
  ghost function JcMeeting(o: Ontology, a: string, b: string): real
    requires a in o && b in o
  {
    var pa, pb := TreePath(o, a), TreePath(o, b);
    if TreeLcs(o, a, b).Some? then JcTree(o, a, b) else JcTree(o, a, b) - IcOf(o, pa[|pa| - 1]) - IcOf(o, pb[|pb| - 1])
  }

  // ---- the distance, on any ontology ----

  /** Each node of the path leads on to another, or to none, that is on the path. */
  ghost predicate ClosedPath(o: Ontology, path: seq<string>)
    requires forall k :: k in path ==> k in o
  {
    path != [] && Chained(o, path) && forall k :: k in path ==>
      CanonicalParent(o, k) == None || CanonicalParent(o, k).value in path
  }

  /** What comes after the last node is none, or was seen. */
  ghost predicate Stops(o: Ontology, path: seq<string>, seen: set<string>)
    requires path != [] && forall k :: k in path ==> k in o
  {
    var p := CanonicalParent(o, path[|path| - 1]);
    p == None || p.value in seen || p.value in path
  }

  lemma StopsCons(o: Ontology, cur: string, rest: seq<string>, seen: set<string>)
    requires cur in o && rest != [] && (forall k :: k in rest ==> k in o) && Stops(o, rest, seen + {rest[0]})
    ensures Stops(o, [cur] + rest, seen)
  {
    var path := [cur] + rest;
    assert path[|path| - 1] == rest[|rest| - 1] && rest[0] in path;
  }

  lemma {:induction false} WalkStops(o: Ontology, cur: string, seen: set<string>)
    requires cur in o && Registry(o)
    ensures Stops(o, WalkUp(o, cur, seen), seen)
    decreases AllNames(o) - seen
  {
    var p := CanonicalParent(o, cur);
    if p.Some? && p.value !in seen {
      assert o[p.value].name in AllNames(o);
      WalkStops(o, p.value, seen + {p.value});
      StopsCons(o, cur, WalkUp(o, p.value, seen + {p.value}), seen);
    }
  }

  lemma TreePathCloses(o: Ontology, s: string)
    requires s in o && Registry(o)
    ensures ClosedPath(o, TreePath(o, s)) && TreePath(o, s)[0] == s
  {
    var path := TreePath(o, s);
    WalkChained(o, s, {s});
    WalkStops(o, s, {s});
    EndCloses(o, path);
  }

  lemma EndCloses(o: Ontology, path: seq<string>)
    requires path != [] && (forall k :: k in path ==> k in o) && Chained(o, path)
    requires var p := CanonicalParent(o, path[|path| - 1]); p == None || p.value in path
    ensures ClosedPath(o, path)
  {
    forall i | 0 <= i < |path|
      ensures CanonicalParent(o, path[i]) == None || CanonicalParent(o, path[i]).value in path
    {
      if i < |path| - 1 {
        assert CanonicalParent(o, path[i]) == Some(path[i + 1]);
      }
    }
  }

  /** The nodes of a path that have a link on it: all but the last. */
  ghost function Linked(path: seq<string>): set<string>
    requires path != []
  {
    ToSet(path[..|path| - 1])
  }

  lemma ChainedTail(o: Ontology, path: seq<string>)
    requires |path| > 1 && (forall k :: k in path ==> k in o) && Chained(o, path)
    ensures (forall k :: k in path[1..] ==> k in o) && Chained(o, path[1..])
    ensures CanonicalParent(o, path[0]) == Some(path[1]) && Linked(path) == {path[0]} + Linked(path[1..])
    ensures path[0] !in Linked(path[1..])
  {
    DistinctTail(path);
    forall i | 0 <= i < |path[1..]| - 1
      ensures CanonicalParent(o, path[1..][i]) == Some(path[1..][i + 1])
    {
      assert CanonicalParent(o, path[i + 1]) == Some(path[i + 2]);
    }
    ToSetCons(path[0], path[1..][..|path| - 2]);
    assert path[..|path| - 1] == [path[0]] + path[1..][..|path| - 2];
  }

  lemma {:induction false} PathCoordinate(o: Ontology, sqrt: real -> real, path: seq<string>, k: string)
    requires Registry(o) && IsSqrt(sqrt) && path != [] && (forall k :: k in path ==> k in o) && Chained(o, path)
    ensures Get(SparseOf(o, sqrt, path), k) == if k in Linked(path) then sqrt(Link(o, k)) else 0.0
    ensures k in SparseOf(o, sqrt, path) ==> k in Linked(path)
    decreases |path|
  {
    SqrtZero(sqrt);
    if |path| > 1 {
      ChainedTail(o, path);
      PathCoordinate(o, sqrt, path[1..], k);
      PathCoordinate(o, sqrt, path[1..], path[0]);
      assert EdgeWeight(o, path[0], path[1]) == Link(o, path[0]);
    }
  }

  lemma PathOverlays(o: Ontology, sqrt: real -> real, s: string, r: string -> real)
    requires s in o && Registry(o) && IsSqrt(sqrt) && forall k :: r(k) == sqrt(Link(o, k))
    ensures Overlays(SparseVec(o, sqrt, s), Linked(TreePath(o, s)), r)
  {
    TreePathCloses(o, s);
    forall k
      ensures Get(SparseVec(o, sqrt, s), k) == if k in Linked(TreePath(o, s)) then r(k) else 0.0
      ensures k in SparseVec(o, sqrt, s) ==> k in Linked(TreePath(o, s))
    {
      PathCoordinate(o, sqrt, TreePath(o, s), k);
    }
  }

  /** The squared distance is the weight of the links that are on one path only. */
  lemma DistanceOfPaths(o: Ontology, sqrt: real -> real, a: string, b: string, w: string -> real)
    requires a in o && b in o && Registry(o) && IsSqrt(sqrt) && forall k :: w(k) == Link(o, k)
    ensures var da, db := Linked(TreePath(o, a)), Linked(TreePath(o, b));
            SqDist(SparseVec(o, sqrt, a), SparseVec(o, sqrt, b)) == SumSet(da - db, w) + SumSet(db - da, w)
  {
    var r := k => sqrt(Link(o, k));
    PathOverlays(o, sqrt, a, r);
    PathOverlays(o, sqrt, b, r);
    forall k
      ensures w(k) >= 0.0 && r(k) == sqrt(w(k))
    {
      LinkNonNegative(o, k);
    }
    RootsSquare(sqrt, r, w);
    var da, db := Linked(TreePath(o, a)), Linked(TreePath(o, b));
    DistanceOfOverlays(SparseVec(o, sqrt, a), SparseVec(o, sqrt, b), da, db, r, w);
  }

  lemma LinkNonNegative(o: Ontology, k: string)
    ensures Link(o, k) >= 0.0
  {
  }

  // ---- what the links of a stretch of path weigh ----

  /** What clipping at zero hides on the first `n` links: the content gained going up. */
  ghost function Loss(o: Ontology, path: seq<string>, n: nat): real
    requires n < |path| && forall k :: k in path ==> k in o
  {
    if n == 0 then 0.0
    else
      var rise := IcOf(o, path[n]) - IcOf(o, path[n - 1]);
      Loss(o, path, n - 1) + if rise > 0.0 then rise else 0.0
  }

  lemma {:induction false} LossIsNone(o: Ontology, path: seq<string>, n: nat)
    requires n < |path| && forall k :: k in path ==> k in o
    ensures Loss(o, path, n) >= 0.0
    ensures Loss(o, path, n) == 0.0 <==> forall i :: 0 <= i < n ==> IcOf(o, path[i + 1]) <= IcOf(o, path[i])
  {
    if n > 0 {
      LossIsNone(o, path, n - 1);
    }
  }

  /** The first `n` links weigh the content lost going up, and what clipping hides. */
  lemma {:induction false} StretchWeighs(o: Ontology, path: seq<string>, n: nat, w: string -> real)
    requires n < |path| && (forall k :: k in path ==> k in o) && Chained(o, path)
    requires forall k :: w(k) == Link(o, k)
    ensures SumSet(ToSet(path[..n]), w) == IcOf(o, path[0]) - IcOf(o, path[n]) + Loss(o, path, n)
  {
    if n == 0 {
      assert ToSet(path[..0]) == {};
    } else {
      StretchWeighs(o, path, n - 1, w);
      OneMoreNode(path, n);
      SumWith(ToSet(path[..n - 1]), path[n - 1], true, w);
      LinkOnPath(o, path, n - 1);
    }
  }

  lemma OneMoreNode(path: seq<string>, n: nat)
    requires 0 < n < |path| && Distinct(path)
    ensures ToSet(path[..n]) == ToSet(path[..n - 1]) + {path[n - 1]} && path[n - 1] !in ToSet(path[..n - 1])
  {
    assert path[..n] == path[..n - 1] + [path[n - 1]];
    ToSetAppend(path[..n - 1], path[n - 1]);
  }

  lemma LinkOnPath(o: Ontology, path: seq<string>, i: nat)
    requires i < |path| - 1 && (forall k :: k in path ==> k in o) && Chained(o, path)
    ensures path[i] in o && path[i + 1] in o
    ensures Link(o, path[i]) == EdgeWeight(o, path[i], path[i + 1])
  {
    assert path[i] in path && path[i + 1] in path;
    assert CanonicalParent(o, path[i]) == Some(path[i + 1]);
  }

  // ---- where two paths meet ----

  /** Where the first node of `pa` that is on `pb` stands, or the last node if there is none. */
  function MeetAt(pa: seq<string>, pb: seq<string>): (i: nat)
    requires pa != []
    ensures i < |pa| && forall t :: 0 <= t < i ==> pa[t] !in pb
    ensures pa[i] in pb || (i == |pa| - 1 && forall k :: k in pa ==> k !in pb)
  {
    if pa[0] in pb || |pa| == 1 then 0
    else
      var i := MeetAt(pa[1..], pb);
      assert forall t :: 0 < t < |pa| ==> pa[t] == pa[1..][t - 1];
      1 + i
  }

  predicate Meet(pa: seq<string>, pb: seq<string>) {
    exists k :: k in pa && k in pb
  }

  lemma {:induction false} SharedIsMeet(o: Ontology, pa: seq<string>, pb: seq<string>)
    requires Registry(o) && pa != [] && (forall k :: k in pa ==> k in o) && forall k :: k in pb ==> k in o
    ensures FirstShared(o, pa, PathNames(o, pb)) == if Meet(pa, pb) then Some(pa[MeetAt(pa, pb)]) else None
    decreases |pa|
  {
    assert forall k :: k in o ==> (o[k].name in PathNames(o, pb) <==> k in pb);
    if pa[0] !in pb {
      if |pa| > 1 {
        SharedIsMeet(o, pa[1..], pb);
        assert Meet(pa, pb) <==> Meet(pa[1..], pb);
      } else {
        assert pa[1..] == [];
      }
    }
  }

  /** From where they meet on, everything on the one path is on the other. */
  lemma {:induction false} SharedOn(o: Ontology, pa: seq<string>, pb: seq<string>, i: nat, t: nat)
    requires (forall k :: k in pa ==> k in o) && (forall k :: k in pb ==> k in o)
    requires ClosedPath(o, pa) && ClosedPath(o, pb)
    requires i <= t < |pa| && pa[i] in pb
    ensures pa[t] in pb
    decreases t - i
  {
    if i < t {
      assert CanonicalParent(o, pa[i]) == Some(pa[i + 1]);
      SharedOn(o, pa, pb, i + 1, t);
    }
  }

  /**
   * The links on `pa` only: those up to the meeting, and one more if the paths, going round a cycle, stop at
   * different nodes.
   */
  lemma PrivateLinks(o: Ontology, pa: seq<string>, pb: seq<string>)
    requires (forall k :: k in pa ==> k in o) && (forall k :: k in pb ==> k in o)
    requires ClosedPath(o, pa) && ClosedPath(o, pb)
    ensures var ea, eb := pa[|pa| - 1], pb[|pb| - 1]; var stretch := ToSet(pa[..MeetAt(pa, pb)]);
            && Linked(pa) - Linked(pb) == stretch + (if Meet(pa, pb) && ea != eb then {eb} else {})
            && eb !in stretch
  {
    var i, ea, eb := MeetAt(pa, pb), pa[|pa| - 1], pb[|pb| - 1];
    assert eb in pb;
    if Meet(pa, pb) {
      forall t: nat | i <= t < |pa|
        ensures pa[t] in pb
      {
        SharedOn(o, pa, pb, i, t);
      }
      EndIsShared(o, pa, pb);
    }
    forall k
      ensures k in Linked(pa) - Linked(pb) <==> k in ToSet(pa[..i]) || (Meet(pa, pb) && ea != eb && k == eb)
    {
      LinkedExactly(pa, k);
      LinkedExactly(pb, k);
    }
  }

  lemma LinkedExactly(path: seq<string>, k: string)
    requires path != [] && Distinct(path)
    ensures k in Linked(path) <==> k in path && k != path[|path| - 1]
  {
  }

  lemma EndIsShared(o: Ontology, pa: seq<string>, pb: seq<string>)
    requires (forall k :: k in pa ==> k in o) && (forall k :: k in pb ==> k in o)
    requires ClosedPath(o, pa) && ClosedPath(o, pb)
    requires Meet(pa, pb)
    ensures pb[|pb| - 1] in pa
  {
    SharedOn(o, pb, pa, MeetAt(pb, pa), |pb| - 1);
  }

  // ---- the exactness claim, on any ontology ----

  /** The two links the paths do not share where they go round one cycle and stop at different nodes. */
  ghost function Seam(o: Ontology, pa: seq<string>, pb: seq<string>): real
    requires pa != [] && pb != []
  {
    var ea, eb := pa[|pa| - 1], pb[|pb| - 1];
    if Meet(pa, pb) && ea != eb then Link(o, ea) + Link(o, eb) else 0.0
  }

  /** By how much the squared distance exceeds Jiang-Conrath. */
  ghost function Excess(o: Ontology, pa: seq<string>, pb: seq<string>): real
    requires pa != [] && pb != [] && (forall k :: k in pa ==> k in o) && forall k :: k in pb ==> k in o
  {
    var i, j := MeetAt(pa, pb), MeetAt(pb, pa);
    Loss(o, pa, i) + Loss(o, pb, j) + Seam(o, pa, pb) + if Meet(pa, pb) then IcOf(o, pa[i]) - IcOf(o, pb[j]) else 0.0
  }

  lemma StretchOf(o: Ontology, pa: seq<string>, pb: seq<string>, w: string -> real)
    requires (forall k :: k in pa ==> k in o) && (forall k :: k in pb ==> k in o)
    requires ClosedPath(o, pa) && ClosedPath(o, pb)
    requires forall k :: w(k) == Link(o, k)
    ensures var i := MeetAt(pa, pb); var eb := pb[|pb| - 1];
            SumSet(Linked(pa) - Linked(pb), w) == IcOf(o, pa[0]) - IcOf(o, pa[i]) + Loss(o, pa, i) +
              if Meet(pa, pb) && pa[|pa| - 1] != eb then Link(o, eb) else 0.0
  {
    var i, ea, eb := MeetAt(pa, pb), pa[|pa| - 1], pb[|pb| - 1];
    PrivateLinks(o, pa, pb);
    StretchWeighs(o, pa, i, w);
    SumWith(ToSet(pa[..i]), eb, Meet(pa, pb) && ea != eb, w);
  }

  lemma SumWith(s: set<string>, x: string, more: bool, w: string -> real)
    requires x !in s
    ensures SumSet(s + (if more then {x} else {}), w) == SumSet(s, w) + if more then w(x) else 0.0
  {
    if more {
      SumSetPick(s + {x}, w, x);
      assert s + {x} - {x} == s;
    } else {
      assert s + {} == s;
    }
  }

  /**
   * For any two synsets of any ontology, cycles or not, the squared distance exceeds Jiang-Conrath, less the content
   * at the two ends when the climbs never meet, by what clipping hides before the meeting, the two links at the seam
   * of a cycle both climbs enter, and the difference between the two nodes each climb first meets the other at.
   */
  lemma DistanceAnywhere(o: Ontology, sqrt: real -> real, a: string, b: string)
    requires a in o && b in o && Registry(o) && IsSqrt(sqrt)
    ensures SqDist(SparseVec(o, sqrt, a), SparseVec(o, sqrt, b)) ==
            JcMeeting(o, a, b) + Excess(o, TreePath(o, a), TreePath(o, b))
  {
    var w := k => Link(o, k);
    DistanceOfPaths(o, sqrt, a, b, w);
    TreePathCloses(o, a);
    TreePathCloses(o, b);
    BothStretches(o, TreePath(o, a), TreePath(o, b), w);
    MeetingContent(o, a, b);
  }

  lemma BothStretches(o: Ontology, pa: seq<string>, pb: seq<string>, w: string -> real)
    requires (forall k :: k in pa ==> k in o) && (forall k :: k in pb ==> k in o)
    requires ClosedPath(o, pa) && ClosedPath(o, pb)
    requires forall k :: w(k) == Link(o, k)
    ensures var i, j := MeetAt(pa, pb), MeetAt(pb, pa);
            SumSet(Linked(pa) - Linked(pb), w) + SumSet(Linked(pb) - Linked(pa), w) ==
              IcOf(o, pa[0]) - IcOf(o, pa[i]) + IcOf(o, pb[0]) - IcOf(o, pb[j])
              + Loss(o, pa, i) + Loss(o, pb, j) + Seam(o, pa, pb)
  {
    StretchOf(o, pa, pb, w);
    StretchOf(o, pb, pa, w);
    assert Meet(pa, pb) <==> Meet(pb, pa);
  }

  lemma MeetingContent(o: Ontology, a: string, b: string)
    requires a in o && b in o && Registry(o)
    ensures var pa, pb := TreePath(o, a), TreePath(o, b);
            JcMeeting(o, a, b) == IcOf(o, a) + IcOf(o, b) - MeetContent(o, pa, pb)
  {
    LcsIsMeet(o, a, b);
    MeetingFrom(o, a, b, TreePath(o, a), TreePath(o, b));
  }

  lemma MeetingFrom(o: Ontology, a: string, b: string, pa: seq<string>, pb: seq<string>)
    requires a in o && b in o && pa == TreePath(o, a) && pb == TreePath(o, b)
    requires TreeLcs(o, a, b) == if Meet(pa, pb) then Some(pa[MeetAt(pa, pb)]) else None
    ensures JcMeeting(o, a, b) == IcOf(o, a) + IcOf(o, b) - MeetContent(o, pa, pb)
  {
    if Meet(pa, pb) {
      assert TreeLcsIc(o, a, b) == IcOf(o, pa[MeetAt(pa, pb)]);
    } else {
      ApartContent(o, pa, pb);
      assert TreeLcsIc(o, a, b) == 0.0;
    }
  }

  /** The content the distance leaves out: twice that of the meeting, or that of the two ends. */
  ghost function MeetContent(o: Ontology, pa: seq<string>, pb: seq<string>): real
    requires pa != [] && pb != [] && (forall k :: k in pa ==> k in o) && forall k :: k in pb ==> k in o
  {
    var i, j := MeetAt(pa, pb), MeetAt(pb, pa);
    IcOf(o, pa[i]) + if Meet(pa, pb) then IcOf(o, pa[i]) else IcOf(o, pb[j])
  }

  lemma ApartContent(o: Ontology, pa: seq<string>, pb: seq<string>)
    requires pa != [] && pb != [] && (forall k :: k in pa ==> k in o) && forall k :: k in pb ==> k in o
    requires !Meet(pa, pb)
    ensures pa[|pa| - 1] in o && pb[|pb| - 1] in o
    ensures MeetContent(o, pa, pb) == IcOf(o, pa[|pa| - 1]) + IcOf(o, pb[|pb| - 1])
  {
    ApartMeetNowhere(pa, pb);
    ApartMeetNowhere(pb, pa);
    assert pa[|pa| - 1] in pa && pb[|pb| - 1] in pb;
  }

  lemma LcsIsMeet(o: Ontology, a: string, b: string)
    requires a in o && b in o && Registry(o)
    ensures var pa, pb := TreePath(o, a), TreePath(o, b);
            TreeLcs(o, a, b) == if Meet(pa, pb) then Some(pa[MeetAt(pa, pb)]) else None
  {
    SharedIsMeet(o, TreePath(o, a), TreePath(o, b));
  }

  lemma ApartMeetNowhere(pa: seq<string>, pb: seq<string>)
    requires pa != [] && !Meet(pa, pb)
    ensures MeetAt(pa, pb) == |pa| - 1 && !Meet(pb, pa)
  {
    assert pa[MeetAt(pa, pb)] in pa;
  }

  /** So it is exact exactly when there is no excess. */
  lemma ExactAnywhere(o: Ontology, sqrt: real -> real, a: string, b: string)
    requires a in o && b in o && Registry(o) && IsSqrt(sqrt)
    ensures SqDist(SparseVec(o, sqrt, a), SparseVec(o, sqrt, b)) == JcMeeting(o, a, b) <==>
            Excess(o, TreePath(o, a), TreePath(o, b)) == 0.0
  {
    DistanceAnywhere(o, sqrt, a, b);
  }

  /** Paths that run on alike meet each other at one node and stop at one node. */
  lemma AlikeMeetOnce(pa: seq<string>, pb: seq<string>)
    requires pa != [] && pb != [] && Alike(pa, pb) && Meet(pa, pb)
    ensures pa[MeetAt(pa, pb)] == pb[MeetAt(pb, pa)] && pa[|pa| - 1] == pb[|pb| - 1]
  {
    var i, j := MeetAt(pa, pb), MeetAt(pb, pa);
    var j' :| 0 <= j' < |pb| && pb[j'] == pa[i];
    var i' :| 0 <= i' < |pa| && pa[i'] == pb[j];
    SameEnd(pa, pb, i, j');
    SameEnd(pa, pb, i', j);
  }

  lemma SameEnd(pa: seq<string>, pb: seq<string>, i: nat, j: nat)
    requires i < |pa| && j < |pb| && pa[i..] == pb[j..]
    ensures |pa| - i == |pb| - j && pa[|pa| - 1] == pb[|pb| - 1]
  {
    assert |pa[i..]| == |pa| - i && |pb[j..]| == |pb| - j;
    assert pa[i..][|pa| - i - 1] == pb[j..][|pb| - j - 1];
  }

  lemma UnclippedIsLossless(o: Ontology, pa: seq<string>, pb: seq<string>)
    requires (forall k :: k in pa ==> k in o) && (forall k :: k in pb ==> k in o)
    requires ClosedPath(o, pa) && ClosedPath(o, pb)
    ensures Unclipped(o, pa, pb) <==> Loss(o, pa, MeetAt(pa, pb)) == 0.0
  {
    var i := MeetAt(pa, pb);
    LossIsNone(o, pa, i);
    forall t: nat | t < |pa| - 1
      ensures pa[t] !in pb <==> t < i
    {
      if i <= t && pa[i] in pb {
        SharedOn(o, pa, pb, i, t);
      }
    }
  }

  /**
   * For two synsets whose climbs run on alike from where they meet, whatever cycles there are elsewhere: the squared
   * distance is never below Jiang-Conrath, and equals it exactly when no link on one climb only is clipped.
   */
  lemma ExactForPair(o: Ontology, sqrt: real -> real, a: string, b: string)
    requires a in o && b in o && Registry(o) && IsSqrt(sqrt) && RunAlike(o, a, b)
    ensures SqDist(SparseVec(o, sqrt, a), SparseVec(o, sqrt, b)) >= JcMeeting(o, a, b)
    ensures SqDist(SparseVec(o, sqrt, a), SparseVec(o, sqrt, b)) == JcMeeting(o, a, b) <==> NoneClipped(o, a, b)
  {
    DistanceAnywhere(o, sqrt, a, b);
    TreePathCloses(o, a);
    TreePathCloses(o, b);
    AlikeExcess(o, TreePath(o, a), TreePath(o, b));
  }

  /** Where two paths run on alike the excess is what clipping hides on their private links, and nothing else. */
  lemma AlikeExcess(o: Ontology, pa: seq<string>, pb: seq<string>)
    requires (forall k :: k in pa ==> k in o) && (forall k :: k in pb ==> k in o)
    requires ClosedPath(o, pa) && ClosedPath(o, pb) && Alike(pa, pb)
    ensures Excess(o, pa, pb) >= 0.0
    ensures Excess(o, pa, pb) == 0.0 <==> Unclipped(o, pa, pb) && Unclipped(o, pb, pa)
  {
    UnclippedIsLossless(o, pa, pb);
    UnclippedIsLossless(o, pb, pa);
    LossIsNone(o, pa, MeetAt(pa, pb));
    LossIsNone(o, pb, MeetAt(pb, pa));
    if Meet(pa, pb) {
      AlikeMeetOnce(pa, pb);
    }
  }

  // ---- where content never rises on the way up, on any ontology ----

  /** Up a path content never rises. */
  lemma {:induction false} FallsAlong(o: Ontology, path: seq<string>, i: nat, j: nat)
    requires i <= j < |path| && (forall k :: k in path ==> k in o) && Chained(o, path) && Monotone(o)
    ensures path[i] in o && path[j] in o && IcOf(o, path[j]) <= IcOf(o, path[i])
    decreases j - i
  {
    assert path[i] in path && path[j] in path;
    if i < j {
      FallsAlong(o, path, i + 1, j);
      assert CanonicalParent(o, path[i]) == Some(path[i + 1]) && !Falls(o, path[i]);
    }
  }

  lemma MonotoneIsLossless(o: Ontology, path: seq<string>, n: nat)
    requires n < |path| && (forall k :: k in path ==> k in o) && Chained(o, path) && Monotone(o)
    ensures Loss(o, path, n) == 0.0
  {
    LossIsNone(o, path, n);
    forall i | 0 <= i < n
      ensures IcOf(o, path[i + 1]) <= IcOf(o, path[i])
    {
      FallsAlong(o, path, i, i + 1);
    }
  }

  /** The node each path first meets the other at is no higher than the other's. */
  lemma MeetsLevel(o: Ontology, pa: seq<string>, pb: seq<string>)
    requires (forall k :: k in pa ==> k in o) && (forall k :: k in pb ==> k in o)
    requires ClosedPath(o, pa) && ClosedPath(o, pb)
    requires Monotone(o) && Meet(pa, pb)
    ensures IcOf(o, pb[MeetAt(pb, pa)]) <= IcOf(o, pa[MeetAt(pa, pb)])
  {
    var i, j := MeetAt(pa, pb), MeetAt(pb, pa);
    var t :| 0 <= t < |pa| && pa[t] == pb[j];
    FallsAlong(o, pa, i, t);
  }

  /** Where two paths stop at different nodes of one cycle, the last link of either weighs nothing. */
  lemma SeamWeighsNothing(o: Ontology, pa: seq<string>, pb: seq<string>)
    requires (forall k :: k in pa ==> k in o) && (forall k :: k in pb ==> k in o)
    requires ClosedPath(o, pa) && ClosedPath(o, pb)
    requires Monotone(o) && Meet(pa, pb) && pa[|pa| - 1] != pb[|pb| - 1]
    ensures Link(o, pa[|pa| - 1]) == 0.0
  {
    var ea, eb := pa[|pa| - 1], pb[|pb| - 1];
    EndsShared(o, pa, pb);
    var t: nat :| t < |pb| && pb[t] == ea;
    var u: nat :| u < |pa| && pa[u] == eb;
    SeamAt(o, pa, pb, u, t);
  }

  lemma EndsShared(o: Ontology, pa: seq<string>, pb: seq<string>)
    requires (forall k :: k in pa ==> k in o) && (forall k :: k in pb ==> k in o)
    requires ClosedPath(o, pa) && ClosedPath(o, pb)
    requires Meet(pa, pb)
    ensures pb[|pb| - 1] in pa && pa[|pa| - 1] in pb
  {
    EndIsShared(o, pa, pb);
    assert Meet(pb, pa);
    EndIsShared(o, pb, pa);
  }

  lemma SeamAt(o: Ontology, pa: seq<string>, pb: seq<string>, u: nat, t: nat)
    requires (forall k :: k in pa ==> k in o) && (forall k :: k in pb ==> k in o)
    requires Chained(o, pa) && Chained(o, pb) && Monotone(o)
    requires u < |pa| && t < |pb| - 1 && pb[t] == pa[|pa| - 1] && pa[u] == pb[|pb| - 1]
    ensures Link(o, pb[t]) == 0.0
  {
    FallsAlong(o, pa, u, |pa| - 1);
    FallsAlong(o, pb, t + 1, |pb| - 1);
    FallsAlong(o, pb, t, t + 1);
    LevelLink(o, pb, t);
  }

  lemma LevelLink(o: Ontology, path: seq<string>, t: nat)
    requires t < |path| - 1 && (forall k :: k in path ==> k in o) && Chained(o, path) && Monotone(o)
    requires path[t] in o && path[t + 1] in o && IcOf(o, path[t + 1]) >= IcOf(o, path[t])
    ensures Link(o, path[t]) == 0.0
  {
    LinkOnPath(o, path, t);
  }

  lemma NoExcess(o: Ontology, pa: seq<string>, pb: seq<string>)
    requires (forall k :: k in pa ==> k in o) && (forall k :: k in pb ==> k in o)
    requires ClosedPath(o, pa) && ClosedPath(o, pb)
    requires Monotone(o)
    ensures Excess(o, pa, pb) == 0.0
  {
    MonotoneIsLossless(o, pa, MeetAt(pa, pb));
    MonotoneIsLossless(o, pb, MeetAt(pb, pa));
    if Meet(pa, pb) {
      assert Meet(pb, pa);
      MeetsLevel(o, pa, pb);
      MeetsLevel(o, pb, pa);
      if pa[|pa| - 1] != pb[|pb| - 1] {
        SeamWeighsNothing(o, pa, pb);
        SeamWeighsNothing(o, pb, pa);
      }
    }
  }

  /** There the coordinate is exact for every two synsets, cycles or not. */
  lemma MonotoneIsExact(o: Ontology, sqrt: real -> real, a: string, b: string)
    requires a in o && b in o && Registry(o) && IsSqrt(sqrt) && Monotone(o)
    ensures SqDist(SparseVec(o, sqrt, a), SparseVec(o, sqrt, b)) == JcMeeting(o, a, b)
  {
    TreePathCloses(o, a);
    TreePathCloses(o, b);
    NoExcess(o, TreePath(o, a), TreePath(o, b));
    DistanceAnywhere(o, sqrt, a, b);
  }

  lemma PairPath(o: Ontology, s: string, p: string)
    requires Registry(o) && s in o && p in o && s != p
    requires o[s].hyper + o[s].inst == [p] && o[p].hyper + o[p].inst == [s]
    ensures TreePath(o, s) == [s, p]
  {
    assert [p][1..] == [] && [s][1..] == [];
    assert Held(o, [p]) == [p] && Held(o, [s]) == [s];
    assert CanonicalParent(o, s) == Some(p) && CanonicalParent(o, p) == Some(s);
    assert WalkUp(o, p, {s} + {p}) == [p];
  }

  /**
   * Two synsets above each other, for which the claim fails, do not run on alike: each climb stops short of its
   * start.
   */
  lemma CycleRunsApart(o: Ontology)
    requires o == map["a" := Node("a", ["b"], [], Some(1.0)), "b" := Node("b", ["a"], [], Some(0.0))]
    ensures Registry(o) && TreePath(o, "a") == ["a", "b"] && TreePath(o, "b") == ["b", "a"] && !RunAlike(o, "a", "b")
  {
    assert o["a"].hyper + o["a"].inst == ["b"] && o["b"].hyper + o["b"].inst == ["a"];
    PairPath(o, "a", "b");
    PairPath(o, "b", "a");
    var pa, pb := TreePath(o, "a"), TreePath(o, "b");
    assert pa[0] == pb[1] && |pa[0..]| != |pb[1..]|;
  }
}
