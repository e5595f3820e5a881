/** Where a lineage ends: exactly when the root, which every type inherits, is the last type listed. */
module RootEnds {
  import opened Graphs
  import opened TypeLineage

  ghost predicate EndsAtRoot(out: seq<string>) {
    out != [] && out[|out| - 1] == ROOT
  }

  // ---- one declared parent each, and a root that inherits nothing declared: always ----

  ghost predicate OneLine(g: Graph) {
    OneParent(g) && forall p :: !Step(g, ROOT, p)
  }

  /** The root, once listed, is last. */
  ghost predicate RootLast(out: seq<string>) {
    ROOT in out ==> EndsAtRoot(out)
  }

  lemma {:induction false} WalkEndsLine(g: Graph, c: string, depth: nat, w: Walked)
    requires depth <= MAX_DEPTH + 1 && OneLine(g) && ROOT !in w.out
    ensures RootLast(Walk(g, c, depth, w).out)
    decreases MAX_DEPTH + 1 - depth, 0
  {
    if c !in w.seen && depth <= MAX_DEPTH && c in g {
      var met := Meet(g, c, w);
      if c == ROOT {
        forall p | p in g[c]
          ensures p !in g
        {
          assert !Step(g, ROOT, p);
        }
        NothingNew(g, g[c], depth + 1, met);
      } else {
        WalkAllEndsLine(g, c, g[c], depth + 1, met);
      }
    }
  }

  lemma {:induction false} WalkAllEndsLine(g: Graph, a: string, cs: seq<string>, depth: nat, w: Walked)
    requires depth <= MAX_DEPTH + 1 && OneLine(g) && ROOT !in w.out && a in g && forall p :: p in cs ==> p in g[a]
    ensures RootLast(WalkAll(g, cs, depth, w).out)
    decreases MAX_DEPTH + 1 - depth, 1 + |cs|
  {
    if cs != [] {
      var p, next := cs[0], Walk(g, cs[0], depth, w);
      assert p in cs && forall q :: q in cs[1..] ==> q in cs;
      if p in g {
        WalkEndsLine(g, p, depth, w);
        WalkGrows(g, p, depth, w);
        forall q | q in cs[1..] && q in g
          ensures q == p
        {
          assert Step(g, a, p) && Step(g, a, q);
        }
        NothingNew(g, cs[1..], depth, next);
      } else {
        WalkAllEndsLine(g, a, cs[1..], depth, next);
      }
    }
  }

  /** Whatever the type, declared or not, and wherever an ancestor names the root. */
  lemma OneLineEndsAtRoot(g: Graph, c: string)
    requires OneLine(g) && ROOT in g
    ensures EndsAtRoot(Ancestry(g, c).out)
  {
    var own, kin := Walk(g, c, 0, NOTHING), Kin(g, c);
    LineageShape(g, c);
    WalkEndsLine(g, c, 0, NOTHING);
    WalkEndsLine(g, Category(c), 0, Walked([], own.seen, own.refused));
    RootPlace(g, c);
    if ROOT !in kin.out {
      forall p | p in g[ROOT]
        ensures p !in g
      {
        assert !Step(g, ROOT, p);
      }
    }
  }

  // ---- any number of parents: exactly when ----

  /** The declared types at or above `c`. */
  ghost function UpSet(g: Graph, c: string): set<string> {
    set x | x in g && AtOrAbove(g, c, x)
  }

  ghost function UpSets(g: Graph, ps: seq<string>): set<string> {
    if ps == [] then {} else UpSet(g, ps[0]) + UpSets(g, ps[1..])
  }

  lemma {:induction false} UpSetsHas(g: Graph, ps: seq<string>, x: string)
    ensures x in UpSets(g, ps) <==> exists p :: p in ps && x in UpSet(g, p)
  {
    if ps != [] {
      UpSetsHas(g, ps[1..], x);
      assert forall p :: p in ps <==> p == ps[0] || p in ps[1..];
    }
  }

  lemma UpSetSplits(g: Graph, c: string)
    requires c in g
    ensures UpSet(g, c) == {c} + UpSets(g, g[c])
  {
    forall x
      ensures x in UpSet(g, c) <==> x == c || x in UpSets(g, g[c])
    {
      UpSetsHas(g, g[c], x);
      if x in UpSet(g, c) && x != c {
        var k: nat :| k > 0 && ReachesIn(g, c, x, k);
        var m :| Step(g, c, m) && ReachesIn(g, m, x, k - 1);
        assert k > 1 ==> Reaches(g, m, x);
        assert x in UpSet(g, m);
      }
      if p :| p in g[c] && x in UpSet(g, p) {
        if p in g {
          StepReaches(g, c, p);
          if p != x {
            ReachesTrans(g, c, p, x);
          }
        } else if p != x {
          ReachesKeys(g, p, x);
        }
      }
    }
  }

  /**
   * Given what is listed before it, the walk from `c` lists the root last. Parents that do not come to the root may
   * list what they like. After the first that does, and in which the root is last, there must be nothing new.
   */
  ghost predicate Ends(g: Graph, c: string, before: set<string>)
    requires Acyclic(g) && c in g
    decreases |Above(g, c)|, 1, 0
  {
    if c == ROOT then UpSets(g, g[c]) <= before else EndsAmong(g, c, g[c], before + {c})
  }

  ghost predicate EndsAmong(g: Graph, c: string, ps: seq<string>, before: set<string>)
    requires Acyclic(g) && c in g && forall p :: p in ps ==> p in g[c]
    decreases |Above(g, c)|, 0, |ps|
  {
    ps != [] &&
    var p := ps[0];
    if p !in g || ROOT !in UpSet(g, p) then EndsAmong(g, c, ps[1..], before + UpSet(g, p))
    else
      AboveShrinks(g, c, p);
      Ends(g, p, before) && UpSets(g, ps[1..]) <= before + UpSet(g, p)
  }

  /** All that is above a type seen was seen, but for the types the walk is still inside of. */
  ghost predicate Closed(g: Graph, inside: set<string>, w: Walked) {
    forall x :: x in Known(g, w) && x !in inside ==> UpSet(g, x) <= w.seen
  }

  /** The walk has come `depth` links up from `start`, to `c`, through the types it is inside of. */
  ghost predicate Inside(g: Graph, start: string, inside: set<string>, c: string, depth: nat) {
    ReachesIn(g, start, c, depth) && forall s :: s in inside ==> Reaches(g, s, c)
  }

  lemma InsideParent(g: Graph, start: string, inside: set<string>, c: string, p: string, depth: nat)
    requires Inside(g, start, inside, c, depth) && Step(g, c, p)
    ensures Inside(g, start, inside + {c}, p, depth + 1)
  {
    assert ReachesIn(g, p, p, 0);
    assert ReachesIn(g, c, p, 1);
    ReachesInTrans(g, start, c, p, depth, 1);
    StepReaches(g, c, p);
    forall s | s in inside + {c}
      ensures Reaches(g, s, p)
    {
      if s != c {
        ReachesTrans(g, s, c, p);
      }
    }
  }

  lemma {:induction false} WalkCloses(g: Graph, start: string, inside: set<string>, c: string, depth: nat, w: Walked)
    requires Acyclic(g) && Shallow(g, start) && depth <= MAX_DEPTH + 1 && Closed(g, inside, w)
    requires c in g ==> Inside(g, start, inside, c, depth)
    ensures var t := Walk(g, c, depth, w);
            Closed(g, inside, t) && Known(g, t) == Known(g, w) + UpSet(g, c)
    decreases MAX_DEPTH + 1 - depth, 0
  {
    if c !in g {
      NothingAboveUndeclared(g, c);
    } else if c in w.seen {
      assert c !in inside;
    } else {
      assert depth <= MAX_DEPTH;
      UpSetSplits(g, c);
      WalkAllCloses(g, start, inside, c, g[c], depth, Meet(g, c, w));
    }
  }

  lemma NothingAboveUndeclared(g: Graph, c: string)
    requires c !in g
    ensures UpSet(g, c) == {}
  {
    forall x | x in UpSet(g, c)
      ensures false
    {
      ReachesKeys(g, c, x);
    }
  }

  lemma {:induction false} WalkAllCloses(g: Graph, start: string, inside: set<string>, c: string, ps: seq<string>,
                                         depth: nat, w: Walked)
    requires Acyclic(g) && Shallow(g, start) && depth <= MAX_DEPTH && Closed(g, inside + {c}, w)
    requires c in g && Inside(g, start, inside, c, depth) && forall p :: p in ps ==> p in g[c]
    ensures var t := WalkAll(g, ps, depth + 1, w);
            Closed(g, inside + {c}, t) && Known(g, t) == Known(g, w) + UpSets(g, ps)
    decreases MAX_DEPTH - depth, 1 + |ps|
  {
    if ps != [] {
      var p := ps[0];
      assert p in ps && forall q :: q in ps[1..] ==> q in ps;
      if p in g {
        InsideParent(g, start, inside, c, p, depth);
      }
      WalkCloses(g, start, inside + {c}, p, depth + 1, w);
      WalkAllCloses(g, start, inside, c, ps[1..], depth, Walk(g, p, depth + 1, w));
    }
  }

  /** A longer list of distinct types that held the root already ends elsewhere; one with nothing new is the same. */
  lemma ListGrows(g: Graph, w: Walked, t: Walked)
    requires Listed(g, w) && Listed(g, t) && w.out <= t.out
    ensures t.out != w.out && ROOT in w.out ==> !EndsAtRoot(t.out)
    ensures t.out == w.out <==> Known(g, t) <= Known(g, w)
  {
    assert forall x :: x in Known(g, t) <==> x in t.out;
    assert forall x :: x in Known(g, w) <==> x in w.out;
    if t.out != w.out {
      var x := t.out[|w.out|];
      assert x in t.out && x !in w.out;
      assert x in Known(g, t) && x !in Known(g, w);
      if ROOT in w.out {
        var i :| 0 <= i < |w.out| && w.out[i] == ROOT;
        assert t.out[i] == ROOT && i < |t.out| - 1;
      }
    }
  }

  lemma {:induction false} WalkEnds(g: Graph, start: string, inside: set<string>, c: string, depth: nat, w: Walked)
    requires Acyclic(g) && Shallow(g, start) && depth <= MAX_DEPTH + 1 && Closed(g, inside, w) && Listed(g, w)
    requires c in g && Inside(g, start, inside, c, depth) && c !in w.seen && ROOT !in w.seen && ROOT in UpSet(g, c)
    ensures EndsAtRoot(Walk(g, c, depth, w).out) <==> Ends(g, c, Known(g, w))
    decreases MAX_DEPTH + 1 - depth, 0
  {
    var met := Meet(g, c, w);
    MeetOne(g, c, w);
    if c == ROOT {
      RootWalkEnds(g, start, inside, depth, w);
    } else {
      UpSetSplits(g, c);
      WalkAllEnds(g, start, inside, c, g[c], depth, met);
    }
  }

  lemma MeetOne(g: Graph, c: string, w: Walked)
    requires c in g && Listed(g, w) && c !in w.seen
    ensures Listed(g, Meet(g, c, w)) && Known(g, Meet(g, c, w)) == Known(g, w) + {c}
  {
  }

  /** Walking the root lists it last exactly when all it inherits is listed before. */
  lemma RootWalkEnds(g: Graph, start: string, inside: set<string>, depth: nat, w: Walked)
    requires Acyclic(g) && Shallow(g, start) && depth <= MAX_DEPTH && Closed(g, inside, w) && Listed(g, w)
    requires ROOT in g && Inside(g, start, inside, ROOT, depth) && ROOT !in w.seen
    ensures EndsAtRoot(Walk(g, ROOT, depth, w).out) <==> UpSets(g, g[ROOT]) <= Known(g, w)
  {
    var met := Meet(g, ROOT, w);
    MeetRoot(g, w);
    WalkAllCloses(g, start, inside, ROOT, g[ROOT], depth, met);
    WalkAllGrows(g, g[ROOT], depth + 1, met);
    WalkLists(g, ROOT, depth, w);
    RootNotAbove(g);
    LastAfterRoot(g, met, Walk(g, ROOT, depth, w), Known(g, w), UpSets(g, g[ROOT]));
  }

  lemma LastAfterRoot(g: Graph, met: Walked, t: Walked, before: set<string>, above: set<string>)
    requires Listed(g, met) && Listed(g, t) && met.out <= t.out && EndsAtRoot(met.out) && ROOT in met.out
    requires Known(g, met) == before + {ROOT} && Known(g, t) == before + {ROOT} + above && ROOT !in above
    ensures EndsAtRoot(t.out) <==> above <= before
  {
    ListGrows(g, met, t);
  }

  lemma RootNotAbove(g: Graph)
    requires Acyclic(g) && ROOT in g
    ensures ROOT !in UpSets(g, g[ROOT])
  {
    UpSetsHas(g, g[ROOT], ROOT);
    if p :| p in g[ROOT] && ROOT in UpSet(g, p) {
      if p != ROOT {
        ReachesKeys(g, p, ROOT);
      }
      StepReaches(g, ROOT, p);
      if p != ROOT {
        ReachesTrans(g, ROOT, p, ROOT);
      }
    }
  }

  lemma {:induction false} WalkAllEnds(g: Graph, start: string, inside: set<string>, c: string, ps: seq<string>,
                                       depth: nat, w: Walked)
    requires Acyclic(g) && Shallow(g, start) && depth <= MAX_DEPTH && Closed(g, inside + {c}, w) && Listed(g, w)
    requires c in g && Inside(g, start, inside, c, depth) && (forall p :: p in ps ==> p in g[c])
    requires ROOT !in w.seen && ROOT in UpSets(g, ps)
    ensures EndsAtRoot(WalkAll(g, ps, depth + 1, w).out) <==> EndsAmong(g, c, ps, Known(g, w))
    decreases MAX_DEPTH - depth, 1 + |ps|
  {
    var p := ps[0];
    var next := Walk(g, p, depth + 1, w);
    FirstWalked(g, start, inside, c, ps, depth, w);
    if ROOT !in UpSet(g, p) {
      RootStillAhead(g, ps, w, next);
      EndsLater(g, c, ps, Known(g, w));
      WalkAllEnds(g, start, inside, c, ps[1..], depth, next);
    } else {
      FirstIsRootward(g, inside, c, ps, w);
      WalkEnds(g, start, inside + {c}, p, depth + 1, w);
      RestWalked(g, start, inside, c, ps, depth, w, next);
      EndsThere(g, c, ps, Known(g, w));
    }
  }

  lemma EndsLater(g: Graph, c: string, ps: seq<string>, before: set<string>)
    requires Acyclic(g) && c in g && ps != [] && (forall p :: p in ps ==> p in g[c]) && ROOT !in UpSet(g, ps[0])
    ensures forall p :: p in ps[1..] ==> p in g[c]
    ensures EndsAmong(g, c, ps, before) <==> EndsAmong(g, c, ps[1..], before + UpSet(g, ps[0]))
  {
    assert forall p :: p in ps[1..] ==> p in ps;
  }

  lemma EndsThere(g: Graph, c: string, ps: seq<string>, before: set<string>)
    requires Acyclic(g) && c in g && ps != [] && (forall p :: p in ps ==> p in g[c]) && ps[0] in g
    requires ROOT in UpSet(g, ps[0])
    ensures EndsAmong(g, c, ps, before) <==> Ends(g, ps[0], before) && UpSets(g, ps[1..]) <= before + UpSet(g, ps[0])
  {
    AboveShrinks(g, c, ps[0]);
  }

  lemma FirstWalked(g: Graph, start: string, inside: set<string>, c: string, ps: seq<string>, depth: nat, w: Walked)
    requires Acyclic(g) && Shallow(g, start) && depth <= MAX_DEPTH && Closed(g, inside + {c}, w) && Listed(g, w)
    requires c in g && Inside(g, start, inside, c, depth) && (forall p :: p in ps ==> p in g[c]) && ps != []
    ensures forall p :: p in ps[1..] ==> p in g[c]
    ensures ps[0] in g ==> Inside(g, start, inside + {c}, ps[0], depth + 1)
    ensures var next := Walk(g, ps[0], depth + 1, w);
            Closed(g, inside + {c}, next) && Known(g, next) == Known(g, w) + UpSet(g, ps[0]) && Listed(g, next)
  {
    var p := ps[0];
    assert p in ps && forall q :: q in ps[1..] ==> q in ps;
    if p in g {
      InsideParent(g, start, inside, c, p, depth);
    }
    WalkCloses(g, start, inside + {c}, p, depth + 1, w);
    WalkLists(g, p, depth + 1, w);
  }

  lemma FirstIsRootward(g: Graph, inside: set<string>, c: string, ps: seq<string>, w: Walked)
    requires Acyclic(g) && Closed(g, inside + {c}, w) && c in g && ps != [] && ps[0] in g[c]
    requires ps[0] in g ==> forall s :: s in inside + {c} ==> Reaches(g, s, ps[0])
    requires ROOT in UpSet(g, ps[0]) && ROOT !in w.seen
    ensures ps[0] in g && ps[0] !in w.seen && |Above(g, ps[0])| < |Above(g, c)|
  {
    var p := ps[0];
    assert p in g by {
      if p !in g {
        NothingAboveUndeclared(g, p);
      }
    }
    NotSeenYet(g, inside + {c}, p, w);
    AboveShrinks(g, c, p);
  }

  lemma RestWalked(g: Graph, start: string, inside: set<string>, c: string, ps: seq<string>, depth: nat, w: Walked,
                   next: Walked)
    requires Acyclic(g) && Shallow(g, start) && depth <= MAX_DEPTH && Closed(g, inside + {c}, next) && Listed(g, next)
    requires c in g && Inside(g, start, inside, c, depth) && ps != [] && (forall p :: p in ps[1..] ==> p in g[c])
    requires Known(g, next) == Known(g, w) + UpSet(g, ps[0]) && ROOT in UpSet(g, ps[0])
    ensures EndsAtRoot(WalkAll(g, ps[1..], depth + 1, next).out) <==>
              EndsAtRoot(next.out) && UpSets(g, ps[1..]) <= Known(g, w) + UpSet(g, ps[0])
  {
    WalkAllCloses(g, start, inside, c, ps[1..], depth, next);
    WalkAllLists(g, ps[1..], depth + 1, next);
    WalkAllGrows(g, ps[1..], depth + 1, next);
    RestAdds(g, w, next, WalkAll(g, ps[1..], depth + 1, next), ps[0], ps[1..]);
  }

  lemma RootStillAhead(g: Graph, ps: seq<string>, w: Walked, next: Walked)
    requires ps != [] && ROOT !in w.seen && ROOT in UpSets(g, ps) && ROOT !in UpSet(g, ps[0])
    requires Known(g, next) == Known(g, w) + UpSet(g, ps[0])
    ensures ROOT !in next.seen && ROOT in UpSets(g, ps[1..])
  {
    UpSetsHas(g, ps, ROOT);
    assert ROOT in g;
    assert ROOT !in Known(g, next);
  }

  lemma NotSeenYet(g: Graph, inside: set<string>, p: string, w: Walked)
    requires Acyclic(g) && p in g && Closed(g, inside, w) && (forall s :: s in inside ==> Reaches(g, s, p))
    requires ROOT in UpSet(g, p) && ROOT !in w.seen
    ensures p !in w.seen
  {
    assert p !in inside;
    assert p in w.seen ==> p in Known(g, w);
  }

  lemma RestAdds(g: Graph, w: Walked, next: Walked, t: Walked, p: string, rest: seq<string>)
    requires Listed(g, next) && Listed(g, t) && next.out <= t.out && ROOT in UpSet(g, p)
    requires Known(g, next) == Known(g, w) + UpSet(g, p) && Known(g, t) == Known(g, next) + UpSets(g, rest)
    ensures EndsAtRoot(t.out) <==> EndsAtRoot(next.out) && UpSets(g, rest) <= Known(g, w) + UpSet(g, p)
  {
    ListGrows(g, next, t);
    assert ROOT in Known(g, next);
    assert ROOT in next.out;
  }

  /** The type's own walk lists exactly what is at or above it. */
  lemma OwnWalk(g: Graph, c: string)
    requires c in g && Acyclic(g) && Shallow(g, c)
    ensures var own := Walk(g, c, 0, NOTHING);
            Kin(g, c) == own && Listed(g, own) && Closed(g, {}, own) && Known(g, own) == UpSet(g, c)
  {
    assert Known(g, NOTHING) == {};
    WalkAllGrows(g, g[c], 1, Meet(g, c, NOTHING));
    WalkCloses(g, c, {}, c, 0, NOTHING);
    WalkLists(g, c, 0, NOTHING);
  }

  lemma RootAboveEnds(g: Graph, c: string)
    requires c in g && Acyclic(g) && Shallow(g, c) && ROOT in UpSet(g, c)
    ensures EndsAtRoot(Ancestry(g, c).out) <==> Ends(g, c, {})
  {
    OwnWalk(g, c);
    assert Known(g, NOTHING) == {};
    WalkEnds(g, c, {}, c, 0, NOTHING);
    assert ROOT in Known(g, Kin(g, c));
  }

  lemma MeetRoot(g: Graph, w: Walked)
    requires ROOT in g && Listed(g, w) && ROOT !in w.seen
    ensures var met := Meet(g, ROOT, w);
            Listed(g, met) && Known(g, met) == Known(g, w) + {ROOT} && EndsAtRoot(met.out) && ROOT in met.out
  {
  }

  lemma RootAddedEnds(g: Graph, c: string)
    requires c in g && ROOT in g && Acyclic(g) && Shallow(g, c) && Shallow(g, ROOT) && ROOT !in UpSet(g, c)
    ensures EndsAtRoot(Ancestry(g, c).out) <==> UpSets(g, g[ROOT]) <= UpSet(g, c)
  {
    OwnWalk(g, c);
    assert ROOT !in Known(g, Kin(g, c));
    assert ReachesIn(g, ROOT, ROOT, 0);
    RootWalkEnds(g, ROOT, {}, 0, Kin(g, c));
  }

  /** When the root ends the lineage, read off what inherits what. */
  ghost predicate RootComesLast(g: Graph, c: string)
    requires Acyclic(g) && c in g && ROOT in g
  {
    if ROOT in UpSet(g, c) then Ends(g, c, {}) else UpSets(g, g[ROOT]) <= UpSet(g, c)
  }

  /**
   * Where nothing at or above the type or the root is above itself and no path of more than eight links leaves
   * either, the lineage of a declared type ends at the root exactly when: the root is not above the type, and all the
   * root inherits is; or the root is above the type, and the parents keep the order `Ends` describes.
   */
  lemma LineageEnds(g: Graph, c: string)
    requires c in g && ROOT in g
    requires var h := Part(g, c); Acyclic(h) && Shallow(h, c) && Shallow(h, ROOT)
    ensures ROOT in Part(g, c) && c in Part(g, c)
    ensures EndsAtRoot(Ancestry(g, c).out) <==> RootComesLast(Part(g, c), c)
  {
    var h := Part(g, c);
    AncestryOfPart(g, c);
    if ROOT in UpSet(h, c) {
      RootAboveEnds(h, c);
    } else {
      RootAddedEnds(h, c);
    }
  }
}
