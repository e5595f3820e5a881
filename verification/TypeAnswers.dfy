/** Which operation a type answers with: the doc promise, the first match over the lineage, and the merged table. */
module TypeAnswers {
  import opened Outcomes
  import opened Graphs
  import opened TypeLineage

  /** Who declares `op`, and as what. */
  function Declarers(reg: Registry, op: string): (has: map<string, OpSpec>)
    ensures has.Keys <= Declared(reg)
  {
    map c | c in Declared(reg) && op in Held(reg, c).operations :: Held(reg, c).operations[op]
  }

  function Held(reg: Registry, c: string): TypeDef
    requires c in Declared(reg)
  {
    if c in reg.cache then reg.cache[c] else reg.builtin[c]
  }

  function FirstMatch(has: map<string, OpSpec>, out: seq<string>): Option<OpSpec> {
    if out == [] then None else if out[0] in has then Some(has[out[0]]) else FirstMatch(has, out[1..])
  }

  function ResolveOperation(reg: Registry, ct: string, op: string): Option<OpSpec> {
    FirstMatch(Declarers(reg, op), Ancestry(Inherits(reg), NormalizeCt(ct)).out)
  }

  lemma {:induction false} FirstMatchAppend(has: map<string, OpSpec>, a: seq<string>, b: seq<string>)
    ensures FirstMatch(has, a + b) == if FirstMatch(has, a).Some? then FirstMatch(has, a) else FirstMatch(has, b)
  {
    if a == [] {
      assert a + b == b;
    } else {
      FirstMatchAppend(has, a[1..], b);
      assert (a + b)[1..] == a[1..] + b;
    }
  }

  // ---- the merged table, laid from the farthest ancestor to the type itself, answers the same ----

  /** `ops` answers for every name as the first match over `out` does. */
  ghost predicate Answers(reg: Registry, ops: map<string, OpSpec>, out: seq<string>) {
    forall op :: (if op in ops then Some(ops[op]) else None) == FirstMatch(Declarers(reg, op), out)
  }

  lemma LayOver(reg: Registry, ops: map<string, OpSpec>, out: seq<string>)
    requires out != [] && out[0] in Declared(reg) && Answers(reg, ops, out[1..])
    ensures Answers(reg, ops + Held(reg, out[0]).operations, out)
  {
    var own := Held(reg, out[0]).operations;
    forall op
      ensures (if op in ops + own then Some((ops + own)[op]) else None) == FirstMatch(Declarers(reg, op), out)
    {
      assert (if op in ops then Some(ops[op]) else None) == FirstMatch(Declarers(reg, op), out[1..]);
      assert out[0] in Declarers(reg, op) <==> op in own;
    }
  }

  method OperationsOf(reg: Registry, ct: string) returns (ops: map<string, OpSpec>)
    ensures forall op :: (if op in ops then Some(ops[op]) else None) == ResolveOperation(reg, ct, op)
  {
    var out := Ancestry(Inherits(reg), NormalizeCt(ct)).out;
    LineageShape(Inherits(reg), NormalizeCt(ct));
    ops := map[];
    var k := |out|;
    while k > 0
      invariant 0 <= k <= |out|
      invariant Answers(reg, ops, out[k..])
    {
      k := k - 1;
      assert out[k..][1..] == out[k + 1..] && out[k..][0] == out[k] && out[k] in out;
      LayOver(reg, ops, out[k..]);
      ops := ops + Held(reg, out[k]).operations;
    }
    assert out[0..] == out;
  }

  // What inheriting is meant to be: a type's own operation, else that of the first of its parents that has one

  ghost function Answer(g: Graph, has: map<string, OpSpec>, c: string): Option<OpSpec>
    requires Acyclic(g)
    decreases |Above(g, c)|, 1, 0
  {
    if c !in g then None else if c in has then Some(has[c]) else FirstAnswer(g, has, c, g[c])
  }

  ghost function FirstAnswer(g: Graph, has: map<string, OpSpec>, c: string, ps: seq<string>): Option<OpSpec>
    requires Acyclic(g) && c in g && forall p :: p in ps ==> p in g[c]
    decreases |Above(g, c)|, 0, |ps|
  {
    if ps == [] then None
    else
      var rest := FirstAnswer(g, has, c, ps[1..]);
      if ps[0] !in g then rest
      else
        AboveShrinks(g, c, ps[0]);
        var first := Answer(g, has, ps[0]);
        if first.Some? then first else rest
  }

  /** Nothing listed answers, and nothing seen answers but, perhaps, the types the walk is still inside of. */
  ghost predicate Silent(g: Graph, has: map<string, OpSpec>, inside: set<string>, w: Walked)
    requires Acyclic(g)
  {
    && FirstMatch(has, w.out) == None
    && forall x :: x in w.seen && x !in inside ==> Answer(g, has, x) == None
  }

  /** The walk's answer is `a`; if it has none, everything it saw is silent. */
  ghost predicate Gives(g: Graph, has: map<string, OpSpec>, inside: set<string>, t: Walked, a: Option<OpSpec>)
    requires Acyclic(g)
  {
    FirstMatch(has, t.out) == a && (a == None ==> Silent(g, has, inside, t))
  }

  lemma ListingOne(g: Graph, has: map<string, OpSpec>, inside: set<string>, c: string, w: Walked)
    requires Acyclic(g) && c in g && Silent(g, has, inside, w) && c !in w.seen
    ensures FirstMatch(has, Meet(g, c, w).out) == if c in has then Some(has[c]) else None
    ensures c !in has ==> Silent(g, has, inside + {c}, Meet(g, c, w))
  {
    FirstMatchAppend(has, w.out, [c]);
  }

  lemma StillGives(has: map<string, OpSpec>, w: Walked, t: Walked)
    requires w.out <= t.out && FirstMatch(has, w.out).Some?
    ensures FirstMatch(has, t.out) == FirstMatch(has, w.out)
  {
    FirstMatchAppend(has, w.out, t.out[|w.out|..]);
    assert t.out == w.out + t.out[|w.out|..];
  }

  lemma {:induction false} WalkAnswers(g: Graph, has: map<string, OpSpec>, start: string, inside: set<string>,
                                       c: string, depth: nat, w: Walked)
    requires Acyclic(g) && Shallow(g, start) && depth <= MAX_DEPTH + 1
    requires Silent(g, has, inside, w)
    requires c in g ==> ReachesIn(g, start, c, depth) && forall s :: s in inside ==> Reaches(g, s, c)
    ensures Gives(g, has, inside, Walk(g, c, depth, w), Answer(g, has, c))
    decreases MAX_DEPTH + 1 - depth, 0
  {
    if c in w.seen || c !in g {
      FirstMatchAppend(has, w.out, []);
    } else {
      assert depth <= MAX_DEPTH;
      var met := Meet(g, c, w);
      ListingOne(g, has, inside, c, w);
      if c in has {
        WalkAllGrows(g, g[c], depth + 1, met);
        StillGives(has, met, WalkAll(g, g[c], depth + 1, met));
      } else {
        WalkAllAnswers(g, has, start, inside + {c}, c, g[c], depth + 1, met);
      }
    }
  }

  lemma {:induction false} WalkAllAnswers(g: Graph, has: map<string, OpSpec>, start: string, inside: set<string>,
                                          c: string, ps: seq<string>, depth: nat, w: Walked)
    requires Acyclic(g) && Shallow(g, start) && 0 < depth <= MAX_DEPTH + 1
    requires c in g && ReachesIn(g, start, c, depth - 1) && (forall p :: p in ps ==> p in g[c])
    requires c in inside && (forall s :: s in inside && s != c ==> Reaches(g, s, c))
    requires Silent(g, has, inside, w)
    ensures Gives(g, has, inside, WalkAll(g, ps, depth, w), FirstAnswer(g, has, c, ps))
    decreases MAX_DEPTH + 1 - depth, 1 + |ps|
  {
    if ps != [] {
      var next := Walk(g, ps[0], depth, w);
      assert ps[0] in ps && forall p :: p in ps[1..] ==> p in ps;
      if ps[0] in g {
        AtParent(g, start, inside, c, ps[0], depth);
      }
      WalkAnswers(g, has, start, inside, ps[0], depth, w);
      if Answer(g, has, ps[0]) == None {
        WalkAllAnswers(g, has, start, inside, c, ps[1..], depth, next);
      } else {
        WalkAllGrows(g, ps[1..], depth, next);
        StillGives(has, next, WalkAll(g, ps[1..], depth, next));
      }
    }
  }

  lemma AtParent(g: Graph, start: string, inside: set<string>, c: string, p: string, depth: nat)
    requires depth > 0 && ReachesIn(g, start, c, depth - 1) && Step(g, c, p)
    requires forall s :: s in inside && s != c ==> Reaches(g, s, c)
    ensures ReachesIn(g, start, p, depth)
    ensures forall s :: s in inside ==> Reaches(g, s, p)
  {
    assert ReachesIn(g, p, p, 0);
    assert ReachesIn(g, c, p, 1);
    ReachesInTrans(g, start, c, p, depth - 1, 1);
    StepReaches(g, c, p);
    forall s | s in inside
      ensures Reaches(g, s, p)
    {
      if s != c {
        ReachesTrans(g, s, c, p);
      }
    }
  }

  /**
   * Where nothing above the type or the root is above itself, and no path of more than eight links leaves either,
   * an operation resolves to the type's own, else to that of the first of its parents, depth first, else to the
   * root's. What the rest of the registry looks like does not matter.
   */
  lemma OperationIsInherited(reg: Registry, ct: string, op: string)
    requires NormalizeCt(ct) in Declared(reg)
    requires var h := Part(Inherits(reg), NormalizeCt(ct));
             Acyclic(h) && Shallow(h, NormalizeCt(ct)) && Shallow(h, ROOT)
    ensures var h := Part(Inherits(reg), NormalizeCt(ct)); var has := Declarers(reg, op);
            var a := Answer(h, has, NormalizeCt(ct));
            ResolveOperation(reg, ct, op) == if a.Some? then a else Answer(h, has, ROOT)
  {
    var has, c := Declarers(reg, op), NormalizeCt(ct);
    var g := Part(Inherits(reg), c);
    AncestryOfPart(Inherits(reg), c);
    var own := Walk(g, c, 0, NOTHING);
    WalkAnswers(g, has, c, {}, c, 0, NOTHING);
    WalkAllGrows(g, g[c], 1, Meet(g, c, NOTHING));
    assert Kin(g, c) == own;
    WalkGrows(g, ROOT, 0, own);
    if Answer(g, has, c).Some? {
      StillGives(has, own, Ancestry(g, c));
    } else {
      WalkAnswers(g, has, ROOT, {}, ROOT, 0, own);
    }
  }
}
