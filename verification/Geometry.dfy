/** The canonical spanning tree of an ontology and the coordinates read off it. */
module Geometry {
  import opened Outcomes
  import opened Names
  import opened Sums
  import opened Graphs

  /** One synset object: the names it lists above itself, and its stored information content if any. */
  datatype Node = Node(name: string, hyper: seq<string>, inst: seq<string>, ic: Option<real>)

  /** Synset objects by identity. Where there is one object per name, the identity is the name (`Registry`). */
  type Ontology = map<string, Node>

  ghost predicate Registry(o: Ontology) {
    forall k :: k in o ==> o[k].name == k
  }

  function Up(o: Ontology): (g: Graph)
    ensures g.Keys == o.Keys
  {
    map k | k in o :: o[k].hyper + o[k].inst
  }

  /** An absent information content reads as zero. */
  function IcOf(o: Ontology, k: string): (c: real)
    requires k in o
    ensures o[k].ic == Some(c) || (o[k].ic == None && c == 0.0)
  {
    if o[k].ic.Some? then o[k].ic.value else 0.0
  }

  /** The listed names that resolve to an object. */
  function Held(o: Ontology, ks: seq<string>): (held: seq<string>)
    ensures forall k :: k in held <==> k in ks && k in o
  {
    if ks == [] then [] else (if ks[0] in o then [ks[0]] else []) + Held(o, ks[1..])
  }

  function Parents(o: Ontology, k: string): (ps: seq<string>)
    requires k in o
    ensures forall p :: p in ps <==> Step(Up(o), k, p)
  {
    Held(o, o[k].hyper + o[k].inst)
  }

  // ---- the canonical parent: highest information content, then greatest name, first of equals ----

  predicate KeyLe(o: Ontology, a: string, b: string)
    requires a in o && b in o
  {
    IcOf(o, a) < IcOf(o, b) || (IcOf(o, a) == IcOf(o, b) && StrLe(o[a].name, o[b].name))
  }

  function Best(o: Ontology, ps: seq<string>): (best: string)
    requires ps != [] && forall p :: p in ps ==> p in o
    ensures best in ps
  {
    if |ps| == 1 then ps[0]
    else
      var rest := Best(o, ps[1..]);
      if KeyLe(o, rest, ps[0]) then ps[0] else rest
  }

  lemma {:induction false} BestIsGreatest(o: Ontology, ps: seq<string>, p: string)
    requires p in ps && forall p :: p in ps ==> p in o
    ensures KeyLe(o, p, Best(o, ps))
  {
    StrLeRefl(o[p].name);
    if |ps| > 1 {
      var rest := Best(o, ps[1..]);
      StrLeTotal(o[rest].name, o[ps[0]].name);
      if p in ps[1..] {
        BestIsGreatest(o, ps[1..], p);
        if KeyLe(o, rest, ps[0]) && IcOf(o, p) == IcOf(o, rest) && IcOf(o, rest) == IcOf(o, ps[0]) {
          StrLeTrans(o[p].name, o[rest].name, o[ps[0]].name);
        }
      }
    }
  }

  function CanonicalParent(o: Ontology, k: string): (p: Option<string>)
    requires k in o
    ensures p == None <==> Parents(o, k) == []
    ensures p.Some? ==> Step(Up(o), k, p.value)
  {
    var ps := Parents(o, k);
    if ps == [] then None else Some(Best(o, ps))
  }

  /**
   * Of the parents listed under either heading none has more content than the canonical one, and none of equal content
   * a greater name; and where names are distinct it is the only such parent.
   */
  lemma CanonicalParentIsGreatest(o: Ontology, k: string, q: string)
    requires k in o && q in o && (q in o[k].hyper || q in o[k].inst)
    ensures CanonicalParent(o, k).Some?
    ensures var p := CanonicalParent(o, k).value;
            && p in o && (p in o[k].hyper || p in o[k].inst)
            && IcOf(o, q) <= IcOf(o, p)
            && (IcOf(o, q) == IcOf(o, p) ==> exists i: nat :: SortsAt(o[q].name, o[p].name, i))
            && (Registry(o) && q != p && IcOf(o, q) == IcOf(o, p) ==>
                  forall i: nat :: !SortsAt(o[p].name, o[q].name, i))
  {
    assert q in Parents(o, k);
    BestIsGreatest(o, Parents(o, k), q);
    var p := CanonicalParent(o, k).value;
    StrLeByCode(o[q].name, o[p].name);
    StrLeByCode(o[p].name, o[q].name);
    if Registry(o) && KeyLe(o, p, q) {
      StrLeAntisym(o[p].name, o[q].name);
    }
  }

  // ---- tree_path: climb canonical parents, stopping at a root or at a name already met ----

  ghost function AllNames(o: Ontology): set<string> {
    set k | k in o :: o[k].name
  }

  ghost function WalkUp(o: Ontology, cur: string, seen: set<string>): (path: seq<string>)
    requires cur in o
    ensures path != [] && path[0] == cur
    ensures forall k :: k in path ==> k in o
    decreases AllNames(o) - seen
  {
    var p := CanonicalParent(o, cur);
    if p == None || o[p.value].name in seen then [cur]
    else
      assert o[p.value].name in AllNames(o);
      [cur] + WalkUp(o, p.value, seen + {o[p.value].name})
  }

  ghost function TreePath(o: Ontology, s: string): seq<string>
    requires s in o
  {
    WalkUp(o, s, {o[s].name})
  }

  /** On an acyclic ontology nothing cuts the climb short. */
  ghost function Climb(o: Ontology, s: string): (path: seq<string>)
    requires s in o && Acyclic(Up(o))
    ensures path != [] && path[0] == s
    ensures forall k :: k in path ==> k in o
    decreases |Above(Up(o), s)|
  {
    var p := CanonicalParent(o, s);
    if p == None then [s]
    else
      AboveShrinks(Up(o), s, p.value);
      [s] + Climb(o, p.value)
  }

  lemma {:induction false} WalkIsClimb(o: Ontology, s: string, seen: set<string>)
    requires s in o && Registry(o) && Acyclic(Up(o))
    requires seen !! Above(Up(o), s)
    ensures WalkUp(o, s, seen) == Climb(o, s)
    decreases |Above(Up(o), s)|
  {
    var p := CanonicalParent(o, s);
    if p.Some? {
      AboveShrinks(Up(o), s, p.value);
      StepReaches(Up(o), s, p.value);
      assert p.value in Above(Up(o), s) && p.value !in Above(Up(o), p.value);
      WalkIsClimb(o, p.value, seen + {p.value});
    }
  }

  lemma TreePathIsClimb(o: Ontology, s: string)
    requires s in o && Registry(o) && Acyclic(Up(o))
    ensures TreePath(o, s) == Climb(o, s)
  {
    WalkIsClimb(o, s, {s});
  }

  /** The climb from a node holds only the node and what lies above it, and never repeats. */
  lemma {:induction false} ClimbMembers(o: Ontology, s: string, k: string)
    requires s in o && Acyclic(Up(o)) && k in Climb(o, s)
    ensures k == s || k in Above(Up(o), s)
    ensures forall j :: j in Climb(o, k) ==> j in Climb(o, s)
    decreases |Above(Up(o), s)|
  {
    var p := CanonicalParent(o, s);
    if p.Some? && k != s {
      AboveShrinks(Up(o), s, p.value);
      StepReaches(Up(o), s, p.value);
      ClimbMembers(o, p.value, k);
    }
  }

  // ---- the least common subsumer and the tree distance ----

  /** The first of `path`, read from the bottom, whose name is among `names`. */
  function FirstShared(o: Ontology, path: seq<string>, names: set<string>): (m: Option<string>)
    requires forall k :: k in path ==> k in o
    ensures m.Some? ==> m.value in path
  {
    if path == [] then None
    else if o[path[0]].name in names then Some(path[0])
    else FirstShared(o, path[1..], names)
  }

  ghost function PathNames(o: Ontology, path: seq<string>): set<string>
    requires forall k :: k in path ==> k in o
  {
    set k | k in path :: o[k].name
  }

  ghost function TreeLcs(o: Ontology, a: string, b: string): Option<string>
    requires a in o && b in o
  {
    FirstShared(o, TreePath(o, a), PathNames(o, TreePath(o, b)))
  }

  ghost function TreeLcsIc(o: Ontology, a: string, b: string): real
    requires a in o && b in o
  {
    var m := TreeLcs(o, a, b);
    if m.Some? then IcOf(o, m.value) else 0.0
  }

  ghost function JcTree(o: Ontology, a: string, b: string): real
    requires a in o && b in o
  {
    IcOf(o, a) + IcOf(o, b) - 2.0 * TreeLcsIc(o, a, b)
  }

  // ---- the sparse coordinate ----

  function EdgeWeight(o: Ontology, c: string, p: string): real
    requires c in o && p in o
  {
    var d := IcOf(o, c) - IcOf(o, p);
    if d > 0.0 then d else 0.0
  }

  /** `{c: sqrt(IC(c) - IC(p))}` over the links of a path, zero links left out. */
  function SparseOf(o: Ontology, sqrt: real -> real, path: seq<string>): map<string, real>
    requires forall k :: k in path ==> k in o
  {
    if |path| < 2 then map[]
    else
      var d := EdgeWeight(o, path[0], path[1]);
      (if d > 0.0 then map[o[path[0]].name := sqrt(d)] else map[]) + SparseOf(o, sqrt, path[1..])
  }

  ghost function SparseVec(o: Ontology, sqrt: real -> real, s: string): map<string, real>
    requires s in o
  {
    SparseOf(o, sqrt, TreePath(o, s))
  }

  function Get(v: map<string, real>, k: string): real {
    if k in v then v[k] else 0.0
  }

  function SqDiff(u: map<string, real>, v: map<string, real>, k: string): real {
    (Get(u, k) - Get(v, k)) * (Get(u, k) - Get(v, k))
  }

  ghost function SqDist(u: map<string, real>, v: map<string, real>): real {
    SumSet(u.Keys + v.Keys, k => SqDiff(u, v, k))
  }
}
