/** The type registry: which definition a content type resolves to, and what it inherits. */
module TypeLineage {
  import opened Outcomes
  import opened Names
  import opened Sums
  import opened Graphs

  datatype OpSpec = OpSpec(name: string, kind: string, target: string, grant: Option<string>)

  datatype TypeDef = TypeDef(contentType: string, operations: map<string, OpSpec>, inherits: seq<string>,
                             server: Option<string>)

  /** Two sources, one lookup: what personas registered, then what is built in. */
  datatype Registry = Registry(cache: map<string, TypeDef>, builtin: map<string, TypeDef>)

  const ROOT := "*/*"
  const MAX_DEPTH: nat := 8

  // ---- content types are compared without case, padding or parameters ----

  predicate Blank(c: char) {
    c == ' ' || c == '\t' || c == '\n' || c == '\r'
  }

  function StripLeft(s: string): (r: string)
    ensures |r| <= |s| && (r != "" ==> !Blank(r[0]))
  {
    if s != "" && Blank(s[0]) then StripLeft(s[1..]) else s
  }

  function StripRight(s: string): (r: string)
    ensures r <= s && (r != "" ==> !Blank(r[|r| - 1]))
  {
    if s != "" && Blank(s[|s| - 1]) then StripRight(s[..|s| - 1]) else s
  }

  function Strip(s: string): string {
    StripRight(StripLeft(s))
  }

  function BeforeSemicolon(s: string): (r: string)
    ensures r <= s && ';' !in r
  {
    if s == "" || s[0] == ';' then "" else [s[0]] + BeforeSemicolon(s[1..])
  }

  function NormalizeCt(ct: string): string {
    var c := Lower(Strip(ct));
    if ';' in c then Strip(BeforeSemicolon(c)) else c
  }

  predicate Plain(s: string) {
    && ';' !in s && Lower(s) == s
    && (s != "" ==> !Blank(s[0]) && !Blank(s[|s| - 1]))
  }

  lemma {:induction false} StripLeftChars(s: string)
    ensures forall c :: c in StripLeft(s) ==> c in s
  {
    if s != "" && Blank(s[0]) {
      StripLeftChars(s[1..]);
    }
  }

  lemma StripFacts(s: string)
    ensures var r := Strip(s);
            && (forall c :: c in r ==> c in s)
            && (r != "" ==> !Blank(r[0]) && !Blank(r[|r| - 1]))
  {
    StripLeftChars(s);
  }

  /** What normalising leaves is plain, and what is plain it leaves alone. */
  lemma NormalizeIsPlain(ct: string)
    ensures Plain(NormalizeCt(ct))
  {
    var r := Strip(ct);
    var c := Lower(r);
    StripFacts(ct);
    LowerFacts(r);
    if ';' in c {
      var b := BeforeSemicolon(c);
      StripFacts(b);
      LowerOfLower(Strip(b), c);
    }
  }

  lemma LowerFacts(r: string)
    ensures Lower(Lower(r)) == Lower(r)
    ensures forall k :: 0 <= k < |r| ==> (Blank(Lower(r)[k]) <==> Blank(r[k]))
  {
  }

  lemma LowerOfLower(s: string, c: string)
    requires Lower(c) == c && forall x :: x in s ==> x in c
    ensures Lower(s) == s
  {
    forall k | 0 <= k < |s|
      ensures LowerChar(s[k]) == s[k]
    {
      var x := s[k];
      assert x in s;
      assert x in c;
      var j :| 0 <= j < |c| && c[j] == x;
      assert Lower(c)[j] == LowerChar(x);
    }
  }

  lemma PlainIsNormal(s: string)
    requires Plain(s)
    ensures NormalizeCt(s) == s
  {
    assert StripLeft(s) == s && StripRight(s) == s;
  }

  // ---- resolve ----

  function Resolve(reg: Registry, ct: string): Option<TypeDef> {
    var c := NormalizeCt(ct);
    if c in reg.cache then Some(reg.cache[c]) else if c in reg.builtin then Some(reg.builtin[c]) else None
  }

  /** Definitions are filed under their own content type, normalised when parsed. */
  ghost predicate Filed(reg: Registry) {
    && (forall c :: c in reg.cache ==> reg.cache[c].contentType == c && Plain(c))
    && (forall c :: c in reg.builtin ==> reg.builtin[c].contentType == c && Plain(c))
  }

  function Declared(reg: Registry): set<string> {
    reg.cache.Keys + reg.builtin.Keys
  }

  function Normalized(cts: seq<string>): (n: seq<string>)
    ensures |n| == |cts| && forall k :: 0 <= k < |n| ==> n[k] == NormalizeCt(cts[k])
  {
    seq(|cts|, k requires 0 <= k < |cts| => NormalizeCt(cts[k]))
  }

  /** The `inherits` graph over declared types, each parent as `walk` normalises it. */
  function Inherits(reg: Registry): (g: Graph)
    ensures g.Keys == Declared(reg)
  {
    map c | c in Declared(reg) ::
      if c in reg.cache then Normalized(reg.cache[c].inherits) else Normalized(reg.builtin[c].inherits)
  }

  // ---- the inheritance walk: depth first, each type once, cut off below MAX_DEPTH ----

  /** What has been listed, what has been seen, and what was turned away for being too deep. */
  datatype Walked = Walked(out: seq<string>, seen: set<string>, refused: set<string>)

  const NOTHING := Walked([], {}, {})

  function Meet(g: Graph, c: string, w: Walked): Walked {
    w.(seen := w.seen + {c}, out := if c in g then w.out + [c] else w.out)
  }

  /** `walk` on one type, then on each it inherits from. */
  function Walk(g: Graph, c: string, depth: nat, w: Walked): Walked
    requires depth <= MAX_DEPTH + 1
    decreases MAX_DEPTH + 1 - depth, 0
  {
    if c in w.seen then w
    else if depth > MAX_DEPTH then w.(refused := w.refused + {c})
    else if c in g then WalkAll(g, g[c], depth + 1, Meet(g, c, w))
    else Meet(g, c, w)
  }

  function WalkAll(g: Graph, cs: seq<string>, depth: nat, w: Walked): Walked
    requires depth <= MAX_DEPTH + 1
    decreases MAX_DEPTH + 1 - depth, 1 + |cs|
  {
    if cs == [] then w else WalkAll(g, cs[1..], depth, Walk(g, cs[0], depth, w))
  }

  function Major(ct: string): string {
    if ct == "" || ct[0] == '/' then "" else [ct[0]] + Major(ct[1..])
  }

  predicate IsData(ct: string) {
    Major(ct) == "application" && ("application/vnd.agience." <= ct || (|ct| >= 5 && ct[|ct| - 5..] == "+json"))
  }

  function Category(c: string): string {
    NormalizeCt(Major(c) + "/*")
  }

  /** The walk before the root: the type's own, or for a type nothing declares its category's. */
  function Kin(g: Graph, c: string): Walked {
    var own := Walk(g, c, 0, NOTHING);
    if own.out == [] && '/' in c && !IsData(c) then Walk(g, Category(c), 0, own) else own
  }

  function Ancestry(g: Graph, c: string): Walked {
    Walk(g, ROOT, 0, Kin(g, c))
  }

  // ---- what every walk keeps ----

  ghost predicate Grown(w: Walked, t: Walked) {
    w.out <= t.out && w.seen <= t.seen && w.refused <= t.refused
  }

  lemma {:induction false} WalkGrows(g: Graph, c: string, depth: nat, w: Walked)
    requires depth <= MAX_DEPTH + 1
    ensures Grown(w, Walk(g, c, depth, w))
    ensures c in Walk(g, c, depth, w).seen || (depth > MAX_DEPTH && c in Walk(g, c, depth, w).refused)
    decreases MAX_DEPTH + 1 - depth, 0
  {
    if c !in w.seen && depth <= MAX_DEPTH && c in g {
      WalkAllGrows(g, g[c], depth + 1, Meet(g, c, w));
    }
  }

  lemma {:induction false} WalkAllGrows(g: Graph, cs: seq<string>, depth: nat, w: Walked)
    requires depth <= MAX_DEPTH + 1
    ensures Grown(w, WalkAll(g, cs, depth, w))
    ensures forall c :: c in cs ==> c in WalkAll(g, cs, depth, w).seen + WalkAll(g, cs, depth, w).refused
    decreases MAX_DEPTH + 1 - depth, 1 + |cs|
  {
    if cs != [] {
      WalkGrows(g, cs[0], depth, w);
      WalkAllGrows(g, cs[1..], depth, Walk(g, cs[0], depth, w));
    }
  }

  /** The list holds exactly the declared types seen, each once. */
  ghost predicate Listed(g: Graph, w: Walked) {
    Distinct(w.out) && forall c :: c in w.out <==> c in w.seen && c in g
  }

  lemma {:induction false} WalkLists(g: Graph, c: string, depth: nat, w: Walked)
    requires depth <= MAX_DEPTH + 1 && Listed(g, w)
    ensures Listed(g, Walk(g, c, depth, w))
    decreases MAX_DEPTH + 1 - depth, 0
  {
    if c !in w.seen && depth <= MAX_DEPTH {
      assert Listed(g, Meet(g, c, w));
      if c in g {
        WalkAllLists(g, g[c], depth + 1, Meet(g, c, w));
      }
    }
  }

  lemma {:induction false} WalkAllLists(g: Graph, cs: seq<string>, depth: nat, w: Walked)
    requires depth <= MAX_DEPTH + 1 && Listed(g, w)
    ensures Listed(g, WalkAll(g, cs, depth, w))
    decreases MAX_DEPTH + 1 - depth, 1 + |cs|
  {
    if cs != [] {
      WalkLists(g, cs[0], depth, w);
      WalkAllLists(g, cs[1..], depth, Walk(g, cs[0], depth, w));
    }
  }

  /** Every parent of a type seen since `before` was itself seen, or turned away. */
  ghost predicate Covered(g: Graph, before: set<string>, w: Walked) {
    forall a, p :: a in w.seen - before && Step(g, a, p) ==> p in w.seen + w.refused
  }

  lemma {:induction false} WalkCovers(g: Graph, c: string, depth: nat, w: Walked)
    requires depth <= MAX_DEPTH + 1
    ensures Covered(g, w.seen, Walk(g, c, depth, w))
    decreases MAX_DEPTH + 1 - depth, 0
  {
    if c !in w.seen && depth <= MAX_DEPTH && c in g {
      WalkAllGrows(g, g[c], depth + 1, Meet(g, c, w));
      WalkAllCovers(g, g[c], depth + 1, Meet(g, c, w));
    }
  }

  lemma {:induction false} WalkAllCovers(g: Graph, cs: seq<string>, depth: nat, w: Walked)
    requires depth <= MAX_DEPTH + 1
    ensures Covered(g, w.seen, WalkAll(g, cs, depth, w))
    decreases MAX_DEPTH + 1 - depth, 1 + |cs|
  {
    if cs != [] {
      var next := Walk(g, cs[0], depth, w);
      WalkCovers(g, cs[0], depth, w);
      WalkAllCovers(g, cs[1..], depth, next);
      WalkAllGrows(g, cs[1..], depth, next);
    }
  }

  /** `b` is `a` or above it. */
  ghost predicate AtOrAbove(g: Graph, a: string, b: string) {
    a == b || Reaches(g, a, b)
  }

  /** Nothing is seen or turned away that the walk could not reach, undeclared names aside. */
  ghost predicate Sound(g: Graph, from: string, w: Walked, t: Walked) {
    forall x :: x in g && x in (t.seen - w.seen) + (t.refused - w.refused) ==> AtOrAbove(g, from, x)
  }

  lemma {:induction false} WalkSound(g: Graph, from: string, c: string, depth: nat, w: Walked)
    requires depth <= MAX_DEPTH + 1 && (c in g ==> AtOrAbove(g, from, c))
    ensures Sound(g, from, w, Walk(g, c, depth, w))
    decreases MAX_DEPTH + 1 - depth, 0
  {
    if c !in w.seen && depth <= MAX_DEPTH && c in g {
      forall p | p in g[c] && p in g
        ensures AtOrAbove(g, from, p)
      {
        StepReaches(g, c, p);
        if from != c {
          ReachesTrans(g, from, c, p);
        }
      }
      WalkAllSound(g, from, g[c], depth + 1, Meet(g, c, w));
    }
  }

  lemma {:induction false} WalkAllSound(g: Graph, from: string, cs: seq<string>, depth: nat, w: Walked)
    requires depth <= MAX_DEPTH + 1 && forall c :: c in cs && c in g ==> AtOrAbove(g, from, c)
    ensures Sound(g, from, w, WalkAll(g, cs, depth, w))
    decreases MAX_DEPTH + 1 - depth, 1 + |cs|
  {
    if cs != [] {
      WalkSound(g, from, cs[0], depth, w);
      WalkAllSound(g, from, cs[1..], depth, Walk(g, cs[0], depth, w));
    }
  }

  // ---- the lineage ----

  /** Each type once, the type itself first when declared, the root always among them when declared. */
  lemma LineageShape(g: Graph, c: string)
    ensures Listed(g, Ancestry(g, c))
    ensures c in g ==> Ancestry(g, c).out != [] && Ancestry(g, c).out[0] == c
    ensures ROOT in g ==> ROOT in Ancestry(g, c).out
  {
    var own := Walk(g, c, 0, NOTHING);
    var kin := Kin(g, c);
    WalkLists(g, c, 0, NOTHING);
    WalkLists(g, Category(c), 0, own);
    WalkLists(g, ROOT, 0, kin);
    WalkGrows(g, ROOT, 0, kin);
    if c in g {
      WalkAllGrows(g, g[c], 1, Meet(g, c, NOTHING));
      assert kin == own;
    }
  }

  /**
   * The walk from the root: nothing is added when an ancestor named the root; else the root is, and it is the last
   * added exactly when every declared type it inherits is listed already or is the root itself.
   */
  lemma RootPlace(g: Graph, c: string)
    requires ROOT in g
    ensures var kin := Kin(g, c); var all := Ancestry(g, c);
            if ROOT in kin.out then all == kin
            else kin.out + [ROOT] <= all.out &&
                 (all.out == kin.out + [ROOT] <==> forall p :: p in g[ROOT] ==> p !in g || p in kin.out || p == ROOT)
  {
    var kin := Kin(g, c);
    KinLists(g, c);
    if ROOT !in kin.out {
      var met := Meet(g, ROOT, kin);
      WalkAllGrows(g, g[ROOT], 1, met);
      WalkAllMeets(g, g[ROOT], 1, met);
      WalkLists(g, ROOT, 0, kin);
      if forall p :: p in g[ROOT] ==> p !in g || p in kin.out || p == ROOT {
        NothingNew(g, g[ROOT], 1, met);
      } else {
        var p :| p in g[ROOT] && p in g && p !in kin.out && p != ROOT;
        assert p in Ancestry(g, c).out;
      }
    }
  }

  lemma KinLists(g: Graph, c: string)
    ensures Listed(g, Kin(g, c))
  {
    WalkLists(g, c, 0, NOTHING);
    WalkLists(g, Category(c), 0, Walk(g, c, 0, NOTHING));
  }

  /** Above the limit nothing is turned away. */
  lemma {:induction false} WalkAllMeets(g: Graph, cs: seq<string>, depth: nat, w: Walked)
    requires depth <= MAX_DEPTH
    ensures forall c :: c in cs ==> c in WalkAll(g, cs, depth, w).seen
    decreases |cs|
  {
    if cs != [] {
      var next := Walk(g, cs[0], depth, w);
      WalkGrows(g, cs[0], depth, w);
      WalkAllGrows(g, cs[1..], depth, next);
      WalkAllMeets(g, cs[1..], depth, next);
    }
  }

  /** The declared types seen. */
  ghost function Known(g: Graph, w: Walked): set<string> {
    w.seen * g.Keys
  }

  /** Where everything named is undeclared, seen or too deep, nothing declared is met. */
  lemma {:induction false} NothingNew(g: Graph, cs: seq<string>, depth: nat, w: Walked)
    requires depth <= MAX_DEPTH + 1
    requires forall p :: p in cs ==> p !in g || p in w.seen || depth > MAX_DEPTH
    ensures WalkAll(g, cs, depth, w).out == w.out && Known(g, WalkAll(g, cs, depth, w)) == Known(g, w)
    decreases |cs|
  {
    if cs != [] {
      NothingNew(g, cs[1..], depth, Walk(g, cs[0], depth, w));
    }
  }

  /** Only the type, its ancestors, its category and the root, with theirs, are ever listed. */
  lemma LineageSound(g: Graph, c: string, x: string)
    requires x in Ancestry(g, c).out
    ensures AtOrAbove(g, c, x) || AtOrAbove(g, ROOT, x) || (c !in g && AtOrAbove(g, Category(c), x))
  {
    LineageShape(g, c);
    var kin := Kin(g, c);
    if x !in kin.seen {
      WalkSound(g, ROOT, ROOT, 0, kin);
    } else {
      KinSound(g, c, x);
    }
  }

  lemma KinSound(g: Graph, c: string, x: string)
    requires x in g && x in Kin(g, c).seen
    ensures AtOrAbove(g, c, x) || (c !in g && AtOrAbove(g, Category(c), x))
  {
    var own := Walk(g, c, 0, NOTHING);
    WalkSound(g, c, c, 0, NOTHING);
    if x !in own.seen {
      WalkSound(g, Category(c), Category(c), 0, own);
      if c in g {
        WalkAllGrows(g, g[c], 1, Meet(g, c, NOTHING));
      }
    }
  }

  /** Every declared type at or above `c` is in the lineage. */
  ghost predicate Complete(g: Graph, c: string) {
    forall x :: x in g && AtOrAbove(g, c, x) ==> x in Ancestry(g, c).out
  }

  // ---- the depth limit loses nothing when chains are short ----

  /** A chain of declared types, each inheriting from the one before it, none twice. */
  ghost predicate Chain(g: Graph, s: seq<string>) {
    Distinct(s) && (forall k :: 0 <= k < |s| ==> s[k] in g) && forall k :: 0 < k < |s| ==> Step(g, s[k - 1], s[k])
  }

  /** No chain from `c` has more than MAX_DEPTH links. */
  ghost predicate ShortChains(g: Graph, c: string) {
    forall s :: Chain(g, s) && s != [] && s[0] == c ==> |s| <= MAX_DEPTH + 1
  }

  /** The types the walk is inside of, from `c` down to here. */
  ghost predicate Stack(g: Graph, c: string, s: seq<string>, w: Walked) {
    Chain(g, s) && (s != [] ==> s[0] == c) && forall x :: x in s ==> x in w.seen
  }

  ghost predicate NoneRefused(g: Graph, w: Walked) {
    forall x :: x in w.refused ==> x !in g
  }

  lemma {:induction false} WalkRefusesNone(g: Graph, c: string, s: seq<string>, a: string, w: Walked)
    requires ShortChains(g, c) && |s| <= MAX_DEPTH + 1 && Stack(g, c, s, w) && NoneRefused(g, w)
    requires s == [] ==> a == c
    requires s != [] ==> a in g[s[|s| - 1]]
    ensures NoneRefused(g, Walk(g, a, |s|, w))
    decreases MAX_DEPTH + 1 - |s|, 0
  {
    if a !in w.seen && a in g {
      var inner := s + [a];
      assert Chain(g, inner);
      assert |inner| <= MAX_DEPTH + 1;
      WalkAllRefusesNone(g, c, inner, g[a], Meet(g, a, w));
    }
  }

  lemma {:induction false} WalkAllRefusesNone(g: Graph, c: string, s: seq<string>, cs: seq<string>, w: Walked)
    requires ShortChains(g, c) && 0 < |s| <= MAX_DEPTH + 1 && Stack(g, c, s, w) && NoneRefused(g, w)
    requires forall a :: a in cs ==> a in g[s[|s| - 1]]
    ensures NoneRefused(g, WalkAll(g, cs, |s|, w))
    decreases MAX_DEPTH + 1 - |s|, 1 + |cs|
  {
    if cs != [] {
      assert cs[0] in cs && forall a :: a in cs[1..] ==> a in cs;
      WalkRefusesNone(g, c, s, cs[0], w);
      WalkGrows(g, cs[0], |s|, w);
      WalkAllRefusesNone(g, c, s, cs[1..], Walk(g, cs[0], |s|, w));
    }
  }

  /** When no chain from a type exceeds eight links its lineage is complete, whatever the rest of the graph. */
  lemma ShortChainsComplete(g: Graph, c: string)
    requires c in g && ShortChains(g, c)
    ensures Complete(g, c)
  {
    var own := Walk(g, c, 0, NOTHING);
    LineageShape(g, c);
    WalkRefusesNone(g, c, [], c, NOTHING);
    WalkCovers(g, c, 0, NOTHING);
    WalkGrows(g, c, 0, NOTHING);
    WalkGrows(g, ROOT, 0, Kin(g, c));
    WalkAllGrows(g, g[c], 1, Meet(g, c, NOTHING));
    assert Kin(g, c) == own;
    assert ClosedUp(g, own.seen);
    forall x | x in g && AtOrAbove(g, c, x)
      ensures x in Ancestry(g, c).out
    {
      if x != c {
        var k: nat :| k > 0 && ReachesIn(g, c, x, k);
        ClosedContains(g, own.seen, c, x, k);
      }
    }
  }

  /** No type inherits two declared types. */
  ghost predicate OneParent(g: Graph) {
    forall a, p, q :: Step(g, a, p) && Step(g, a, q) ==> p == q
  }

  // ---- only what is above a type and the root matters to its lineage ----

  /** No path of more than MAX_DEPTH links leaves `c`. */
  ghost predicate Shallow(g: Graph, c: string) {
    forall x, k: nat :: k > MAX_DEPTH ==> !ReachesIn(g, c, x, k)
  }

  /** The declared types at or above `c` or the root, each with all it inherits. */
  ghost function Part(g: Graph, c: string): (h: Graph)
    ensures h.Keys <= g.Keys
  {
    map x | x in g && (AtOrAbove(g, c, x) || AtOrAbove(g, ROOT, x)) :: g[x]
  }

  /** `h` is a part of `g` that no inheriting leads out of. */
  ghost predicate Fits(h: Graph, g: Graph) {
    forall x :: x in h ==> x in g && h[x] == g[x] && forall p :: p in g[x] && p in g ==> p in h
  }

  lemma {:induction false} WalkFits(h: Graph, g: Graph, c: string, depth: nat, w: Walked)
    requires depth <= MAX_DEPTH + 1 && Fits(h, g) && (c in g ==> c in h)
    ensures Walk(h, c, depth, w) == Walk(g, c, depth, w)
    decreases MAX_DEPTH + 1 - depth, 0
  {
    if c !in w.seen && depth <= MAX_DEPTH && c in g {
      WalkAllFits(h, g, g[c], depth + 1, Meet(g, c, w));
    }
  }

  lemma {:induction false} WalkAllFits(h: Graph, g: Graph, cs: seq<string>, depth: nat, w: Walked)
    requires depth <= MAX_DEPTH + 1 && Fits(h, g) && forall c :: c in cs && c in g ==> c in h
    ensures WalkAll(h, cs, depth, w) == WalkAll(g, cs, depth, w)
    decreases MAX_DEPTH + 1 - depth, 1 + |cs|
  {
    if cs != [] {
      WalkFits(h, g, cs[0], depth, w);
      WalkAllFits(h, g, cs[1..], depth, Walk(g, cs[0], depth, w));
    }
  }

  lemma PartFits(g: Graph, c: string)
    ensures Fits(Part(g, c), g)
  {
    var h := Part(g, c);
    forall x, p | x in h && p in g[x] && p in g
      ensures p in h
    {
      StepReaches(g, x, p);
      if AtOrAbove(g, c, x) {
        if x != c {
          ReachesTrans(g, c, x, p);
        }
      } else if x != ROOT {
        ReachesTrans(g, ROOT, x, p);
      }
    }
  }

  lemma AncestryOfPart(g: Graph, c: string)
    requires c in g
    ensures Ancestry(Part(g, c), c) == Ancestry(g, c) && c in Part(g, c)
  {
    var h := Part(g, c);
    PartFits(g, c);
    WalkFits(h, g, c, 0, NOTHING);
    WalkAllGrows(g, g[c], 1, Meet(g, c, NOTHING));
    assert Kin(g, c) == Kin(h, c);
    WalkFits(h, g, ROOT, 0, Kin(g, c));
  }
}
