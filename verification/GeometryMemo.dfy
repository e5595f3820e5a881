/** The spanning tree is memoised per object; every answer is still the one computed afresh. */
module GeometryMemo {
  import opened Outcomes
  import opened Geometry

  /** What generation and information-content table an ontology belongs to. */
  type World = (int, nat) -> Ontology

  lemma NamesShrink(o: Ontology, k: string, seen: set<string>)
    requires k in o && o[k].name !in seen
    ensures AllNames(o) - (seen + {o[k].name}) < AllNames(o) - seen
  {
    assert o[k].name in AllNames(o);
  }

  lemma WalkOn(o: Ontology, cur: string, seen: set<string>, p: Option<string>, done: seq<string>)
    requires cur in o && p == CanonicalParent(o, cur)
    ensures p == None || o[p.value].name in seen ==> done + WalkUp(o, cur, seen) == done + [cur]
    ensures p.Some? && o[p.value].name !in seen ==>
              done + WalkUp(o, cur, seen) == done + [cur] + WalkUp(o, p.value, seen + {o[p.value].name})
  {
  }

  class Memo {
    var tree: map<string, (string, seq<string>)>          // name -> (object, its path)
    var parent: map<string, (string, Option<string>)>     // name -> (object, its canonical parent)
    var gen: int
    var table: nat

    ghost predicate Valid(world: World)
      reads this
    {
      var o := world(gen, table);
      && (forall n :: n in tree ==> tree[n].0 in o && tree[n].1 == TreePath(o, tree[n].0))
      && (forall n :: n in parent ==> parent[n].0 in o && parent[n].1 == CanonicalParent(o, parent[n].0))
    }

    constructor (ghost world: World)
      ensures Valid(world)
    {
      tree, parent, gen, table := map[], map[], -1, 0;
    }

    /** May the memo be used? Emptied when the store moved or another table is read; never without a generation. */
    method Ready(ghost world: World, now: Option<int>, ic: nat) returns (ready: bool)
      requires Valid(world)
      modifies this
      ensures Valid(world)
      ensures ready == now.Some?
      ensures ready ==> gen == now.value && table == ic
    {
      if now == None {
        return false;
      }
      if gen != now.value || table != ic {
        tree, parent := map[], map[];
        gen, table := now.value, ic;
      }
      return true;
    }

    method CanonicalParentOf(ghost world: World, now: Option<int>, ic: nat, o: Ontology, s: string)
      returns (p: Option<string>)
      requires Valid(world) && s in o
      requires now.Some? ==> o == world(now.value, ic)
      modifies this
      ensures Valid(world) && (now.Some? ==> gen == now.value && table == ic)
      ensures p == CanonicalParent(o, s)
    {
      var memo := Ready(world, now, ic);
      var name := o[s].name;
      if memo && name in parent && parent[name].0 == s {
        return parent[name].1;
      }
      p := CanonicalParent(o, s);
      if memo {
        parent := parent[name := (s, p)];
      }
    }

    method Walk(ghost world: World, now: Option<int>, ic: nat, o: Ontology, s: string)
      returns (path: seq<string>)
      requires Valid(world) && s in o
      requires now.Some? ==> o == world(now.value, ic) && gen == now.value && table == ic
      modifies this
      ensures Valid(world) && (now.Some? ==> gen == now.value && table == ic)
      ensures path == TreePath(o, s)
    {
      path := [s];
      var cur, seen := s, {o[s].name};
      ghost var done: seq<string> := [];
      while true
        invariant Valid(world) && (now.Some? ==> gen == now.value && table == ic)
        invariant cur in o && path == done + [cur]
        invariant done + WalkUp(o, cur, seen) == TreePath(o, s)
        decreases AllNames(o) - seen
      {
        var p := CanonicalParentOf(world, now, ic, o, cur);
        WalkOn(o, cur, seen, p, done);
        if p == None || o[p.value].name in seen {
          return;
        }
        NamesShrink(o, p.value, seen);
        done := done + [cur];
        path, seen, cur := path + [p.value], seen + {o[p.value].name}, p.value;
      }
    }

    /** Whatever was asked before, under whatever generations, tables and same-named objects, the path
        answered is the path a walk of the present ontology takes. */
    method TreePathOf(ghost world: World, now: Option<int>, ic: nat, o: Ontology, s: string)
      returns (path: seq<string>)
      requires Valid(world) && s in o
      requires now.Some? ==> o == world(now.value, ic)
      modifies this
      ensures Valid(world)
      ensures path == TreePath(o, s)
    {
      var memo := Ready(world, now, ic);
      var name := o[s].name;
      if memo && name in tree && tree[name].0 == s {
        return tree[name].1;
      }
      path := Walk(world, now, ic, o, s);
      if memo {
        tree := tree[name := (s, path)];
      }
    }
  }
}
