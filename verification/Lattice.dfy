/** The store behind the ontology, and the stamps a cache verifies itself against. */
module Lattice {
  import opened Outcomes

  /** What one concept artifact carries: the fields read off it, and the parents written on the doc itself. */
  datatype Doc = Doc(pos: string, counts: map<string, int>, ic: Option<real>, icSe: Option<real>,
                     hypernyms: set<string>, instances: set<string>)

  datatype Row = Row(version: nat, doc: Doc)

  /** (source, label, destination). */
  type Edge = (string, string, string)

  datatype Snapshot = Snapshot(rows: map<string, Row>, edges: map<Edge, nat>, next: nat)

  /** Every commit, whatever it does to whatever row or edge, takes the next number. */
  datatype Write = Put(id: string, doc: Doc) | Remove(id: string) | Link(e: Edge) | Unlink(e: Edge)

  function Apply(s: Snapshot, w: Write): Snapshot {
    match w
    case Put(id, doc) => Snapshot(s.rows[id := Row(s.next, doc)], s.edges, s.next + 1)
    case Remove(id) => Snapshot(s.rows - {id}, s.edges, s.next + 1)
    case Link(e) => Snapshot(s.rows, s.edges[e := s.next], s.next + 1)
    case Unlink(e) => Snapshot(s.rows, s.edges - {e}, s.next + 1)
  }

  function ApplyAll(s: Snapshot, ws: seq<Write>): Snapshot {
    if ws == [] then s else Apply(ApplyAll(s, ws[..|ws| - 1]), ws[|ws| - 1])
  }

  const NEW := Snapshot(map[], map[], 0)

  /** Some history of writes leads from `s` to `t`. */
  ghost predicate Leads(s: Snapshot, t: Snapshot) {
    exists ws :: ApplyAll(s, ws) == t
  }

  ghost predicate Reached(s: Snapshot) {
    Leads(NEW, s)
  }

  lemma {:induction false} ApplyAllAppend(s: Snapshot, ws: seq<Write>, vs: seq<Write>)
    ensures ApplyAll(s, ws + vs) == ApplyAll(ApplyAll(s, ws), vs)
  {
    if vs == [] {
      assert ws + vs == ws;
    } else {
      var init := vs[..|vs| - 1];
      ApplyAllAppend(s, ws, init);
      assert (ws + vs)[..|ws + vs| - 1] == ws + init;
    }
  }

  lemma LeadsTrans(s: Snapshot, t: Snapshot, u: Snapshot)
    requires Leads(s, t) && Leads(t, u)
    ensures Leads(s, u)
  {
    var ws :| ApplyAll(s, ws) == t;
    var vs :| ApplyAll(t, vs) == u;
    ApplyAllAppend(s, ws, vs);
  }

  lemma LeadsOne(s: Snapshot, w: Write)
    ensures Leads(s, Apply(s, w))
  {
    assert ApplyAll(s, []) == s;
    assert ApplyAll(s, [w]) == Apply(s, w);
  }

  lemma LeadsNone(s: Snapshot)
    ensures Leads(s, s)
  {
    assert ApplyAll(s, []) == s;
  }

  ghost predicate Numbered(s: Snapshot) {
    && (forall id :: id in s.rows ==> s.rows[id].version < s.next)
    && (forall e :: e in s.edges ==> s.edges[e] < s.next)
  }

  lemma {:induction false} ReachedIsNumbered(ws: seq<Write>)
    ensures Numbered(ApplyAll(NEW, ws))
  {
    if ws != [] {
      ReachedIsNumbered(ws[..|ws| - 1]);
    }
  }

  /** What carries an older number was there, unchanged, before; and if no number was taken nothing changed. */
  ghost predicate OnlyNewer(s: Snapshot, t: Snapshot) {
    && s.next <= t.next
    && (s.next == t.next ==> s == t)
    && (forall id :: id in t.rows && t.rows[id].version < s.next ==> id in s.rows && s.rows[id] == t.rows[id])
    && (forall e :: e in t.edges && t.edges[e] < s.next ==> e in s.edges && s.edges[e] == t.edges[e])
  }

  lemma {:induction false} WritesOnlyAdd(s: Snapshot, ws: seq<Write>)
    ensures OnlyNewer(s, ApplyAll(s, ws))
  {
    if ws != [] {
      WritesOnlyAdd(s, ws[..|ws| - 1]);
    }
  }

  lemma HistoryFacts(s: Snapshot, t: Snapshot)
    requires Reached(s) && Leads(s, t)
    ensures Reached(t) && Numbered(s) && Numbered(t) && OnlyNewer(s, t)
  {
    var vs :| ApplyAll(NEW, vs) == s;
    var ws :| ApplyAll(s, ws) == t;
    ReachedIsNumbered(vs);
    LeadsTrans(NEW, s, t);
    var us :| ApplyAll(NEW, us) == t;
    ReachedIsNumbered(us);
    WritesOnlyAdd(s, ws);
  }

  // ---- freshness stamps ----

  function OutEdges(s: Snapshot, id: string): set<Edge> {
    set e | e in s.edges && e.0 == id
  }

  ghost function Highest(s: Snapshot, es: set<Edge>): (hi: nat)
    requires es <= s.edges.Keys
    ensures forall e :: e in es ==> s.edges[e] <= hi
    ensures es != {} ==> exists e :: e in es && s.edges[e] == hi
  {
    if es == {} then 0
    else
      var e :| e in es;
      var rest := Highest(s, es - {e});
      assert forall f :: f in es ==> f == e || f in es - {e};
      if s.edges[e] >= rest then
        assert e in es && s.edges[e] == s.edges[e];
        s.edges[e]
      else
        assert es - {e} != {};
        rest
  }

  /** `(version, (degree, highest number))`. */
  datatype Stamp = Stamp(version: Option<nat>, degree: nat, highest: nat)

  ghost function StampOf(s: Snapshot, id: string): Stamp {
    Stamp(if id in s.rows then Some(s.rows[id].version) else None,
          |OutEdges(s, id)|, Highest(s, OutEdges(s, id)))
  }

  /** Between any two moments of a store's life, equal stamps mean the same row and the same out-edges, and
      nothing else gives equal stamps. */
  lemma StampSound(s: Snapshot, t: Snapshot, id: string)
    requires Reached(s) && Leads(s, t)
    ensures StampOf(s, id) == StampOf(t, id) <==>
              && (id in s.rows <==> id in t.rows) && (id in s.rows ==> s.rows[id] == t.rows[id])
              && OutEdges(s, id) == OutEdges(t, id)
              && forall e :: e in OutEdges(s, id) ==> s.edges[e] == t.edges[e]
  {
    HistoryFacts(s, t);
    var es, et := OutEdges(s, id), OutEdges(t, id);
    if StampOf(s, id) == StampOf(t, id) {
      forall e | e in et
        ensures e in es && s.edges[e] == t.edges[e]
      {
        assert |et - {e}| == |et| - 1;
        assert |es| > 0;
      }
      SubsetOfSameSize(et, es);
    } else if es == et && forall e :: e in es ==> s.edges[e] == t.edges[e] {
      SameHighest(s, t, es);
    }
  }

  lemma SubsetOfSameSize(small: set<Edge>, big: set<Edge>)
    requires small <= big && |small| == |big|
    ensures small == big
  {
    assert big == small + (big - small);
  }

  lemma SameHighest(s: Snapshot, t: Snapshot, es: set<Edge>)
    requires es <= s.edges.Keys && es <= t.edges.Keys
    requires forall e :: e in es ==> s.edges[e] == t.edges[e]
    ensures Highest(s, es) == Highest(t, es)
  {
    if es != {} {
      var e :| e in es && s.edges[e] == Highest(s, es);
      var f :| f in es && t.edges[f] == Highest(t, es);
    }
  }

  // ---- the store: every write, whatever it does, takes the next number ----

  /** The vocabulary an ontology's own spec artifact carries. */
  datatype Lang = Lang(prefix: string, isa: set<string>, instance: set<string>)

  class Store {
    const spec: Option<Lang>      // the transducer artifact's spec, if that artifact is held; it is never rewritten
    const ids: set<string>        // every id this store ever holds
    var rows: map<string, Row>
    var edges: map<Edge, nat>
    var next: nat

    function Snap(): Snapshot
      reads this
    {
      Snapshot(rows, edges, next)
    }

    ghost predicate Valid()
      reads this
    {
      Reached(Snap()) && rows.Keys <= ids
    }

    /** The stamp the artifacts face reports: the row's version, and the degree and highest number of its out-edges. */
    method ReadStamp(id: string) returns (stamp: Stamp)
      ensures stamp == StampOf(Snap(), id)
    {
      var es := set e | e in edges && e.0 == id;
      var todo, hi := es, 0;
      while todo != {}
        invariant todo <= es
        invariant forall e :: e in es - todo ==> edges[e] <= hi
        invariant todo == es ==> hi == 0
        invariant todo != es ==> exists e :: e in es && edges[e] == hi
        decreases todo
      {
        var e :| e in todo;
        if todo == es || edges[e] > hi {
          hi := edges[e];
        }
        todo := todo - {e};
        assert e in es && e !in todo;
      }
      assert es == OutEdges(Snap(), id);
      stamp := Stamp(if id in rows then Some(rows[id].version) else None, |es|, hi);
    }

    constructor (spec: Option<Lang>, ids: set<string>)
      ensures Valid() && this.spec == spec && this.ids == ids
      ensures Snap() == NEW
    {
      this.spec, this.ids := spec, ids;
      rows, edges, next := map[], map[], 0;
      new;
      LeadsNone(NEW);
    }

    method Commit(w: Write)
      requires Valid() && (w.Put? ==> w.id in ids)
      modifies this
      ensures Valid() && Leads(old(Snap()), Snap())
      ensures Snap() == Apply(old(Snap()), w)
    {
      LeadsOne(Snap(), w);
      LeadsTrans(NEW, Snap(), Apply(Snap(), w));
      match w {
        case Put(id, doc) => rows := rows[id := Row(next, doc)];
        case Remove(id) => rows := rows - {id};
        case Link(e) => edges := edges[e := next];
        case Unlink(e) => edges := edges - {e};
      }
      next := next + 1;
    }
  }
}
