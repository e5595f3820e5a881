/** What the driver answers, told by the writes that were made and nothing else. */
module DriverHistory {
  import opened Outcomes
  import opened Lattice
  import opened Driver
  import DriverRuns

  // ---- the last word on a row and on an edge ----

  /** Write `i` is the last to touch row `id`, and puts `doc` there. */
  predicate LastPut(ws: seq<Write>, i: nat, id: string, doc: Doc) {
    && i < |ws| && ws[i] == Put(id, doc)
    && forall j :: i < j < |ws| ==> ws[j] != Remove(id) && !(ws[j].Put? && ws[j].id == id)
  }

  ghost predicate Holds(ws: seq<Write>, id: string, doc: Doc) {
    exists i: nat :: LastPut(ws, i, id, doc)
  }

  /** Write `i` lays the edge, and none after it takes it up. */
  predicate Lays(ws: seq<Write>, i: nat, e: Edge) {
    i < |ws| && ws[i] == Link(e) && forall j :: i < j < |ws| ==> ws[j] != Unlink(e)
  }

  ghost predicate Linked(ws: seq<Write>, e: Edge) {
    exists i: nat :: Lays(ws, i, e)
  }

  lemma {:induction false} RowsAreLastPuts(ws: seq<Write>, id: string, doc: Doc)
    ensures id in ApplyAll(NEW, ws).rows && ApplyAll(NEW, ws).rows[id].doc == doc <==> Holds(ws, id, doc)
  {
    if ws != [] {
      var init, w := ws[..|ws| - 1], ws[|ws| - 1];
      RowsAreLastPuts(init, id, doc);
      if w == Remove(id) || (w.Put? && w.id == id) {
        if w == Put(id, doc) {
          assert LastPut(ws, |init|, id, doc);
        }
      } else {
        PutsCarry(init, w, id, doc);
        assert ws == init + [w];
      }
    }
  }

  lemma PutsCarry(ws: seq<Write>, w: Write, id: string, doc: Doc)
    requires w != Remove(id) && !(w.Put? && w.id == id)
    ensures Holds(ws + [w], id, doc) <==> Holds(ws, id, doc)
  {
    var more := ws + [w];
    forall i: nat
      ensures LastPut(ws, i, id, doc) <==> LastPut(more, i, id, doc)
    {
      assert LastPut(ws, i, id, doc) ==> forall j :: i < j < |ws| ==> more[j] == ws[j];
      assert LastPut(more, i, id, doc) ==> i < |ws| && forall j :: i < j < |ws| ==> more[j] == ws[j];
    }
  }

  lemma {:induction false} EdgesAreLaid(ws: seq<Write>, e: Edge)
    ensures e in ApplyAll(NEW, ws).edges <==> Linked(ws, e)
  {
    if ws != [] {
      var init, w := ws[..|ws| - 1], ws[|ws| - 1];
      EdgesAreLaid(init, e);
      if w == Link(e) {
        assert Lays(ws, |init|, e);
      } else if w != Unlink(e) {
        LaysCarry(init, w, e);
        assert ws == init + [w];
      }
    }
  }

  lemma LaysCarry(ws: seq<Write>, w: Write, e: Edge)
    requires w != Link(e) && w != Unlink(e)
    ensures Linked(ws + [w], e) <==> Linked(ws, e)
  {
    var more := ws + [w];
    forall i: nat
      ensures Lays(ws, i, e) <==> Lays(more, i, e)
    {
      assert Lays(ws, i, e) ==> forall j :: i < j < |ws| ==> more[j] == ws[j];
      assert Lays(more, i, e) ==> i < |ws| && forall j :: i < j < |ws| ==> more[j] == ws[j];
    }
  }

  // ---- names and ids ----

  /** `id` is an id of the concept `name`: the name itself, or the name under the ontology's prefix. */
  predicate Means(lang: Lang, id: string, name: string) {
    if lang.prefix <= id then id == lang.prefix + name else id == name
  }

  lemma StrippedMeans(lang: Lang, id: string)
    ensures forall name :: Stripped(lang, id) == name <==> Means(lang, id, name)
  {
    var rest := Stripped(lang, id);
    if lang.prefix <= id {
      assert id == lang.prefix + id[|lang.prefix|..];
      forall name | id == lang.prefix + name
        ensures rest == name
      {
        assert id[|lang.prefix|..] == name;
      }
    }
  }

  /** What parents a history gives a concept read from `id`: those its doc lists, under the field asked for, and for
      a doc that lists none the targets of its is-a edges, an edge under an instance label being an instance link. */
  ghost predicate HasHypernym(lang: Lang, ws: seq<Write>, id: string, doc: Doc, p: string) {
    if doc.hypernyms == {} && doc.instances == {} then
      exists lab, dst :: Means(lang, dst, p) && lab in lang.isa && lab !in lang.instance && Linked(ws, (id, lab, dst))
    else
      exists h :: h in doc.hypernyms && Means(lang, h, p)
  }

  ghost predicate HasInstance(lang: Lang, ws: seq<Write>, id: string, doc: Doc, p: string) {
    if doc.hypernyms == {} && doc.instances == {} then
      exists lab, dst :: Means(lang, dst, p) && lab in lang.instance && Linked(ws, (id, lab, dst))
    else
      exists h :: h in doc.instances && Means(lang, h, p)
  }

  /** The answer holds what was last put at `id`, and exactly those parents. */
  ghost predicate Tells(lang: Lang, ws: seq<Write>, name: string, id: string, doc: Doc, syn: Synset) {
    && syn.name == name && syn.pos == doc.pos && syn.counts == doc.counts && syn.ic == doc.ic && syn.icSe == doc.icSe
    && (forall p :: p in syn.hyper <==> HasHypernym(lang, ws, id, doc, p))
    && (forall p :: p in syn.inst <==> HasInstance(lang, ws, id, doc, p))
  }

  lemma TargetsAreLinks(lang: Lang, ws: seq<Write>, id: string, labels: set<string>, p: string)
    ensures p in Targets(lang, ApplyAll(NEW, ws), id, labels) <==>
              exists lab, dst :: Means(lang, dst, p) && lab in labels && Linked(ws, (id, lab, dst))
  {
    var s := ApplyAll(NEW, ws);
    if p in Targets(lang, s, id, labels) {
      var e :| e in OutEdges(s, id) && e.1 in labels && Stripped(lang, e.2) == p;
      StrippedMeans(lang, e.2);
      EdgesAreLaid(ws, e);
      assert e == (id, e.1, e.2);
    }
    if lab, dst :| Means(lang, dst, p) && lab in labels && Linked(ws, (id, lab, dst)) {
      EdgesAreLaid(ws, (id, lab, dst));
      StrippedMeans(lang, dst);
      assert (id, lab, dst) in OutEdges(s, id);
    }
  }

  lemma ListedAre(lang: Lang, hs: set<string>, p: string)
    ensures p in (set h | h in hs :: Stripped(lang, h)) <==> exists h :: h in hs && Means(lang, h, p)
  {
    forall h | h in hs
      ensures Stripped(lang, h) == p <==> Means(lang, h, p)
    {
      StrippedMeans(lang, h);
    }
  }

  lemma BuildTells(lang: Lang, ws: seq<Write>, name: string, id: string, doc: Doc)
    requires Holds(ws, id, doc)
    ensures id in ApplyAll(NEW, ws).rows
    ensures Tells(lang, ws, name, id, doc, Build(lang, ApplyAll(NEW, ws), name, id))
  {
    RowsAreLastPuts(ws, id, doc);
    var syn := Build(lang, ApplyAll(NEW, ws), name, id);
    forall p
      ensures p in syn.hyper <==> HasHypernym(lang, ws, id, doc, p)
      ensures p in syn.inst <==> HasInstance(lang, ws, id, doc, p)
    {
      TargetsAreLinks(lang, ws, id, lang.isa - lang.instance, p);
      TargetsAreLinks(lang, ws, id, lang.instance, p);
      ListedAre(lang, doc.hypernyms, p);
      ListedAre(lang, doc.instances, p);
    }
  }

  /** Where a fresh read of a name looks: its id under the prefix if anything is held there, else its bare id. A name
      that carries the prefix is an id already. */
  ghost predicate ReadFrom(lang: Lang, ws: seq<Write>, name: string, id: string, doc: Doc) {
    && name != "" && Holds(ws, id, doc)
    && if lang.prefix <= name then id == name
       else id == lang.prefix + name || (id == name && forall d :: !Holds(ws, lang.prefix + name, d))
  }

  lemma ReadFromIsFirst(lang: Lang, ws: seq<Write>, name: string, id: string, doc: Doc)
    ensures ReadFrom(lang, ws, name, id, doc) <==>
              Holds(ws, id, doc) && FirstHeld(ApplyAll(NEW, ws), ConceptIds(lang, name)) == Some(id)
  {
    var s, ids := ApplyAll(NEW, ws), ConceptIds(lang, name);
    RowsAreLastPuts(ws, id, doc);
    HeldByPuts(ws, lang.prefix + name);
    if |ids| == 2 {
      assert FirstHeld(s, ids[1..]) == if name in s.rows then Some(name) else None by {
        assert ids[1..][1..] == [];
      }
    } else if |ids| == 1 {
      assert ids[1..] == [];
    }
    if lang.prefix == "" {
      assert lang.prefix + name == name;
    }
  }

  lemma HeldByPuts(ws: seq<Write>, id: string)
    ensures id in ApplyAll(NEW, ws).rows <==> exists doc :: Holds(ws, id, doc)
  {
    if id in ApplyAll(NEW, ws).rows {
      RowsAreLastPuts(ws, id, ApplyAll(NEW, ws).rows[id].doc);
    }
    if doc :| Holds(ws, id, doc) {
      RowsAreLastPuts(ws, id, doc);
    }
  }

  /** An answer that says what the last writes say, and none exactly where they left nothing under an id of the name. */
  ghost predicate Answers(lang: Lang, ws: seq<Write>, name: string, r: Option<Synset>) {
    if r.Some? then exists id, doc :: ReadFrom(lang, ws, name, id, doc) && Tells(lang, ws, name, id, doc, r.value)
    else forall id, doc :: !ReadFrom(lang, ws, name, id, doc)
  }

  /** Whatever was written to a store, a fresh read of a name is such an answer. */
  lemma AnswerIsHistory(load: Loader, lang: Lang, ws: seq<Write>, name: string)
    ensures Answers(lang, ws, name, Fresh(load, Some(lang), ApplyAll(NEW, ws), name))
  {
    var s := ApplyAll(NEW, ws);
    var first := FirstHeld(s, ConceptIds(lang, name));
    if first.Some? {
      var id, doc := first.value, s.rows[first.value].doc;
      RowsAreLastPuts(ws, id, doc);
      ReadFromIsFirst(lang, ws, name, id, doc);
      BuildTells(lang, ws, name, id, doc);
    } else {
      forall id, doc
        ensures !ReadFrom(lang, ws, name, id, doc)
      {
        ReadFromIsFirst(lang, ws, name, id, doc);
      }
    }
  }

  /** There is only one. */
  lemma OneAnswer(lang: Lang, ws: seq<Write>, name: string, a: Option<Synset>, b: Option<Synset>)
    requires Answers(lang, ws, name, a) && Answers(lang, ws, name, b)
    ensures a == b
  {
    if a.Some? && b.Some? {
      var id, doc :| ReadFrom(lang, ws, name, id, doc) && Tells(lang, ws, name, id, doc, a.value);
      var id', doc' :| ReadFrom(lang, ws, name, id', doc') && Tells(lang, ws, name, id', doc', b.value);
      ReadFromIsFirst(lang, ws, name, id, doc);
      ReadFromIsFirst(lang, ws, name, id', doc');
      RowsAreLastPuts(ws, id, doc);
      RowsAreLastPuts(ws, id, doc');
      assert a.value.hyper == b.value.hyper && a.value.inst == b.value.inst;
    }
  }

  // ---- one more edge ----

  /** An edge from a doc that lists no parents shows in the next answer: under an instance label as an instance link,
      under another is-a label as a hypernym, and under any other label not at all. */
  lemma LinkShows(load: Loader, lang: Lang, s: Snapshot, name: string, id: string, lab: string, dst: string)
    requires FirstHeld(s, ConceptIds(lang, name)) == Some(id)
    requires s.rows[id].doc.hypernyms == {} && s.rows[id].doc.instances == {}
    ensures var before := Fresh(load, Some(lang), s, name);
            var after := Fresh(load, Some(lang), Apply(s, Link((id, lab, lang.prefix + dst))), name);
            && before.Some? && after.Some?
            && after.value == before.value.(
                 hyper := before.value.hyper + (if lab in lang.isa && lab !in lang.instance then {dst} else {}),
                 inst := before.value.inst + if lab in lang.instance then {dst} else {})
  {
    var e := (id, lab, lang.prefix + dst);
    var t := Apply(s, Link(e));
    SameRows(s, t, ConceptIds(lang, name));
    assert Stripped(lang, e.2) == dst;
    LinkTargets(lang, s, e, lang.isa - lang.instance);
    LinkTargets(lang, s, e, lang.instance);
  }

  lemma LinkTargets(lang: Lang, s: Snapshot, e: Edge, labels: set<string>)
    ensures Targets(lang, Apply(s, Link(e)), e.0, labels) ==
            Targets(lang, s, e.0, labels) + if e.1 in labels then {Stripped(lang, e.2)} else {}
  {
    var t := Apply(s, Link(e));
    assert OutEdges(t, e.0) == OutEdges(s, e.0) + {e};
  }

  /** Where the doc lists parents of either kind no edge matters. */
  lemma ListedWins(load: Loader, lang: Lang, s: Snapshot, name: string, id: string, e: Edge)
    requires FirstHeld(s, ConceptIds(lang, name)) == Some(id)
    requires s.rows[id].doc.hypernyms != {} || s.rows[id].doc.instances != {}
    ensures Fresh(load, Some(lang), Apply(s, Link(e)), name) == Fresh(load, Some(lang), s, name)
    ensures Fresh(load, Some(lang), Apply(s, Unlink(e)), name) == Fresh(load, Some(lang), s, name)
  {
    SameRows(s, Apply(s, Link(e)), ConceptIds(lang, name));
    SameRows(s, Apply(s, Unlink(e)), ConceptIds(lang, name));
    var h :| h in s.rows[id].doc.hypernyms + s.rows[id].doc.instances;
  }

  lemma {:induction false} SameRows(s: Snapshot, t: Snapshot, ids: seq<string>)
    requires s.rows == t.rows
    ensures FirstHeld(s, ids) == FirstHeld(t, ids)
  {
    if ids != [] {
      SameRows(s, t, ids[1..]);
    }
  }

  // ---- whole runs over stores that start out empty ----

  ghost predicate AllPossible(site: DriverRuns.Site, events: seq<DriverRuns.Event>) {
    forall e :: e in events ==> DriverRuns.Possible(site, e)
  }

  /** What a run writes to store `k`, in order. */
  function Told(events: seq<DriverRuns.Event>, k: nat): seq<Write> {
    if events == [] then []
    else (if events[0].Commit? && events[0].store == k then [events[0].w] else []) + Told(events[1..], k)
  }

  /** The store last named or bound in a run, if any was, else the one it began with. */
  function SourceAfterAll(source: Option<nat>, events: seq<DriverRuns.Event>): Option<nat> {
    if events == [] then source
    else
      var e := events[|events| - 1];
      if e.BindTo? then e.bound
      else if e.Lookup? && e.named.Some? then e.named
      else SourceAfterAll(source, events[..|events| - 1])
  }

  lemma {:induction false} SourceAfterFirst(source: Option<nat>, events: seq<DriverRuns.Event>)
    requires events != []
    ensures SourceAfterAll(source, events) == SourceAfterAll(DriverRuns.SourceAfter(source, events[0]), events[1..])
  {
    if |events| > 1 {
      SourceAfterFirst(source, events[..|events| - 1]);
      assert events[..|events| - 1][1..] == events[1..][..|events| - 2];
    }
  }

  /** The last answer of a run in which nothing is cached, over stores that have been written to before by `past`. */
  ghost predicate LastAnswer(load: Loader, site: DriverRuns.Site, past: seq<seq<Write>>, source: Option<nat>,
                             events: seq<DriverRuns.Event>, name: string, named: Option<nat>,
                             answer: Result<Option<Synset>, NoStore>)
    requires |past| == |site.specs|
  {
    var at := DriverRuns.Reads(site, SourceAfterAll(source, events), named);
    if at == None then answer == Err(OntologyStoreRequired)
    else
      && at.value < |past|
      && answer == Ok(Fresh(load, site.specs[at.value],
                            ApplyAll(NEW, past[at.value] + Told(events, at.value)), name))
  }

  function Stores(past: seq<seq<Write>>): (snaps: seq<Snapshot>)
    ensures |snaps| == |past|
  {
    seq(|past|, k requires 0 <= k < |past| => ApplyAll(NEW, past[k]))
  }

  lemma {:induction false} RunEnds(load: Loader, site: DriverRuns.Site, past: seq<seq<Write>>, source: Option<nat>,
                                   events: seq<DriverRuns.Event>, name: string, named: Option<nat>)
    returns (answers: seq<Result<Option<Synset>, NoStore>>, answer: Result<Option<Synset>, NoStore>)
    requires |past| == |site.specs| && (source.Some? ==> source.value < |past|)
    requires site.host.Some? ==> site.host.value < |past|
    requires AllPossible(site, events + [DriverRuns.Lookup(name, named)])
    ensures DriverRuns.Uncached(load, site, Stores(past), source, events + [DriverRuns.Lookup(name, named)])
            == answers + [answer]
    ensures LastAnswer(load, site, past, source, events, name, named, answer)
    decreases |events|
  {
    var e := DriverRuns.Lookup(name, named);
    if events == [] {
      answer := RunEndsHere(load, site, past, source, name, named);
      answers := [];
    } else {
      var first, rest := events[0], events[1..];
      assert first in events + [e];
      assert (events + [e])[1..] == rest + [e] && (events + [e])[0] == first;
      var more := if first.Commit? then past[first.store := past[first.store] + [first.w]] else past;
      StoresAfter(site, past, more, first);
      var later;
      later, answer := RunEnds(load, site, more, DriverRuns.SourceAfter(source, first), rest, name, named);
      answers := DriverRuns.AnswerTo(load, site, Stores(past), source, first) + later;
      LastAnswerFirst(load, site, past, more, source, events, name, named, answer);
    }
  }

  lemma RunEndsHere(load: Loader, site: DriverRuns.Site, past: seq<seq<Write>>, source: Option<nat>, name: string,
                    named: Option<nat>)
    returns (answer: Result<Option<Synset>, NoStore>)
    requires |past| == |site.specs| && (source.Some? ==> source.value < |past|)
    requires site.host.Some? ==> site.host.value < |past|
    requires AllPossible(site, [] + [DriverRuns.Lookup(name, named)])
    ensures DriverRuns.Uncached(load, site, Stores(past), source, [] + [DriverRuns.Lookup(name, named)])
            == [] + [answer]
    ensures LastAnswer(load, site, past, source, [], name, named, answer)
  {
    var e := DriverRuns.Lookup(name, named);
    assert [] + [e] == [e] && [e][1..] == [] && e in [] + [e];
    answer := DriverRuns.AnswerTo(load, site, Stores(past), source, e)[0];
    var at := DriverRuns.Reads(site, source, named);
    if at.Some? {
      assert past[at.value] + Told([], at.value) == past[at.value];
    }
  }

  lemma LastAnswerFirst(load: Loader, site: DriverRuns.Site, past: seq<seq<Write>>, more: seq<seq<Write>>,
                        source: Option<nat>, events: seq<DriverRuns.Event>, name: string, named: Option<nat>,
                        answer: Result<Option<Synset>, NoStore>)
    requires |past| == |site.specs| && events != [] && DriverRuns.Possible(site, events[0])
    requires var e := events[0]; more == if e.Commit? then past[e.store := past[e.store] + [e.w]] else past
    requires LastAnswer(load, site, more, DriverRuns.SourceAfter(source, events[0]), events[1..], name, named, answer)
    ensures LastAnswer(load, site, past, source, events, name, named, answer)
  {
    SourceAfterFirst(source, events);
    var at := DriverRuns.Reads(site, SourceAfterAll(source, events), named);
    if at.Some? {
      assert past[at.value] + Told(events, at.value) == more[at.value] + Told(events[1..], at.value);
    }
  }

  lemma StoresAfter(site: DriverRuns.Site, past: seq<seq<Write>>, more: seq<seq<Write>>, e: DriverRuns.Event)
    requires |past| == |site.specs| && DriverRuns.Possible(site, e)
    requires more == if e.Commit? then past[e.store := past[e.store] + [e.w]] else past
    ensures Stores(more) == DriverRuns.SnapsAfter(Stores(past), e)
  {
    if e.Commit? {
      var ws := past[e.store];
      assert (ws + [e.w])[..|ws|] == ws;
    }
  }

  /** Refused where no store was named and the host has none; else what the run's writes to the store read say. */
  ghost predicate ToldAnswer(site: DriverRuns.Site, events: seq<DriverRuns.Event>, name: string, named: Option<nat>,
                             answer: Result<Option<Synset>, NoStore>) {
    var at := DriverRuns.Reads(site, SourceAfterAll(None, events), named);
    match answer
    case Err(_) => at == None
    case Ok(r) =>
      && at.Some? && at.value < |site.specs|
      && (site.specs[at.value].Some? ==> Answers(site.specs[at.value].value, Told(events, at.value), name, r))
  }

  lemma NewStoresTell(load: Loader, site: DriverRuns.Site, past: seq<seq<Write>>, events: seq<DriverRuns.Event>,
                      name: string, named: Option<nat>, answer: Result<Option<Synset>, NoStore>)
    requires |past| == |site.specs| && forall k :: 0 <= k < |past| ==> past[k] == []
    requires LastAnswer(load, site, past, None, events, name, named, answer)
    ensures ToldAnswer(site, events, name, named, answer)
  {
    var at := DriverRuns.Reads(site, SourceAfterAll(None, events), named);
    if at.Some? {
      var k := at.value;
      assert past[k] + Told(events, k) == Told(events, k);
      if site.specs[k].Some? {
        AnswerIsHistory(load, site.specs[k].value, Told(events, k), name);
      }
    }
  }

  /** So is the last lookup of any run over new stores answered. */
  lemma RunTells(load: Loader, site: DriverRuns.Site, events: seq<DriverRuns.Event>, name: string, named: Option<nat>)
    requires site.host.Some? ==> site.host.value < |site.specs|
    requires AllPossible(site, events + [DriverRuns.Lookup(name, named)])
    ensures var news := seq(|site.specs|, _ => NEW);
            var all := DriverRuns.Uncached(load, site, news, None, events + [DriverRuns.Lookup(name, named)]);
            all != [] && ToldAnswer(site, events, name, named, all[|all| - 1])
  {
    var past: seq<seq<Write>> := seq(|site.specs|, _ => []);
    var answers, answer := RunEnds(load, site, past, None, events, name, named);
    assert Stores(past) == seq(|site.specs|, _ => NEW);
    NewStoresTell(load, site, past, events, name, named, answer);
    assert (answers + [answer])[|answers|] == answer;
  }
}
