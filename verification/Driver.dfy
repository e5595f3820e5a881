/** The ontology driver: a cache over one store at a time, re-verified by stamps, against a fresh read. */
module Driver {
  import opened Outcomes
  import opened Lattice

  datatype Synset = Synset(name: string, pos: string, counts: map<string, int>, ic: Option<real>, icSe: Option<real>,
                           hyper: set<string>, inst: set<string>)

  // ---- what a read without any cache answers ----

  function Stripped(lang: Lang, id: string): string {
    if lang.prefix != "" && lang.prefix <= id then id[|lang.prefix|..] else id
  }

  /** The ids a concept name may live at, in the order they are tried. */
  function ConceptIds(lang: Lang, name: string): seq<string> {
    if name == "" then []
    else if lang.prefix != "" && lang.prefix <= name then [name]
    else if lang.prefix != "" then [lang.prefix + name, name]
    else [name]
  }

  function Targets(lang: Lang, s: Snapshot, id: string, labels: set<string>): set<string> {
    set e | e in OutEdges(s, id) && e.1 in labels :: Stripped(lang, e.2)
  }

  /** Parents come off the doc where it lists any, else off the is-a edges; an edge under an instance label is an
      instance link. */
  function Build(lang: Lang, s: Snapshot, name: string, id: string): Synset
    requires id in s.rows
  {
    var doc := s.rows[id].doc;
    var listed := doc.hypernyms + doc.instances != {};
    Synset(name, doc.pos, doc.counts, doc.ic, doc.icSe,
           if listed then set h | h in doc.hypernyms :: Stripped(lang, h)
           else Targets(lang, s, id, lang.isa - lang.instance),
           if listed then set h | h in doc.instances :: Stripped(lang, h)
           else Targets(lang, s, id, lang.instance))
  }

  function FirstHeld(s: Snapshot, ids: seq<string>): (id: Option<string>)
    ensures id.Some? ==> id.value in s.rows && id.value in ids
  {
    if ids == [] then None else if ids[0] in s.rows then Some(ids[0]) else FirstHeld(s, ids[1..])
  }

  function BuildAt(lang: Lang, s: Snapshot, name: string, id: Option<string>): Option<Synset> {
    if id.Some? && id.value in s.rows then Some(Build(lang, s, name, id.value)) else None
  }

  /** The whole-corpus index of a store that has no keyed substrate. */
  type Loader = Snapshot -> map<string, Synset>

  function Fresh(load: Loader, spec: Option<Lang>, s: Snapshot, name: string): Option<Synset> {
    match spec
    case Some(lang) => BuildAt(lang, s, name, FirstHeld(s, ConceptIds(lang, name)))
    case None => if name in load(s) then Some(load(s)[name]) else None
  }

  /** Equal stamps, equal synset: everything `Build` reads is stamped. */
  lemma StampedBuild(lang: Lang, s: Snapshot, t: Snapshot, name: string, id: string)
    requires Reached(s) && Leads(s, t) && id in s.rows && StampOf(s, id) == StampOf(t, id)
    ensures id in t.rows && Build(lang, s, name, id) == Build(lang, t, name, id)
  {
    StampSound(s, t, id);
  }

  // ---- the id an entry was resolved to is the only one it is verified against ----

  /** Where the driver looks: the pinned id if an entry has one, else the candidates in order. */
  function ResolvedId(lang: Lang, s: Snapshot, name: string, pin: Option<string>): Option<string> {
    match pin
    case Some(id) => if id in s.rows then pin else None
    case None => FirstHeld(s, ConceptIds(lang, name))
  }

  /** A pinned id is where a fresh read would look exactly when nothing earlier in the order is held and, if the
      pinned row is gone, nothing else is held either. */
  lemma {:induction false} PinIsCurrent(lang: Lang, s: Snapshot, name: string, pin: string)
    requires pin in ConceptIds(lang, name)
    ensures ResolvedId(lang, s, name, Some(pin)) == FirstHeld(s, ConceptIds(lang, name)) <==>
              forall id :: id in ConceptIds(lang, name) && id != pin && id in s.rows ==>
                && pin in s.rows
                && ConceptIds(lang, name)[0] == pin
  {
    var ids := ConceptIds(lang, name);
    if |ids| == 2 {
      assert FirstHeld(s, ids[1..]) == if ids[1] in s.rows then Some(ids[1]) else None;
    }
  }

  /** A name cached at its bare id does not notice the prefixed id being written afterwards. */
  lemma PreferredIdGoesUnnoticed(load: Loader)
    ensures var lang := Lang("wn-", {"hypernym"}, {"instance_of"});
            var before := Apply(NEW, Put("cow", Doc("n", map[], None, None, {"animal"}, {})));
            var after := Apply(before, Put("wn-cow", Doc("n", map[], None, None, {"bovine"}, {})));
            && FirstHeld(before, ConceptIds(lang, "cow")) == Some("cow")
            && BuildAt(lang, after, "cow", ResolvedId(lang, after, "cow", Some("cow")))
               != Fresh(load, Some(lang), after, "cow")
  {
    var lang := Lang("wn-", {"hypernym"}, {"instance_of"});
    var before := Apply(NEW, Put("cow", Doc("n", map[], None, None, {"animal"}, {})));
    var after := Apply(before, Put("wn-cow", Doc("n", map[], None, None, {"bovine"}, {})));
    var w := lang.prefix;
    assert w[0] == 'w' && "cow"[0] != w[0] && "animal"[0] != w[0] && "bovine"[0] != w[0];
    assert w + "cow" == "wn-cow";
    assert ConceptIds(lang, "cow") == ["wn-cow", "cow"];
    assert FirstHeld(before, ["cow"]) == Some("cow");
    assert Stripped(lang, "animal") == "animal" && Stripped(lang, "bovine") == "bovine";
    assert Build(lang, after, "cow", "cow").hyper == {"animal"};
    assert Build(lang, after, "cow", "wn-cow").hyper == {"bovine"};
    assert "bovine" !in {"animal"};
  }

  /** No name has two candidate ids among those a store ever holds. */
  ghost predicate OneIdPerName(lang: Lang, ids: set<string>) {
    forall name: string, a, b :: a in ConceptIds(lang, name) && b in ConceptIds(lang, name) && a in ids && b in ids ==>
      a == b
  }

  lemma OneIdResolves(lang: Lang, s: Snapshot, ids: set<string>, name: string, pin: string)
    requires OneIdPerName(lang, ids) && s.rows.Keys <= ids
    requires pin in ids && pin in ConceptIds(lang, name)
    ensures ResolvedId(lang, s, name, Some(pin)) == FirstHeld(s, ConceptIds(lang, name))
  {
    PinIsCurrent(lang, s, name, pin);
  }

  // ---- the driver's own state ----

  lemma SameMark(s: Snapshot, t: Snapshot)
    requires Reached(s) && Leads(s, t) && s.next == t.next
    ensures s == t
  {
    HistoryFacts(s, t);
  }

  /** The generation it was last verified at, the stamp it was built under, the synset, and the id it was read from. */
  datatype Entry = Entry(gen: nat, stamp: Stamp, syn: Synset, id: string)

  /** Each entry is what its id held at the moment it was stamped, and an entry of this generation has the stamp
      its id had when the store was last seen. */
  ghost predicate EntriesOk(spec: Option<Lang>, ids: set<string>, cache: map<string, Entry>, wit: map<string, Snapshot>,
                            seen: Snapshot, gen: nat) {
    forall name :: EntryAt(spec, ids, cache, wit, name, seen, gen)
  }

  ghost predicate EntryAt(spec: Option<Lang>, ids: set<string>, cache: map<string, Entry>, wit: map<string, Snapshot>,
                          name: string, seen: Snapshot, gen: nat) {
    name in cache ==> name in wit && EntryOk(spec, ids, name, cache[name], wit[name], seen, gen)
  }

  ghost predicate EntryOk(spec: Option<Lang>, ids: set<string>, name: string, e: Entry, w: Snapshot, seen: Snapshot,
                          gen: nat) {
    && spec.Some? && e.id in w.rows && e.id in ids && e.id in ConceptIds(spec.value, name)
    && Reached(w) && Leads(w, seen)
    && e.stamp == StampOf(w, e.id) && e.syn == Build(spec.value, w, name, e.id)
    && e.gen <= gen && (e.gen == gen ==> StampOf(seen, e.id) == e.stamp)
  }

  /** A new generation keeps every entry and verifies none. */
  lemma EntriesAge(spec: Option<Lang>, ids: set<string>, cache: map<string, Entry>, wit: map<string, Snapshot>,
                   seen: Snapshot, now: Snapshot, gen: nat)
    requires EntriesOk(spec, ids, cache, wit, seen, gen) && Leads(seen, now)
    ensures EntriesOk(spec, ids, cache, wit, now, gen + 1)
  {
    var older := gen + 1;
    forall name
      ensures EntryAt(spec, ids, cache, wit, name, now, older)
    {
      assert EntryAt(spec, ids, cache, wit, name, seen, gen);
      if name in cache {
        LeadsTrans(wit[name], seen, now);
      }
    }
  }

  /** Adding a good entry, or dropping one, keeps the rest good. */
  lemma EntriesWith(spec: Option<Lang>, ids: set<string>, cache: map<string, Entry>, wit: map<string, Snapshot>,
                    seen: Snapshot, gen: nat, name: string, e: Entry, w: Snapshot)
    requires EntriesOk(spec, ids, cache, wit, seen, gen) && EntryOk(spec, ids, name, e, w, seen, gen)
    ensures EntriesOk(spec, ids, cache[name := e], wit[name := w], seen, gen)
  {
    var more, moments := cache[name := e], wit[name := w];
    forall n
      ensures EntryAt(spec, ids, more, moments, n, seen, gen)
    {
      assert EntryAt(spec, ids, cache, wit, n, seen, gen);
    }
  }

  lemma EntriesWithout(spec: Option<Lang>, ids: set<string>, cache: map<string, Entry>, wit: map<string, Snapshot>,
                       seen: Snapshot, gen: nat, name: string)
    requires EntriesOk(spec, ids, cache, wit, seen, gen)
    ensures EntriesOk(spec, ids, cache - {name}, wit, seen, gen)
  {
    var fewer := cache - {name};
    forall n
      ensures EntryAt(spec, ids, fewer, wit, n, seen, gen)
    {
      assert EntryAt(spec, ids, cache, wit, n, seen, gen);
    }
  }

  /** An entry whose stamp is the present one is the present build. */
  lemma EntryHolds(lang: Lang, ids: set<string>, name: string, e: Entry, w: Snapshot, seen: Snapshot, gen: nat)
    requires EntryOk(Some(lang), ids, name, e, w, seen, gen) && StampOf(seen, e.id) == e.stamp
    ensures BuildAt(lang, seen, name, Some(e.id)) == Some(e.syn)
  {
    StampedBuild(lang, w, seen, name, e.id);
  }

  datatype NoStore = OntologyStoreRequired

  class OntologyDriver {
    const load: Loader
    const provider: Store?        // the store the host's provider hands out, if a host registered one
    var source: Store?            // the store last named
    var deflt: Store?             // what the provider produced, once asked
    var mark: Option<nat>
    var gen: nat
    var cache: map<string, Entry>
    var index: Option<map<string, Synset>>
    var indexGen: int
    ghost var home: Store?                  // the store the caches were read from
    ghost var seen: Snapshot                // that store, as it was when last observed
    ghost var wit: map<string, Snapshot>    // for each entry, the moment its stamp was taken

    constructor (load: Loader, provider: Store?)
      ensures Coherent() && Empty() && source == null && deflt == null
      ensures this.load == load && this.provider == provider
    {
      this.load, this.provider := load, provider;
      source, deflt, mark, gen := null, null, None, 0;
      cache, index, indexGen := map[], None, -1;
      home, seen, wit := null, Snapshot(map[], map[], 0), map[];
    }

    predicate Empty()
      reads this
    {
      cache == map[] && index == None
    }

    function Current(): Store?
      reads this
    {
      if source != null then source else deflt
    }

    /** Each entry is what its store held when stamped, and one verified at this generation still is. */
    ghost predicate Coherent()
      reads this
    {
      && (deflt != null ==> deflt == provider)
      && (!Empty() ==> home != null && home == Current() && (mark.Some? ==> mark.value == seen.next))
      && (home != null ==> EntriesOk(home.spec, home.ids, cache, wit, seen, gen))
      && (index.Some? && indexGen == gen ==> index.value == load(seen))
    }

    /** The store the caches came from has only been written to since, never replaced. */
    ghost predicate Linked()
      reads this, home
    {
      !Empty() && home != null ==> home.Valid() && Reached(seen) && Leads(seen, home.Snap())
    }

    ghost predicate Observed(a: Store)
      reads this, a
    {
      && Coherent() && home == a && a == Current() && a.Valid() && seen == a.Snap()
      && (mark.Some? ==> mark.value == seen.next)
    }

    /** `_gate`: read the write mark; if it moved, or cannot be read, nothing cached counts as verified any more. */
    method Gate(a: Store)
      requires Coherent() && Linked() && a.Valid() && a == Current() && (!Empty() ==> a == home)
      modifies this
      ensures Observed(a)
      ensures source == old(source) && deflt == old(deflt) && cache == old(cache) && gen >= old(gen)
    {
      var verifiable := *;
      var m := if verifiable then Some(a.next) else None;
      if m.Some? && m == mark {
        if !Empty() {
          SameMark(seen, a.Snap());
        }
        home, seen := a, a.Snap();
        return;
      }
      if !Empty() {
        EntriesAge(a.spec, a.ids, cache, wit, seen, a.Snap(), gen);
      }
      home, seen := a, a.Snap();
      mark, gen, index := m, gen + 1, None;
    }

    /** `_invalidate`. */
    method Invalidate()
      requires Coherent()
      modifies this
      ensures Coherent() && Empty() && mark == None
      ensures source == old(source) && deflt == old(deflt)
    {
      mark, gen, cache, index := None, gen + 1, map[], None;
    }

    function Which(store: Store?): Store?
      reads this
    {
      if store != null then store else if source != null then source else provider
    }

    /** `_arts`: the store named, else the one last named, else the host's; naming another store drops every cache. */
    method Arts(store: Store?) returns (a: Store?)
      requires Coherent() && Linked()
      modifies this
      ensures Coherent() && Linked()
      ensures a == old(Which(store))
      ensures a != null ==> a == Current() && (!Empty() ==> a == home)
      ensures source == if store != null then store else old(source)
    {
      if store == null {
        if source != null {
          return source;
        }
        if deflt == null {
          deflt := provider;
        }
        return deflt;
      }
      if store != source {
        if !Empty() {
          Invalidate();
        }
        source := store;
      }
      return store;
    }

    /** `bind`; `bind(None)` releases the store and forgets what the provider produced. */
    method Bind(store: Store?)
      requires Coherent() && Linked()
      modifies this
      ensures Coherent() && Linked() && source == store
      ensures store == null ==> Empty() && deflt == null && mark == None
    {
      if store == null {
        source, deflt := null, null;
        mark, gen, cache, index := None, gen + 1, map[], None;
      } else {
        var _ := Arts(store);
      }
    }

    method Remember(a: Store, name: string, e: Entry)
      requires Observed(a) && a.spec.Some?
      requires e.id in a.rows && e.id in ConceptIds(a.spec.value, name) && e.gen <= gen
      requires e.stamp == StampOf(a.Snap(), e.id) && e.syn == Build(a.spec.value, a.Snap(), name, e.id)
      modifies this
      ensures Observed(a) && source == old(source) && deflt == old(deflt)
    {
      LeadsNone(seen);
      EntriesWith(a.spec, a.ids, cache, wit, seen, gen, name, e, seen);
      cache := cache[name := e];
      wit := wit[name := seen];
    }

    method BuildSynset(a: Store, lang: Lang, name: string, id: string) returns (syn: Synset)
      requires Observed(a) && id in a.rows
      modifies this
      ensures Observed(a) && source == old(source) && deflt == old(deflt) && cache == old(cache) && gen >= old(gen)
      ensures syn == Build(lang, a.Snap(), name, id)
    {
      LeadsNone(seen);
      var doc := a.rows[id].doc;
      if doc.hypernyms + doc.instances == {} {
        Gate(a);       // the raw edge read observes the store again
      }
      syn := Build(lang, a.Snap(), name, id);
    }

    ghost function Pin(name: string): Option<string>
      reads this
    {
      if name in cache then Some(cache[name].id) else None
    }

    /** Read one candidate id and build from it, or pass it by. */
    method ReadId(a: Store, lang: Lang, name: string, id: string, stamp: Option<Stamp>, at: nat)
      returns (hit: Option<Synset>)
      requires Observed(a) && a.spec == Some(lang) && id in ConceptIds(lang, name) && at <= gen
      requires stamp.Some? ==> stamp.value == StampOf(a.Snap(), id)
      modifies this
      ensures Observed(a) && source == old(source) && deflt == old(deflt)
      ensures hit == BuildAt(lang, a.Snap(), name, Some(id))
    {
      if id !in a.rows {
        return None;
      }
      var syn := BuildSynset(a, lang, name, id);
      if stamp.Some? {
        Remember(a, name, Entry(at, stamp.value, syn, id));
      }
      return Some(syn);
    }

    method Stamped(a: Store, id: string) returns (stamp: Option<Stamp>)
      ensures stamp.Some? ==> stamp.value == StampOf(a.Snap(), id)
    {
      var verifiable := *;
      if verifiable {
        var s := a.ReadStamp(id);
        stamp := Some(s);
      } else {
        stamp := None;
      }
    }

    /** A cached entry, verified against the id it was read from, and only that one. */
    method Reverify(a: Store, lang: Lang, name: string) returns (r: Option<Synset>)
      requires Observed(a) && a.spec == Some(lang) && name in cache
      modifies this
      ensures Observed(a) && source == old(source) && deflt == old(deflt)
      ensures r == BuildAt(lang, a.Snap(), name, Some(old(cache)[name].id))
    {
      assert EntryAt(a.spec, a.ids, cache, wit, name, seen, gen);
      var e, at := cache[name], gen;
      var stamp := Stamped(a, e.id);
      if stamp == Some(e.stamp) {
        EntryHolds(lang, a.ids, name, e, wit[name], seen, gen);
        Remember(a, name, Entry(at, e.stamp, e.syn, e.id));
        return Some(e.syn);
      }
      r := ReadId(a, lang, name, e.id, stamp, at);
    }

    /** `_get_synset`: an entry of this generation is answered untouched; any other is verified or read again. */
    method GetSynset(a: Store, lang: Lang, name: string) returns (r: Option<Synset>)
      requires Observed(a) && a.spec == Some(lang)
      modifies this
      ensures Observed(a) && source == old(source) && deflt == old(deflt)
      ensures r == BuildAt(lang, a.Snap(), name, ResolvedId(lang, a.Snap(), name, old(Pin(name))))
    {
      assert EntryAt(a.spec, a.ids, cache, wit, name, seen, gen);
      if name in cache && cache[name].gen == gen {
        EntryHolds(lang, a.ids, name, cache[name], wit[name], seen, gen);
        return Some(cache[name].syn);
      }
      LeadsNone(seen);
      Gate(a);
      if name in cache {
        r := Reverify(a, lang, name);
      } else {
        r := TryCandidates(a, lang, name, ConceptIds(lang, name));
      }
      if r == None {
        Forget(a, name);
      }
    }

    method Forget(a: Store, name: string)
      requires Observed(a)
      modifies this
      ensures Observed(a) && source == old(source) && deflt == old(deflt)
    {
      EntriesWithout(a.spec, a.ids, cache, wit, seen, gen, name);
      cache := cache - {name};
    }

    method TryCandidates(a: Store, lang: Lang, name: string, ids: seq<string>) returns (r: Option<Synset>)
      requires Observed(a) && a.spec == Some(lang)
      requires forall id :: id in ids ==> id in ConceptIds(lang, name)
      modifies this
      ensures Observed(a) && source == old(source) && deflt == old(deflt)
      ensures r == BuildAt(lang, a.Snap(), name, FirstHeld(a.Snap(), ids))
    {
      var i := 0;
      while i < |ids|
        invariant i <= |ids| && Observed(a) && source == old(source) && deflt == old(deflt)
        invariant FirstHeld(a.Snap(), ids) == FirstHeld(a.Snap(), ids[i..])
      {
        var stamp := Stamped(a, ids[i]);
        r := ReadId(a, lang, name, ids[i], stamp, gen);
        if r.Some? {
          return;
        }
        i := i + 1;
      }
      return None;
    }

    /** `_index`: the whole-corpus index, rebuilt whenever it is not of this generation. */
    method Index(a: Store) returns (idx: map<string, Synset>)
      requires Observed(a)
      modifies this
      ensures Observed(a) && source == old(source) && deflt == old(deflt)
      ensures idx == load(a.Snap())
    {
      LeadsNone(seen);
      Gate(a);
      if index == None || indexGen != gen {
        var at := gen;
        LeadsNone(seen);
        Gate(a);       // the corpus scan observes the store again
        index, indexGen := Some(load(a.Snap())), at;
      }
      idx := index.value;
    }

    /** `synset(name, store=...)`: whatever was cached, and whatever could or could not be verified, the answer is
        the one a fresh read of that store would give, provided names live at one id. */
    method SynsetOf(name: string, store: Store?) returns (r: Result<Option<Synset>, NoStore>)
      requires Coherent() && Linked()
      requires var a := Which(store); a != null ==> a.Valid()
      modifies this
      ensures Coherent() && Linked()
      ensures source == if store != null then store else old(source)
      ensures if old(Which(store)) == null then r == Err(OntologyStoreRequired) else r.Ok?
      ensures r.Ok? ==> var a := old(Which(store));
                (a.spec.Some? ==> OneIdPerName(a.spec.value, a.ids)) ==>
                  r.value == Fresh(load, a.spec, a.Snap(), name)
    {
      var a := Arts(store);
      if a == null {
        return Err(OntologyStoreRequired);
      }
      Gate(a);
      LeadsNone(seen);
      match a.spec
      case Some(lang) =>
        assert EntryAt(a.spec, a.ids, cache, wit, name, seen, gen);
        ghost var pin := Pin(name);
        if OneIdPerName(lang, a.ids) && pin.Some? {
          OneIdResolves(lang, a.Snap(), a.ids, name, pin.value);
        }
        var syn := GetSynset(a, lang, name);
        r := Ok(syn);
      case None =>
        var idx := Index(a);
        r := Ok(if name in idx then Some(idx[name]) else None);
    }
  }
}
