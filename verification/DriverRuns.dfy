/** Whole runs of the driver over several stores, against the same run with no cache at all. */
module DriverRuns {
  import opened Outcomes
  import opened Lattice
  import opened Driver

  datatype Event =
    | Commit(store: nat, w: Write)
    | Lookup(name: string, named: Option<nat>)
    | BindTo(bound: Option<nat>)
    | DropCaches

  /** The stores by number: their specs, the ids each ever holds, and which one the host provides. */
  datatype Site = Site(specs: seq<Option<Lang>>, ids: seq<set<string>>, host: Option<nat>)

  predicate Possible(site: Site, e: Event) {
    match e
    case Commit(k, w) => k < |site.specs| == |site.ids| && (w.Put? ==> w.id in site.ids[k])
    case Lookup(_, named) => named.Some? ==> named.value < |site.specs|
    case BindTo(bound) => bound.Some? ==> bound.value < |site.specs|
    case DropCaches => true
  }

  ghost predicate WellNamed(site: Site) {
    && |site.ids| == |site.specs| && (site.host.Some? ==> site.host.value < |site.specs|)
    && forall k :: 0 <= k < |site.specs| && site.specs[k].Some? ==> OneIdPerName(site.specs[k].value, site.ids[k])
  }

  function Reads(site: Site, source: Option<nat>, named: Option<nat>): Option<nat> {
    if named.Some? then named else if source.Some? then source else site.host
  }

  // ---- one event and a whole run with no cache: a lookup with no store to read is refused ----

  function SnapsAfter(snaps: seq<Snapshot>, e: Event): seq<Snapshot>
    requires e.Commit? ==> e.store < |snaps|
  {
    if e.Commit? then snaps[e.store := Apply(snaps[e.store], e.w)] else snaps
  }

  function SourceAfter(source: Option<nat>, e: Event): Option<nat> {
    if e.BindTo? then e.bound else if e.Lookup? && e.named.Some? then e.named else source
  }

  function AnswerTo(load: Loader, site: Site, snaps: seq<Snapshot>, source: Option<nat>, e: Event)
    : seq<Result<Option<Synset>, NoStore>>
    requires |snaps| == |site.specs| && Possible(site, e)
    requires (source.Some? ==> source.value < |snaps|) && (site.host.Some? ==> site.host.value < |snaps|)
  {
    if !e.Lookup? then []
    else
      var k := Reads(site, source, e.named);
      [if k == None then Err(OntologyStoreRequired) else Ok(Fresh(load, site.specs[k.value], snaps[k.value], e.name))]
  }

  function Uncached(load: Loader, site: Site, snaps: seq<Snapshot>, source: Option<nat>, events: seq<Event>)
    : seq<Result<Option<Synset>, NoStore>>
    requires |snaps| == |site.specs| && (source.Some? ==> source.value < |snaps|)
    requires site.host.Some? ==> site.host.value < |snaps|
    requires forall e :: e in events ==> Possible(site, e)
    decreases |events|
  {
    if events == [] then []
    else
      assert events[0] in events;
      AnswerTo(load, site, snaps, source, events[0])
      + Uncached(load, site, SnapsAfter(snaps, events[0]), SourceAfter(source, events[0]), events[1..])
  }

  function Snaps(stores: seq<Store>): seq<Snapshot>
    reads stores
  {
    seq(|stores|, k requires 0 <= k < |stores| reads stores => stores[k].Snap())
  }

  function Pick(stores: seq<Store>, k: Option<nat>): Store?
    requires k.Some? ==> k.value < |stores|
  {
    if k.Some? then stores[k.value] else null
  }

  /** The driver and its stores agree with `site`, and the store last named is number `source`. */
  ghost predicate Stands(d: OntologyDriver, stores: seq<Store>, site: Site, source: Option<nat>)
    reads d, d.home, stores
  {
    && WellNamed(site) && |stores| == |site.specs|
    && (forall j, k :: 0 <= j < k < |stores| ==> stores[j] != stores[k])
    && (forall k :: 0 <= k < |stores| ==>
          stores[k].Valid() && stores[k].spec == site.specs[k] && stores[k].ids == site.ids[k])
    && d.Coherent() && d.Linked()
    && (source.Some? ==> source.value < |stores|) && d.source == Pick(stores, source)
    && d.provider == Pick(stores, site.host)
  }

  method Write(d: OntologyDriver, stores: seq<Store>, site: Site, source: Option<nat>, k: nat, w: Lattice.Write)
    requires Stands(d, stores, site, source) && Possible(site, Commit(k, w))
    modifies stores
    ensures Stands(d, stores, site, source)
    ensures Snaps(stores) == old(Snaps(stores))[k := Apply(old(Snaps(stores))[k], w)]
  {
    ghost var before := stores[k].Snap();
    stores[k].Commit(w);
    if !d.Empty() && d.home == stores[k] {
      LeadsTrans(d.seen, before, stores[k].Snap());
    }
  }

  method Answer(d: OntologyDriver, stores: seq<Store>, site: Site, source: Option<nat>, name: string,
                named: Option<nat>)
    returns (r: Result<Option<Synset>, NoStore>)
    requires Stands(d, stores, site, source) && Possible(site, Lookup(name, named))
    modifies d
    ensures Stands(d, stores, site, SourceAfter(source, Lookup(name, named)))
    ensures [r] == AnswerTo(d.load, site, Snaps(stores), source, Lookup(name, named))
  {
    var k := Reads(site, source, named);
    ghost var a := d.Which(Pick(stores, named));
    assert a == Pick(stores, k);
    r := d.SynsetOf(name, Pick(stores, named));
    if k.Some? {
      assert a.spec == site.specs[k.value] && a.ids == site.ids[k.value];
      assert site.specs[k.value].Some? ==> OneIdPerName(site.specs[k.value].value, site.ids[k.value]);
      assert r.Ok? && r.value == Fresh(d.load, a.spec, a.Snap(), name);
      assert Snaps(stores)[k.value] == a.Snap();
    }
  }

  method Step(d: OntologyDriver, stores: seq<Store>, site: Site, source: Option<nat>, e: Event)
    returns (answers: seq<Result<Option<Synset>, NoStore>>)
    requires Stands(d, stores, site, source) && Possible(site, e)
    modifies d, stores
    ensures Stands(d, stores, site, SourceAfter(source, e))
    ensures Snaps(stores) == SnapsAfter(old(Snaps(stores)), e)
    ensures answers == AnswerTo(d.load, site, old(Snaps(stores)), source, e)
  {
    answers := [];
    match e {
      case Commit(k, w) => Write(d, stores, site, source, k, w);
      case DropCaches => d.Invalidate();
      case BindTo(bound) => d.Bind(Pick(stores, bound));
      case Lookup(name, named) =>
        var r := Answer(d, stores, site, source, name, named);
        answers := [r];
    }
  }

  /** Under any interleaving of writes, lookups, bindings and drops over any number of stores, the cached driver
      answers exactly what uncached reads would. */
  method Run(d: OntologyDriver, stores: seq<Store>, site: Site, start: Option<nat>, events: seq<Event>)
    returns (answers: seq<Result<Option<Synset>, NoStore>>)
    requires Stands(d, stores, site, start)
    requires forall e :: e in events ==> Possible(site, e)
    modifies d, stores
    ensures answers == Uncached(d.load, site, old(Snaps(stores)), start, events)
  {
    answers := [];
    var source := start;
    ghost var all := Uncached(d.load, site, Snaps(stores), start, events);
    assert events[0..] == events;
    var i := 0;
    while i < |events|
      invariant i <= |events| && Stands(d, stores, site, source)
      invariant Remaining(d.load, site, Snaps(stores), source, events, i, answers, all)
    {
      assert events[i] in events && Possible(site, events[i]);
      ghost var before := Snaps(stores);
      var more := Step(d, stores, site, source, events[i]);
      RemainingStep(d.load, site, before, source, events, i, answers, all);
      answers, source, i := answers + more, SourceAfter(source, events[i]), i + 1;
    }
  }

  /** What has been answered, and what an uncached run would still answer, make up the whole. */
  ghost predicate Remaining(load: Loader, site: Site, snaps: seq<Snapshot>, source: Option<nat>, events: seq<Event>,
                            i: nat, answers: seq<Result<Option<Synset>, NoStore>>,
                            all: seq<Result<Option<Synset>, NoStore>>)
    requires forall e :: e in events ==> Possible(site, e)
  {
    && i <= |events| && |snaps| == |site.specs| && (source.Some? ==> source.value < |snaps|)
    && (site.host.Some? ==> site.host.value < |snaps|)
    && answers + Uncached(load, site, snaps, source, events[i..]) == all
  }

  lemma RemainingStep(load: Loader, site: Site, snaps: seq<Snapshot>, source: Option<nat>, events: seq<Event>,
                      i: nat, answers: seq<Result<Option<Synset>, NoStore>>,
                      all: seq<Result<Option<Synset>, NoStore>>)
    requires forall e :: e in events ==> Possible(site, e)
    requires i < |events| && Possible(site, events[i]) && Remaining(load, site, snaps, source, events, i, answers, all)
    ensures Remaining(load, site, SnapsAfter(snaps, events[i]), SourceAfter(source, events[i]), events, i + 1,
                      answers + AnswerTo(load, site, snaps, source, events[i]), all)
  {
    assert events[i..][0] == events[i] && events[i..][1..] == events[i + 1..];
  }
}
