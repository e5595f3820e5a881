/**
 * An operator's track record: evidence about one behaviour, carried over re-registration and dropped with the
 * behaviour.
 */
module Evidence {
  import opened Outcomes

  /** FITNESS_FIELDS. */
  datatype Field = Invocations | Verified | Refuted | OutputUses | Uses

  type Counters = map<Field, nat>

  datatype SpecChange = SpecChange(was: Option<(string, string)>, now: Option<(string, string)>, discarded: Counters)

  datatype Doc = Doc(
    id: string, contentType: string, kind: string, spec: string, counters: Counters, producer: string, archived: bool,
    createdBy: string, citedFrom: string, provenance: string, specChange: Option<SpecChange>)

  /** `op.get(f, 0)`. */
  function Get(c: Counters, f: Field): nat {
    if f in c then c[f] else 0
  }

  /** What the spec hash addresses; an operator without a kind has no executable content. */
  function Behaviour(d: Doc): Option<(string, string)> {
    if d.kind == "" then None else Some((d.kind, d.spec))
  }

  function Given(incoming: string, held: string): string {
    if incoming == "" then held else incoming
  }

  /** A process author never displaces a creator; a person does. */
  function Creator(incoming: string, held: string, process: string -> bool): string {
    if held != "" && (incoming == "" || process(incoming)) then held else incoming
  }

  function PreserveFitness(ex: Option<Doc>, d: Doc, process: string -> bool): Doc {
    if ex == None then d
    else
      var e := ex.value;
      var carried := if Behaviour(e) == Behaviour(d) then d.(counters := d.counters + e.counters)
                     else d.(specChange := Some(SpecChange(Behaviour(e), Behaviour(d), e.counters)));
      carried.(citedFrom := Given(d.citedFrom, e.citedFrom), provenance := Given(d.provenance, e.provenance),
               createdBy := Creator(d.createdBy, e.createdBy, process))
  }

  /** What evidence there was about the behaviour a definition names. */
  function Carried(ex: Option<Doc>, d: Doc): Counters {
    if ex.Some? && Behaviour(ex.value) == Behaviour(d) then ex.value.counters else map[]
  }

  /** The same executable content: neither has any, or both have the same kind and spec. */
  predicate SameBehaviour(d: Doc, e: Doc) {
    d.kind == e.kind && (d.kind != "" ==> d.spec == e.spec)
  }

  lemma BehaviourMeans(d: Doc, e: Doc)
    ensures Behaviour(d) == Behaviour(e) <==> SameBehaviour(d, e)
  {
  }

  /** Registered again with the same kind and spec an operator keeps every counter it has; with another it keeps none,
      and the change is recorded with what was discarded. */
  lemma EvidenceGoesWithBehaviour(e: Doc, d: Doc, process: string -> bool)
    ensures var r := PreserveFitness(Some(e), d, process);
            if SameBehaviour(e, d) then
              && r.specChange == d.specChange
              && forall f :: Get(r.counters, f) == if f in e.counters then e.counters[f] else Get(d.counters, f)
            else
              && r.counters == d.counters && r.specChange.Some? && r.specChange.value.discarded == e.counters
              && (r.specChange.value.was == None <==> e.kind == "")
              && (r.specChange.value.now == None <==> d.kind == "")
              && (e.kind != "" ==> r.specChange.value.was == Some((e.kind, e.spec)))
              && (d.kind != "" ==> r.specChange.value.now == Some((d.kind, d.spec)))
  {
    BehaviourMeans(e, d);
  }

  /** Beside its evidence a registration replaces all but what must not be lost: a citation or provenance it does not
      give, and a creator it does not name or names only as a process. */
  lemma RegistrationReplaces(e: Doc, d: Doc, process: string -> bool)
    ensures var r := PreserveFitness(Some(e), d, process);
            && r.id == d.id && r.contentType == d.contentType && r.kind == d.kind && r.spec == d.spec
            && r.producer == d.producer && r.archived == d.archived
            && (d.citedFrom != "" ==> r.citedFrom == d.citedFrom)
            && (d.citedFrom == "" ==> r.citedFrom == e.citedFrom)
            && (d.provenance != "" ==> r.provenance == d.provenance)
            && (d.provenance == "" ==> r.provenance == e.provenance)
            && (d.createdBy != "" && !process(d.createdBy) ==> r.createdBy == d.createdBy)
            && (e.createdBy != "" && (d.createdBy == "" || process(d.createdBy)) ==> r.createdBy == e.createdBy)
            && (e.createdBy == "" ==> r.createdBy == d.createdBy)
  {
  }

  /**
   * A definition's own counters are ignored exactly where its behaviour already has some: elsewhere they are
   * believed.
   */
  lemma BelievedExactly(ex: Option<Doc>, d: Doc, process: string -> bool)
    ensures (forall f :: Get(PreserveFitness(ex, d, process).counters, f) == Get(Carried(ex, d), f)) <==>
            (forall f :: f in d.counters && d.counters[f] > 0 ==> f in Carried(ex, d))
  {
    var r := PreserveFitness(ex, d, process).counters;
    assert forall f :: Get(r, f) == if f in Carried(ex, d) then Carried(ex, d)[f] else Get(d.counters, f);
  }

  /** A first registration that claims a success is believed. */
  lemma FirstClaimBelieved(d: Doc, n: nat, process: string -> bool)
    requires n > 0 && d.counters == map[Verified := n]
    ensures Get(PreserveFitness(None, d, process).counters, Verified) == n > Get(Carried(None, d), Verified)
  {
  }

  // ---- the history of one store ----

  datatype Event =
    | Registered(doc: Doc)
    | Invoked(id: string, verified: Option<bool>)
    | Used(id: string)
    | OutputUsed(id: string)

  predicate Registers(e: Event, id: string) {
    e.Registered? && e.doc.id == id
  }

  function Subject(e: Event): string {
    match e
    case Registered(d) => d.id
    case Invoked(i, _) => i
    case Used(i) => i
    case OutputUsed(i) => i
  }

  /** The event counts towards the field of the artifact. */
  predicate Credits(e: Event, id: string, f: Field) {
    match e
    case Registered(_) => false
    case Invoked(i, v) =>
      i == id && (f == Invocations || (f == Verified && v == Some(true)) || (f == Refuted && v == Some(false)))
    case Used(i) => i == id && f == Uses
    case OutputUsed(i) => i == id && f == OutputUses
  }

  function Count(log: seq<Event>, id: string, f: Field): nat {
    if log == [] then 0 else Count(log[..|log| - 1], id, f) + if Credits(log[|log| - 1], id, f) then 1 else 0
  }

  /** The definition registered last. */
  function LastRegistered(log: seq<Event>, id: string): Option<Doc> {
    if log == [] then None
    else if Registers(log[|log| - 1], id) then Some(log[|log| - 1].doc)
    else LastRegistered(log[..|log| - 1], id)
  }

  /** Event `i` gave the artifact a behaviour it did not have just before. */
  predicate Changes(log: seq<Event>, i: nat, id: string)
    requires i < |log|
  {
    var before := LastRegistered(log[..i], id);
    Registers(log[i], id) && (before == None || Behaviour(before.value) != Behaviour(log[i].doc))
  }

  /** `since` is the last change of the artifact's behaviour. */
  ghost predicate LastChange(log: seq<Event>, id: string, since: nat) {
    since < |log| && Changes(log, since, id) && forall i :: since < i < |log| ==> !Changes(log, i, id)
  }

  lemma {:induction false} LastChangeExists(log: seq<Event>, id: string)
    requires LastRegistered(log, id).Some?
    ensures exists since: nat :: LastChange(log, id, since)
  {
    var n := |log| - 1;
    if Changes(log, n, id) {
      assert LastChange(log, id, n);
    } else {
      var rest := log[..n];
      LastChangeExists(rest, id);
      var since: nat :| LastChange(rest, id, since);
      forall i | 0 <= i < n
        ensures Changes(rest, i, id) == Changes(log, i, id)
      {
        assert rest[..i] == log[..i];
      }
      assert LastChange(log, id, since);
    }
  }

  lemma ChangesAppend(log: seq<Event>, e: Event, id: string)
    ensures forall i :: 0 <= i < |log| ==> Changes(log + [e], i, id) == Changes(log, i, id)
    ensures var last := LastRegistered(log, id);
            Changes(log + [e], |log|, id) ==
              (Registers(e, id) && (last == None || Behaviour(last.value) != Behaviour(e.doc)))
  {
    assert (log + [e])[..|log|] == log;
    forall i | 0 <= i < |log|
      ensures Changes(log + [e], i, id) == Changes(log, i, id)
    {
      assert (log + [e])[..i] == log[..i];
    }
  }

  /** The counters are what was recorded since the behaviour last changed. */
  ghost predicate Earned(log: seq<Event>, id: string, c: Counters) {
    forall since: nat, f :: LastChange(log, id, since) ==> Get(c, f) == Count(log[since..], id, f)
  }

  lemma {:induction false} CountFresh(e: Event, id: string, f: Field)
    requires e.Registered?
    ensures Count([e], id, f) == 0
  {
    assert [e][..0] == [];
  }

  /** One more event moves each counter by what it credits, or, changing the behaviour, sets them all to nothing. */
  lemma EarnedStep(log: seq<Event>, e: Event, id: string, c: Counters, next: Counters)
    requires LastRegistered(log, id).Some? && Earned(log, id, c)
    requires forall f ::
               Get(next, f) ==
               if Changes(log + [e], |log|, id) then 0 else Get(c, f) + if Credits(e, id, f) then 1 else 0
    ensures Earned(log + [e], id, next)
  {
    var more := log + [e];
    ChangesAppend(log, e, id);
    forall since: nat, f | LastChange(more, id, since)
      ensures Get(next, f) == Count(more[since..], id, f)
    {
      if since == |log| {
        assert more[since..] == [e];
        CountFresh(e, id, f);
      } else {
        assert LastChange(log, id, since);
        assert more[since..] == log[since..] + [e];
        assert (log[since..] + [e])[..|log| - since] == log[since..];
      }
    }
  }

  lemma EarnedFromNothing(log: seq<Event>, d: Doc)
    requires LastRegistered(log, d.id) == None && (forall f :: Get(d.counters, f) == 0)
    ensures Earned(log + [Registered(d)], d.id, d.counters)
  {
    var more := log + [Registered(d)];
    ChangesAppend(log, Registered(d), d.id);
    forall since: nat, f | LastChange(more, d.id, since)
      ensures Get(d.counters, f) == Count(more[since..], d.id, f)
    {
      assert since == |log|;
      assert more[since..] == [Registered(d)];
      CountFresh(Registered(d), d.id, f);
    }
  }

  /** Outcomes are a part of the invocations they come with. */
  lemma {:induction false} OutcomesWithinInvocations(log: seq<Event>, id: string)
    ensures Count(log, id, Verified) + Count(log, id, Refuted) <= Count(log, id, Invocations)
  {
    if log != [] {
      OutcomesWithinInvocations(log[..|log| - 1], id);
    }
  }

  // ---- authorship and citation ----

  /** The last person any registration named. */
  function LastPerson(log: seq<Event>, id: string, process: string -> bool): string {
    if log == [] then ""
    else
      var e := log[|log| - 1];
      if Registers(e, id) && e.doc.createdBy != "" && !process(e.doc.createdBy) then e.doc.createdBy
      else LastPerson(log[..|log| - 1], id, process)
  }

  function LastCitation(log: seq<Event>, id: string): string {
    if log == [] then ""
    else
      var e := log[|log| - 1];
      if Registers(e, id) && e.doc.citedFrom != "" then e.doc.citedFrom else LastCitation(log[..|log| - 1], id)
  }

  function LastProvenance(log: seq<Event>, id: string): string {
    if log == [] then ""
    else
      var e := log[|log| - 1];
      if Registers(e, id) && e.doc.provenance != "" then e.doc.provenance else LastProvenance(log[..|log| - 1], id)
  }

  ghost predicate Honest(log: seq<Event>) {
    forall i :: 0 <= i < |log| && log[i].Registered? ==> log[i].doc.counters == map[]
  }

  /** What the history says of one stored artifact. */
  ghost predicate Tracked(log: seq<Event>, id: string, d: Doc, process: string -> bool) {
    var last := LastRegistered(log, id);
    && d.id == id
    && last.Some? && Behaviour(d) == Behaviour(last.value)
    && (Honest(log) ==> Earned(log, id, d.counters))
    && (LastPerson(log, id, process) != "" ==> d.createdBy == LastPerson(log, id, process))
    && d.citedFrom == LastCitation(log, id) && d.provenance == LastProvenance(log, id)
  }

  /** An artifact held is as its history says, and one not held has none. */
  ghost predicate TrackedAt(log: seq<Event>, arts: map<string, Doc>, id: string, process: string -> bool) {
    if id in arts then Tracked(log, id, arts[id], process) else LastRegistered(log, id) == None
  }

  ghost predicate AllTracked(log: seq<Event>, arts: map<string, Doc>, process: string -> bool) {
    forall id :: TrackedAt(log, arts, id, process)
  }

  lemma HonestBefore(log: seq<Event>, e: Event)
    requires Honest(log + [e])
    ensures Honest(log) && (e.Registered? ==> e.doc.counters == map[])
  {
    assert (log + [e])[|log|] == e;
    assert forall i :: 0 <= i < |log| ==> (log + [e])[i] == log[i];
  }

  lemma {:induction false} NeverRegistered(log: seq<Event>, id: string, process: string -> bool)
    requires LastRegistered(log, id) == None
    ensures LastPerson(log, id, process) == "" && LastCitation(log, id) == "" && LastProvenance(log, id) == ""
  {
    if log != [] {
      NeverRegistered(log[..|log| - 1], id, process);
    }
  }

  /** An event about another artifact, or one this artifact's counters record, keeps it tracked. */
  lemma TrackedStep(log: seq<Event>, e: Event, id: string, d: Doc, next: Doc, process: string -> bool)
    requires Tracked(log, id, d, process) && !Registers(e, id)
    requires next == d.(counters := next.counters, archived := next.archived)
    requires forall f :: Get(next.counters, f) == Get(d.counters, f) + if Credits(e, id, f) then 1 else 0
    ensures Tracked(log + [e], id, next, process)
  {
    assert (log + [e])[..|log|] == log;
    if Honest(log + [e]) {
      HonestBefore(log, e);
      ChangesAppend(log, e, id);
      EarnedStep(log, e, id, d.counters, next.counters);
    }
  }

  lemma RegisteredTracked(log: seq<Event>, ex: Option<Doc>, d: Doc, process: string -> bool)
    requires if ex == None then LastRegistered(log, d.id) == None else Tracked(log, d.id, ex.value, process)
    ensures Tracked(log + [Registered(d)], d.id, PreserveFitness(ex, d, process), process)
  {
    var e := Registered(d);
    var r := PreserveFitness(ex, d, process);
    assert (log + [e])[..|log|] == log;
    if Honest(log + [e]) {
      HonestBefore(log, e);
      if ex == None {
        EarnedFromNothing(log, d);
      } else {
        ChangesAppend(log, e, d.id);
        assert forall f :: Get(r.counters, f) == Get(Carried(ex, d), f);
        EarnedStep(log, e, d.id, ex.value.counters, r.counters);
      }
    }
    if ex == None {
      NeverRegistered(log, d.id, process);
    }
  }

  lemma AllTrackedStep(log: seq<Event>, arts: map<string, Doc>, e: Event, id: string, next: Doc,
                       process: string -> bool)
    requires AllTracked(log, arts, process)
    requires Tracked(log + [e], id, next, process)
    requires Subject(e) == id
    ensures AllTracked(log + [e], arts[id := next], process)
  {
    var more, after := log + [e], arts[id := next];
    assert more[..|log|] == log;
    forall other
      ensures TrackedAt(more, after, other, process)
    {
      assert TrackedAt(log, arts, other, process);
      if other in arts && other != id {
        TrackedStep(log, e, other, arts[other], arts[other], process);
      }
    }
  }

  /** The event's subject gained exactly what the event credits, and nothing else changed. */
  ghost predicate Credited(before: map<string, Doc>, after: map<string, Doc>, e: Event) {
    var id := Subject(e);
    && id in before && id in after && after == before[id := before[id].(counters := after[id].counters)]
    && forall f :: Get(after[id].counters, f) == Get(before[id].counters, f) + if Credits(e, id, f) then 1 else 0
  }

  /** Crediting an artifact with an event keeps every artifact tracked. */
  lemma CreditStep(log: seq<Event>, arts: map<string, Doc>, e: Event, id: string, c: Counters, process: string -> bool)
    requires AllTracked(log, arts, process) && id in arts && Subject(e) == id && !e.Registered?
    requires forall f :: Get(c, f) == Get(arts[id].counters, f) + if Credits(e, id, f) then 1 else 0
    ensures AllTracked(log + [e], arts[id := arts[id].(counters := c)], process)
    ensures Credited(arts, arts[id := arts[id].(counters := c)], e)
  {
    assert TrackedAt(log, arts, id, process);
    TrackedStep(log, e, id, arts[id], arts[id].(counters := c), process);
    AllTrackedStep(log, arts, e, id, arts[id].(counters := c), process);
  }

  function Bump(c: Counters, f: Field): Counters {
    c[f := Get(c, f) + 1]
  }

  class OperatorStore {
    const process: string -> bool
    var arts: map<string, Doc>
    ghost var log: seq<Event>

    ghost predicate Valid()
      reads this
    {
      AllTracked(log, arts, process)
    }

    constructor (process: string -> bool)
      ensures Valid() && log == [] && arts == map[] && this.process == process
    {
      this.process, arts, log := process, map[], [];
    }

    /** `put_artifact(preserve_fitness(store, doc))`. */
    method Register(d: Doc)
      requires Valid()
      modifies this
      ensures Valid() && log == old(log) + [Registered(d)]
      ensures arts.Keys == old(arts).Keys + {d.id}
      ensures forall o :: o in old(arts) && o != d.id ==> arts[o] == old(arts)[o]
      ensures arts[d.id] == PreserveFitness(if d.id in old(arts) then Some(old(arts)[d.id]) else None, d, process)
    {
      var ex := if d.id in arts then Some(arts[d.id]) else None;
      assert TrackedAt(log, arts, d.id, process);
      RegisteredTracked(log, ex, d, process);
      AllTrackedStep(log, arts, Registered(d), d.id, PreserveFitness(ex, d, process), process);
      arts := arts[d.id := PreserveFitness(ex, d, process)];
      log := log + [Registered(d)];
    }

    /** `put_artifact` of an artifact whose counters moved. */
    method Put(id: string, c: Counters, ghost e: Event)
      requires Valid() && id in arts && Subject(e) == id && !e.Registered?
      requires forall f :: Get(c, f) == Get(arts[id].counters, f) + if Credits(e, id, f) then 1 else 0
      modifies this
      ensures Valid() && log == old(log) + [e] && Credited(old(arts), arts, e)
      ensures arts == old(arts)[id := old(arts)[id].(counters := c)]
    {
      CreditStep(log, arts, e, id, c, process);
      arts := arts[id := arts[id].(counters := c)];
      log := log + [e];
    }

    method RecordInvocation(id: string, verified: Option<bool>)
      requires Valid()
      modifies this
      ensures Valid()
      ensures log == if id in old(arts) then old(log) + [Invoked(id, verified)] else old(log)
      ensures if id in old(arts) then Credited(old(arts), arts, Invoked(id, verified)) else arts == old(arts)
    {
      if id !in arts {
        return;
      }
      var c := Bump(arts[id].counters, Invocations);
      if verified == Some(true) {
        c := Bump(c, Verified);
      } else if verified == Some(false) {
        c := Bump(c, Refuted);
      }
      Put(id, c, Invoked(id, verified));
    }

    /** The artifact used, then the operator that produced it, if the store holds it. */
    method RecordUse(id: string)
      requires Valid()
      modifies this
      ensures Valid() && (id !in old(arts) ==> arts == old(arts))
      ensures id in old(arts) ==> exists used ::
                Credited(old(arts), used, Used(id)) &&
                var maker := old(arts)[id].producer;
                if maker != "" && maker in old(arts) then Credited(used, arts, OutputUsed(maker)) else arts == used
      ensures log == if id !in old(arts) then old(log)
                     else var maker := old(arts)[id].producer;
                          old(log) + [Used(id)] + if maker != "" && maker in old(arts) then [OutputUsed(maker)] else []
    {
      if id !in arts {
        return;
      }
      Put(id, Bump(arts[id].counters, Uses), Used(id));
      ghost var used := arts;
      var maker := arts[id].producer;
      if maker != "" && maker in arts {
        Put(maker, Bump(arts[maker].counters, OutputUses), OutputUsed(maker));
        assert Credited(used, arts, OutputUsed(maker));
      }
    }

    /**
     * While no definition brings counters of its own, the stored ones are what was recorded since the behaviour
     * changed.
     */
    lemma EvidenceConserved(id: string)
      requires Valid() && Honest(log) && id in arts
      ensures exists since: nat :: LastChange(log, id, since)
                && (forall f :: Get(arts[id].counters, f) == Count(log[since..], id, f))
                && Get(arts[id].counters, Verified) + Get(arts[id].counters, Refuted)
                   <= Get(arts[id].counters, Invocations)
    {
      assert TrackedAt(log, arts, id, process);
      LastChangeExists(log, id);
      var since: nat :| LastChange(log, id, since);
      assert Earned(log, id, arts[id].counters);
      OutcomesWithinInvocations(log[since..], id);
    }
  }
}
