/** Registering, replacing and removing type definitions, and what `resolve` answers after any history of them. */
module TypeRegistration {
  import opened Outcomes
  import opened TypeLineage

  datatype Dispatch = Dispatch(kind: string, target: string, grant: Option<string>)

  /** A pushed definition, before it is parsed. */
  datatype Definition = Definition(contentType: string, operations: map<string, Dispatch>, inherits: seq<string>)

  function Spec(name: string, d: Dispatch): OpSpec {
    OpSpec(name, if d.kind == "" then "artifact_crud" else d.kind, if d.target == "" then name else d.target, d.grant)
  }

  /** What a definition gives is kept; an absent kind is the default, and an absent target the operation's own name. */
  predicate Reads(name: string, given: Dispatch, o: OpSpec) {
    && o.name == name && o.grant == given.grant
    && (given.kind != "" ==> o.kind == given.kind) && (given.kind == "" ==> o.kind == "artifact_crud")
    && (given.target != "" ==> o.target == given.target) && (given.target == "" ==> o.target == name)
  }

  /** A definition that names no content type is malformed. */
  function ParseTypeDef(d: Definition, server: Option<string>): (td: Option<TypeDef>)
    ensures td.Some? <==> NormalizeCt(d.contentType) != ""
    ensures td.Some? ==> Plain(td.value.contentType) && td.value.contentType == NormalizeCt(d.contentType)
    ensures td.Some? ==>
              td.value.server == server && td.value.inherits == d.inherits &&
              td.value.operations.Keys == d.operations.Keys
    ensures td.Some? ==>
              forall name :: name in d.operations ==> Reads(name, d.operations[name], td.value.operations[name])
  {
    var target := NormalizeCt(d.contentType);
    NormalizeIsPlain(d.contentType);
    if target == "" then None
    else Some(TypeDef(target, map name | name in d.operations :: Spec(name, d.operations[name]), d.inherits, server))
  }

  datatype Event = Registered(td: TypeDef) | ServerRemoved(server: string) | Invalidated(ct: string) | AllInvalidated

  /** Whether an event takes the registration of `c` made by `server` away, or puts another in its place. */
  predicate Ends(e: Event, c: string, server: Option<string>) {
    match e
    case Registered(td) => td.contentType == c
    case ServerRemoved(s) => server == Some(s)
    case Invalidated(ct) => NormalizeCt(ct) == c
    case AllInvalidated => true
  }

  /** Event `i` registered `c`, and nothing since has ended that. */
  ghost predicate Survives(log: seq<Event>, c: string, i: nat) {
    && i < |log| && log[i].Registered? && log[i].td.contentType == c
    && forall j :: i < j < |log| ==> !Ends(log[j], c, log[i].td.server)
  }

  /** A type held is the one that survives, and of a type not held none does. */
  ghost predicate CurrentAt(log: seq<Event>, cache: map<string, TypeDef>, c: string) {
    if c in cache then exists i: nat :: Survives(log, c, i) && log[i].td == cache[c]
    else forall i: nat :: !Survives(log, c, i)
  }

  /** The registrations held are exactly the surviving ones. */
  ghost predicate Current(log: seq<Event>, cache: map<string, TypeDef>) {
    forall c :: CurrentAt(log, cache, c)
  }

  lemma OneSurvivor(log: seq<Event>, c: string, i: nat, j: nat)
    requires Survives(log, c, i) && Survives(log, c, j)
    ensures i == j
  {
    if i < j {
      assert Ends(log[j], c, log[i].td.server);
    } else if j < i {
      assert Ends(log[i], c, log[j].td.server);
    }
  }

  /** What surviving one more event takes. */
  lemma SurvivesOneMore(log: seq<Event>, e: Event, c: string, i: nat)
    ensures Survives(log + [e], c, i) <==>
            if i == |log| then e.Registered? && e.td.contentType == c
            else Survives(log, c, i) && !Ends(e, c, log[i].td.server)
  {
    var more := log + [e];
    if i < |log| && Survives(more, c, i) {
      forall j | i < j < |log|
        ensures !Ends(log[j], c, log[i].td.server)
      {
        assert more[j] == log[j];
      }
      assert more[|log|] == e;
    }
  }

  /** The cache after one more event. */
  function After(cache: map<string, TypeDef>, e: Event): map<string, TypeDef> {
    match e
    case Registered(td) => cache[td.contentType := td]
    case ServerRemoved(s) => map c | c in cache && cache[c].server != Some(s) :: cache[c]
    case Invalidated(ct) => cache - {NormalizeCt(ct)}
    case AllInvalidated => map[]
  }

  lemma StaysCurrent(log: seq<Event>, cache: map<string, TypeDef>, e: Event)
    requires Current(log, cache)
    ensures Current(log + [e], After(cache, e))
  {
    var more, next := log + [e], After(cache, e);
    forall c
      ensures CurrentAt(more, next, c)
    {
      assert CurrentAt(log, cache, c);
      StaysCurrentAt(log, cache, e, c);
    }
  }

  lemma StaysCurrentAt(log: seq<Event>, cache: map<string, TypeDef>, e: Event, c: string)
    requires CurrentAt(log, cache, c)
    ensures CurrentAt(log + [e], After(cache, e), c)
  {
    var more, next := log + [e], After(cache, e);
    if e.Registered? && e.td.contentType == c {
      SurvivesOneMore(log, e, c, |log|);
      assert more[|log|].td == next[c];
    } else if c in next {
      var i: nat :| Survives(log, c, i) && log[i].td == cache[c];
      SurvivesOneMore(log, e, c, i);
      assert more[i].td == next[c];
    } else {
      forall i: nat
        ensures !Survives(more, c, i)
      {
        SurvivesOneMore(log, e, c, i);
        if i < |log| && Survives(log, c, i) {
          var k: nat :| Survives(log, c, k) && log[k].td == cache[c];
          OneSurvivor(log, c, i, k);
        }
      }
    }
  }

  /** `resolve` is the latest surviving registration of the type, else the builtin; exactly. */
  lemma ResolveIsLatest(log: seq<Event>, reg: Registry, ct: string)
    requires Current(log, reg.cache)
    ensures var c := NormalizeCt(ct);
            && (forall i: nat :: Survives(log, c, i) ==> Resolve(reg, ct) == Some(log[i].td))
            && ((forall i: nat :: !Survives(log, c, i)) ==>
              Resolve(reg, ct) == if c in reg.builtin then Some(reg.builtin[c]) else None)
  {
    var c := NormalizeCt(ct);
    assert CurrentAt(log, reg.cache, c);
    forall i: nat | Survives(log, c, i)
      ensures Resolve(reg, ct) == Some(log[i].td)
    {
      var k: nat :| Survives(log, c, k) && log[k].td == reg.cache[c];
      OneSurvivor(log, c, i, k);
    }
  }

  /** What is registered under a content type is filed under it, so lookups and lineages find it. */
  lemma StaysFiled(cache: map<string, TypeDef>, builtin: map<string, TypeDef>, e: Event)
    requires Filed(Registry(cache, builtin)) && (e.Registered? ==> Plain(e.td.contentType))
    ensures Filed(Registry(After(cache, e), builtin))
  {
  }

  class TypeRegistry {
    var cache: map<string, TypeDef>
    var builtin: map<string, TypeDef>
    ghost var log: seq<Event>

    ghost predicate Valid()
      reads this
    {
      Current(log, cache) && Filed(Registry(cache, builtin))
    }

    constructor ()
      ensures Valid() && log == [] && builtin == map[] && cache == map[]
    {
      cache, builtin, log := map[], map[], [];
    }

    /** Builtins are kept apart: loading one never touches a registration. */
    method LoadBuiltin(d: Definition) returns (ok: bool)
      requires Valid()
      modifies this
      ensures Valid() && log == old(log) && cache == old(cache)
      ensures ok <==> ParseTypeDef(d, Some("crystal")).Some?
      ensures builtin ==
              if ok then var td := ParseTypeDef(d, Some("crystal")).value; old(builtin)[td.contentType := td]
              else old(builtin)
    {
      var td := ParseTypeDef(d, Some("crystal"));
      ok := td.Some?;
      if ok {
        builtin := builtin[td.value.contentType := td.value];
      }
    }

    method Register(d: Definition, server: Option<string>) returns (ok: bool)
      requires Valid()
      modifies this
      ensures Valid() && builtin == old(builtin)
      ensures ok <==> NormalizeCt(d.contentType) != ""
      ensures log == if ok then old(log) + [Registered(ParseTypeDef(d, server).value)] else old(log)
      ensures cache ==
              if ok then var td := ParseTypeDef(d, server).value; old(cache)[td.contentType := td] else old(cache)
    {
      var td := ParseTypeDef(d, server);
      ok := td.Some?;
      if ok {
        StaysCurrent(log, cache, Registered(td.value));
        StaysFiled(cache, builtin, Registered(td.value));
        cache := cache[td.value.contentType := td.value];
        log := log + [Registered(td.value)];
      }
    }

    method RemoveServer(server: string) returns (n: nat)
      requires Valid()
      modifies this
      ensures Valid() && builtin == old(builtin) && log == old(log) + [ServerRemoved(server)]
      ensures n == |set c | c in old(cache) && old(cache)[c].server == Some(server)|
      ensures cache == After(old(cache), ServerRemoved(server))
    {
      var drop := set c | c in cache && cache[c].server == Some(server);
      StaysCurrent(log, cache, ServerRemoved(server));
      StaysFiled(cache, builtin, ServerRemoved(server));
      assert cache - drop == After(cache, ServerRemoved(server));
      cache := cache - drop;
      log := log + [ServerRemoved(server)];
      n := |drop|;
    }

    method Invalidate(ct: Option<string>)
      requires Valid()
      modifies this
      ensures Valid() && builtin == old(builtin)
      ensures log == old(log) + [if ct == None then AllInvalidated else Invalidated(ct.value)]
      ensures cache == if ct == None then map[] else old(cache) - {NormalizeCt(ct.value)}
    {
      var e := if ct == None then AllInvalidated else Invalidated(ct.value);
      StaysCurrent(log, cache, e);
      StaysFiled(cache, builtin, e);
      cache := After(cache, e);
      log := log + [e];
    }

    /** After any history: the latest registration nothing has ended, else the builtin, else nothing. */
    method ResolveType(ct: string) returns (td: Option<TypeDef>)
      requires Valid()
      ensures td == Resolve(Registry(cache, builtin), ct)
      ensures forall i: nat :: Survives(log, NormalizeCt(ct), i) ==> td == Some(log[i].td)
      ensures (forall i: nat :: !Survives(log, NormalizeCt(ct), i)) ==>
                td == if NormalizeCt(ct) in builtin then Some(builtin[NormalizeCt(ct)]) else None
    {
      td := Resolve(Registry(cache, builtin), ct);
      ResolveIsLatest(log, Registry(cache, builtin), ct);
    }
  }
}
