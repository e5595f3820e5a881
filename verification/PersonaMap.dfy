/** The persona map and how often it calls Mantle, however it is asked. */
module PersonaMaps {
  import opened Outcomes

  /** How long `n` intervals of thirty seconds last. */
  function Due(n: int): real {
    30.0 * n as real
  }

  /** `_REFRESH_BACKOFF_S` and `_MISS_REFRESH_INTERVAL_S`. */
  const BACKOFF := 30.0
  const MISS_INTERVAL := 30.0

  datatype Persona = Persona(slug: string, artifactId: string)

  predicate Named(p: Persona) {
    p.slug != "" && p.artifactId != ""
  }

  function Find(m: map<string, string>, k: string): Option<string> {
    if k in m then Some(m[k]) else None
  }

  /** Entry `i` is the last to name `u`, and calls it `s`. */
  predicate Says(ps: seq<Persona>, i: nat, u: string, s: string) {
    && i < |ps| && Named(ps[i]) && ps[i].artifactId == u && ps[i].slug == s
    && forall j :: i < j < |ps| ==> Named(ps[j]) ==> ps[j].artifactId != u
  }

  /** Some complete entry names the id. */
  ghost predicate NamesUuid(ps: seq<Persona>, u: string) {
    exists i, s :: Says(ps, i, u, s)
  }

  /** The map holds for each id what the last entry naming it says. */
  ghost predicate SlugsOf(ps: seq<Persona>, m: map<string, string>) {
    && (forall u :: u in m ==> exists i: nat :: Says(ps, i, u, m[u]))
    && (forall i: nat, u, s :: Says(ps, i, u, s) ==> u in m)
  }

  lemma MapNames(ps: seq<Persona>, m: map<string, string>, u: string)
    requires SlugsOf(ps, m)
    ensures u in m <==> NamesUuid(ps, u)
  {
  }

  function Put(m: map<string, string>, p: Persona): map<string, string> {
    if Named(p) then m[p.artifactId := p.slug] else m
  }

  lemma PutKeeps(ps: seq<Persona>, m: map<string, string>, p: Persona)
    requires SlugsOf(ps, m)
    ensures SlugsOf(ps + [p], Put(m, p))
  {
    var more, next := ps + [p], Put(m, p);
    forall u | u in next
      ensures exists i: nat :: Says(more, i, u, next[u])
    {
      if Named(p) && p.artifactId == u {
        assert Says(more, |ps|, u, next[u]);
      } else {
        var i: nat :| Says(ps, i, u, m[u]);
        assert Says(more, i, u, next[u]);
      }
    }
    forall i: nat, u, s | Says(more, i, u, s)
      ensures u in next
    {
      if i < |ps| {
        assert forall j :: i < j < |ps| ==> more[j] == ps[j];
        assert Says(ps, i, u, s);
      }
    }
  }

  /** What a call to Mantle comes to: it fails, or answers with some personas (perhaps none). */
  datatype Fetch = Failed | Got(personas: seq<Persona>)

  /** The registry read the other way. */
  function Flip(ps: seq<Persona>): (f: seq<Persona>)
    ensures |f| == |ps| && forall i :: 0 <= i < |f| ==> f[i] == Persona(ps[i].artifactId, ps[i].slug)
  {
    seq(|ps|, i requires 0 <= i < |ps| => Persona(ps[i].artifactId, ps[i].slug))
  }

  /** Both directions of the registry, entries without a slug or an id skipped. */
  method BothWays(personas: seq<Persona>) returns (slugs: map<string, string>, uuids: map<string, string>)
    ensures SlugsOf(personas, uuids) && SlugsOf(Flip(personas), slugs)
  {
    slugs, uuids := map[], map[];
    var i := 0;
    assert SlugsOf([], uuids) && SlugsOf(Flip([]), slugs);
    while i < |personas|
      invariant 0 <= i <= |personas|
      invariant SlugsOf(personas[..i], uuids) && SlugsOf(Flip(personas[..i]), slugs)
    {
      var p := personas[i];
      PutKeeps(personas[..i], uuids, p);
      PutKeeps(Flip(personas[..i]), slugs, Persona(p.artifactId, p.slug));
      assert Flip(personas[..i]) + [Persona(p.artifactId, p.slug)] == Flip(personas[..i + 1]);
      assert personas[..i] + [p] == personas[..i + 1];
      if p.slug != "" && p.artifactId != "" {
        slugs := slugs[p.slug := p.artifactId];
        uuids := uuids[p.artifactId := p.slug];
      }
      i := i + 1;
    }
    assert personas[..i] == personas;
  }

  /** One operation: its clock readings, in order, and what Mantle would answer if asked. */
  datatype Op =
    | Lookup(uuid: string, t1: real, t2: real, t3: real, first: Fetch, second: Fetch)
    | Load(t: real, fetch: Fetch)

  predicate Ordered(clock: real, ops: seq<Op>)
    decreases |ops|
  {
    ops == [] || (
      match ops[0]
      case Lookup(_, t1, t2, t3, _, _) => clock <= t1 <= t2 <= t3 && Ordered(t3, ops[1..])
      case Load(t, _) => clock <= t && Ordered(t, ops[1..]))
  }

  class PersonaMap {
    var slugToUuid: map<string, string>
    var uuidToSlug: map<string, string>
    var loaded: bool
    var nextRetryAt: real
    var lastMiss: Option<real>
    ghost const start: real
    ghost var clock: real
    ghost var calls: nat
    ghost var latest: seq<Persona>

    /**
     * Counted from the moment `from`, when `base` calls had been made, each call since is paid for by thirty seconds,
     * but for the first and for the one miss right after loading.
     */
    ghost predicate PacedFrom(from: real, base: nat)
      reads this
    {
      && from <= clock && base <= calls
      && (!loaded ==> lastMiss == None)
      && (loaded ==> calls > 0)
      && (lastMiss.Some? ==> lastMiss.value <= clock)
      && (calls > base ==> Earned(from, calls - base))
    }

    /** The thirty seconds owed for `n` calls since `from`. */
    ghost predicate Earned(from: real, n: nat)
      reads this
    {
      if !loaded then
        from + Due(n) <= nextRetryAt <= clock + BACKOFF
      else if lastMiss.Some? then
        from + Due(n - 2) <= lastMiss.value
      else
        from + Due(n - 1) <= clock
    }

    /** The pace is kept from the map's creation, and so from any later moment. */
    ghost predicate Paced()
      reads this
    {
      PacedFrom(start, 0)
    }

    /** The maps are those of the last fetch that brought any persona. */
    ghost predicate Sound()
      reads this
    {
      && SlugsOf(latest, uuidToSlug) && SlugsOf(Flip(latest), slugToUuid)
      && (!loaded ==> latest == [] && uuidToSlug == map[])
    }

    ghost predicate Valid()
      reads this
    {
      Paced() && Sound()
    }

    /**
     * A loaded map may be refreshed without breaking the pace: thirty seconds have passed for each call but the
     * first.
     */
    ghost predicate Spare(from: real, base: nat)
      reads this
    {
      loaded ==> lastMiss.Some? && lastMiss.value >= from + Due(calls - base - 1)
    }

    constructor (now: real)
      ensures Valid() && start == now == clock && calls == 0 && !loaded && nextRetryAt == 0.0
    {
      slugToUuid, uuidToSlug, loaded, nextRetryAt, lastMiss := map[], map[], false, 0.0, None;
      start, clock, calls, latest := now, now, 0, [];
    }

    /** One call at most, and none inside the backoff. */
    method Refresh(now: real, fetch: Fetch) returns (ok: bool)
      requires Sound() && clock <= now
      modifies this
      ensures Sound() && clock == now && lastMiss == old(lastMiss)
      ensures forall from, base: nat :: old(PacedFrom(from, base) && Spare(from, base)) ==> PacedFrom(from, base)
      ensures calls == if now < old(nextRetryAt) then old(calls) else old(calls) + 1
      ensures var good := old(nextRetryAt) <= now && fetch.Got? && fetch.personas != [];
              && ok == (good || (old(loaded) && now < old(nextRetryAt)))
              && loaded == (good || old(loaded))
              && latest == (if good then fetch.personas else old(latest))
              && (!good ==> uuidToSlug == old(uuidToSlug))
              && nextRetryAt == if now < old(nextRetryAt) then old(nextRetryAt) else if good then 0.0 else now + BACKOFF
    {
      clock := now;
      if now < nextRetryAt {
        return loaded;
      }
      calls := calls + 1;
      if fetch.Failed? || fetch.personas == [] {
        nextRetryAt := now + BACKOFF;
        return false;
      }
      var slugs, uuids := BothWays(fetch.personas);
      slugToUuid, uuidToSlug, loaded, nextRetryAt := slugs, uuids, true, 0.0;
      latest := fetch.personas;
      return true;
    }

    /** A miss asks Mantle again, unless the last one that did is too recent. */
    method Miss(uuid: string, t2: real, t3: real, second: Fetch) returns (slug: Option<string>)
      requires Valid() && loaded && uuid !in uuidToSlug && clock <= t2 <= t3
      modifies this
      ensures Valid() && clock == t3 && loaded
      ensures forall from, base: nat :: old(PacedFrom(from, base)) ==> PacedFrom(from, base)
      ensures slug == Find(uuidToSlug, uuid)
      ensures var due := old(lastMiss) == None || t2 - old(lastMiss).value >= MISS_INTERVAL;
              var asked := due && old(nextRetryAt) <= t3;
              var good := asked && second.Got? && second.personas != [];
              && lastMiss == (if due then Some(t2) else old(lastMiss))
              && calls == (if asked then old(calls) + 1 else old(calls))
              && latest == (if good then second.personas else old(latest))
              && (good ==> nextRetryAt == 0.0) && (!good ==> uuidToSlug == old(uuidToSlug))
    {
      if lastMiss.Some? && t2 - lastMiss.value < MISS_INTERVAL {
        clock := t3;
        return None;
      }
      clock := t2;
      lastMiss := Some(t2);
      var ok := Refresh(t3, second);
      return if ok then Find(uuidToSlug, uuid) else None;
    }

    /** The answer is always what the map then holds. */
    method SlugForUuid(uuid: string, t1: real, t2: real, t3: real, first: Fetch, second: Fetch)
      returns (slug: Option<string>)
      requires Valid() && clock <= t1 <= t2 <= t3
      modifies this
      ensures Valid() && clock == t3
      ensures forall from, base: nat :: old(PacedFrom(from, base)) ==> PacedFrom(from, base)
      ensures slug == Find(uuidToSlug, uuid)
      ensures loaded <==> old(loaded) || (old(nextRetryAt) <= t1 && first.Got? && first.personas != [])
      ensures !loaded ==> slug == None && calls == if t1 < old(nextRetryAt) then old(calls) else old(calls) + 1
      ensures old(loaded) && uuid in old(uuidToSlug) ==>
                && calls == old(calls) && uuidToSlug == old(uuidToSlug)
                && latest == old(latest) && lastMiss == old(lastMiss)
      ensures old(loaded) && uuid !in old(uuidToSlug) ==>
                var due := old(lastMiss) == None || t2 - old(lastMiss).value >= MISS_INTERVAL;
                var asked := due && old(nextRetryAt) <= t3;
                var good := asked && second.Got? && second.personas != [];
                && lastMiss == (if due then Some(t2) else old(lastMiss))
                && calls == (if asked then old(calls) + 1 else old(calls))
                && latest == (if good then second.personas else old(latest))
                && (good ==> nextRetryAt == 0.0) && (!good ==> uuidToSlug == old(uuidToSlug))
      ensures !old(loaded) && loaded && NamesUuid(first.personas, uuid) ==>
                latest == first.personas && calls == old(calls) + 1 && lastMiss == None
      ensures !old(loaded) && loaded && !NamesUuid(first.personas, uuid) && t3 >= 0.0 ==>
                && calls == old(calls) + 2 && lastMiss == Some(t2)
                && latest == if second.Got? && second.personas != [] then second.personas else first.personas
    {
      if !loaded {
        var ok := Refresh(t1, first);
        if !ok {
          clock := t3;
          return None;
        }
        MapNames(first.personas, uuidToSlug, uuid);
      }
      if uuid in uuidToSlug {
        clock := t3;
        return Some(uuidToSlug[uuid]);
      }
      slug := Miss(uuid, t2, t3, second);
    }

    /** Over any stretch of time Mantle is called at most twice more than once every thirty seconds, whatever fails. */
    lemma CallRate(from: real, base: nat)
      requires PacedFrom(from, base)
      ensures calls - base <= ((clock - from) / 30.0).Floor + 2
    {
      var spent := (clock - from) / 30.0;
      assert 30.0 * spent == clock - from;
      assert calls > base ==> spent >= (calls - base - 2) as real;
    }

    /** Any sequence of lookups, and of loads while nothing is loaded, as the callers make them. */
    method Run(ops: seq<Op>)
      requires Valid() && Ordered(clock, ops)
      modifies this
      ensures Valid() && calls <= ((clock - start) / 30.0).Floor + 2
      ensures calls - old(calls) <= ((clock - old(clock)) / 30.0).Floor + 2
    {
      var k := 0;
      while k < |ops|
        invariant 0 <= k <= |ops| && Valid() && PacedFrom(old(clock), old(calls)) && Ordered(clock, ops[k..])
      {
        assert ops[k..][0] == ops[k] && ops[k..][1..] == ops[k + 1..];
        match ops[k] {
          case Lookup(uuid, t1, t2, t3, first, second) =>
            var _ := SlugForUuid(uuid, t1, t2, t3, first, second);
          case Load(t, fetch) =>
            if loaded {
              clock := t;
            } else {
              var _ := Refresh(t, fetch);
            }
        }
        k := k + 1;
      }
      CallRate(start, 0);
      CallRate(old(clock), old(calls));
    }
  }

  /** The bound is met: asking for an unknown persona every thirty seconds reaches it. */
  method Busiest(k: nat) returns (m: PersonaMap)
    ensures fresh(m) && m.Valid() && m.clock - m.start == Due(k) && m.calls == k + 2
  {
    m := new PersonaMap(0.0);
    var all := [Persona("ophan", "1")];
    var _ := m.Refresh(0.0, Got(all));
    NotAmong(all, m.uuidToSlug, "2");
    var i := 0;
    while i <= k
      invariant 0 <= i <= k + 1 && m.Valid() && fresh(m) && m.start == 0.0
      invariant m.loaded && m.nextRetryAt == 0.0 && m.latest == all && "2" !in m.uuidToSlug
      invariant m.calls == i + 1 && m.clock == (if i == 0 then 0.0 else Due(i - 1))
      invariant m.lastMiss == if i == 0 then None else Some(m.clock)
    {
      var now := Due(i);
      var _ := m.SlugForUuid("2", now, now, now, Got(all), Got(all));
      NotAmong(all, m.uuidToSlug, "2");
      i := i + 1;
    }
  }

  lemma NotAmong(ps: seq<Persona>, m: map<string, string>, u: string)
    requires SlugsOf(ps, m) && forall i :: 0 <= i < |ps| ==> ps[i].artifactId != u
    ensures u !in m
  {
  }
}
