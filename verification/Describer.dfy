/** A describer fires once for an artifact within the window, whichever of its two triggers comes first. */
module Describers {

  const CAPACITY: nat := 4096

  datatype Firing = Firing(id: string, at: real)

  /** Two firings for one artifact are at least the window apart. */
  ghost predicate Spaced(fired: seq<Firing>, ttl: real) {
    forall i, j :: 0 <= i < j < |fired| && fired[i].id == fired[j].id ==> fired[j].at - fired[i].at >= ttl
  }

  /** The table holds each artifact's latest firing, or has dropped it once the window was over. */
  ghost predicate Faithful(fired: seq<Firing>, described: map<string, real>, clock: real, ttl: real) {
    && (forall id :: id in described ==> exists i :: 0 <= i < |fired| && fired[i] == Firing(id, described[id]))
    && (forall i :: 0 <= i < |fired| ==>
          if fired[i].id in described then fired[i].at <= described[fired[i].id] else clock - fired[i].at >= ttl)
    && (forall i :: 0 <= i < |fired| ==> fired[i].at <= clock)
  }

  /** An artifact fired within the window. */
  ghost predicate Recent(fired: seq<Firing>, id: string, now: real, ttl: real) {
    exists i :: 0 <= i < |fired| && fired[i].id == id && now - fired[i].at < ttl
  }

  function Pruned(described: map<string, real>, now: real, ttl: real): map<string, real> {
    map k | k in described && now - described[k] < ttl :: described[k]
  }

  /** Dropping what is over the window loses nothing, then or later. */
  lemma PruneKeeps(fired: seq<Firing>, described: map<string, real>, clock: real, now: real, ttl: real)
    requires Faithful(fired, described, clock, ttl) && clock <= now
    ensures Faithful(fired, described, now, ttl) && Faithful(fired, Pruned(described, now, ttl), now, ttl)
  {
  }

  lemma TableAnswers(fired: seq<Firing>, described: map<string, real>, now: real, ttl: real, id: string)
    requires Faithful(fired, described, now, ttl)
    ensures Recent(fired, id, now, ttl) <==> id in described && now - described[id] < ttl
  {
  }

  lemma FireKeeps(fired: seq<Firing>, described: map<string, real>, now: real, ttl: real, id: string)
    requires Faithful(fired, described, now, ttl) && Spaced(fired, ttl) && ttl > 0.0
    requires !Recent(fired, id, now, ttl)
    ensures Faithful(fired + [Firing(id, now)], described[id := now], now, ttl)
    ensures Spaced(fired + [Firing(id, now)], ttl)
  {
    var more, next := fired + [Firing(id, now)], described[id := now];
    forall k | k in next
      ensures exists i :: 0 <= i < |more| && more[i] == Firing(k, next[k])
    {
      if k == id {
        assert more[|fired|] == Firing(k, now);
      } else {
        var i :| 0 <= i < |fired| && fired[i] == Firing(k, described[k]);
        assert more[i] == fired[i];
      }
    }
  }

  class Describer {
    const ttl: real
    var described: map<string, real>
    ghost var fired: seq<Firing>
    ghost var clock: real

    ghost predicate Valid()
      reads this
    {
      ttl > 0.0 && Faithful(fired, described, clock, ttl) && Spaced(fired, ttl)
    }

    constructor (ttl: real, now: real)
      requires ttl > 0.0
      ensures Valid() && fired == [] && clock == now && this.ttl == ttl
    {
      this.ttl, described, fired, clock := ttl, map[], [], now;
    }

    /** True exactly when this artifact fired within the window, over the whole history and whatever was pruned. */
    method DescribeRecently(id: string, now: real) returns (recent: bool)
      requires Valid() && clock <= now
      modifies this
      ensures Valid() && clock == now
      ensures recent <==> Recent(old(fired), id, now, ttl)
      ensures fired == if recent then old(fired) else old(fired) + [Firing(id, now)]
    {
      PruneKeeps(fired, described, clock, now, ttl);
      clock := now;
      if |described| > CAPACITY {
        described := Pruned(described, now, ttl);
      }
      TableAnswers(fired, described, now, ttl, id);
      if id in described && now - described[id] < ttl {
        return true;
      }
      FireKeeps(fired, described, now, ttl, id);
      described := described[id := now];
      fired := fired + [Firing(id, now)];
      return false;
    }
  }
}
