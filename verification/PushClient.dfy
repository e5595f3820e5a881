/** The client that pushes, and the node it pushes to. */
module PushClient {
  import opened Outcomes
  import opened Push

  /** A page, or an older node's bare list. */
  datatype Body = Bare(items: seq<Art>) | Page(items: seq<Art>, hasMore: bool)

  function Filter(rows: seq<Art>, ct: Option<string>): (f: seq<Art>)
    ensures forall r :: r in f <==> r in rows && (ct == None || r.contentType == ct.value)
  {
    if rows == [] then []
    else
      var r := rows[|rows| - 1];
      Filter(rows[..|rows| - 1], ct) + if ct == None || r.contentType == ct.value then [r] else []
  }

  ghost predicate AllApart(rows: seq<Art>) {
    forall i, j :: 0 <= i < j < |rows| ==> Apart(rows[i], rows[j])
  }

  lemma ApartAppend(rows: seq<Art>, r: Art)
    requires AllApart(rows) && forall a :: a in rows ==> Apart(a, r)
    ensures AllApart(rows + [r])
  {
  }

  lemma {:induction false} FilterApart(rows: seq<Art>, ct: Option<string>)
    requires AllApart(rows)
    ensures AllApart(Filter(rows, ct))
  {
    if rows != [] {
      var rest, r := rows[..|rows| - 1], rows[|rows| - 1];
      FilterApart(rest, ct);
      forall a | a in Filter(rest, ct)
        ensures Apart(a, r)
      {
        var i :| 0 <= i < |rest| && rest[i] == a;
        assert Apart(rows[i], rows[|rows| - 1]);
      }
      ApartAppend(Filter(rest, ct), r);
    }
  }

  /** A node that pages truthfully, in pages as short as `sizes` likes. */
  class Mantle {
    var w: World
    const sizes: nat -> nat
    const older: bool
    ghost var writes: nat

    constructor (w: World, sizes: nat -> nat, older: bool)
      ensures this.w == w && writes == 0
    {
      this.w, this.sizes, this.older, this.writes := w, sizes, older, 0;
    }

    method Get(ct: Option<string>, offset: nat, limit: nat) returns (body: Body)
      requires limit > 0
      ensures var all := Filter(w.rows, ct);
              match body
              case Bare(items) => older && items == all
              case Page(items, hasMore) =>
                && |items| <= limit
                && (offset <= |all| ==> offset + |items| <= |all| && items == all[offset..offset + |items|]
                                        && (hasMore <==> offset + |items| < |all|) && (hasMore ==> items != []))
    {
      var all := Filter(w.rows, ct);
      if older {
        return Bare(all);
      }
      if offset >= |all| {
        return Page([], false);
      }
      var size := if sizes(offset) == 0 then 1 else if sizes(offset) > limit then limit else sizes(offset);
      var upto := if offset + size > |all| then |all| else offset + size;
      return Page(all[offset..upto], upto < |all|);
    }

    method Post(a: Art) returns (id: nat)
      modifies this
      ensures w == Posted(old(w), a) && id == old(w).next && writes == old(writes) + 1
    {
      id := w.next;
      w := Posted(w, a);
      writes := writes + 1;
    }

    method Patch(id: nat, d: Def, content: string)
      modifies this
      ensures w == Patched(old(w), id, d, content) && writes == old(writes) + 1
    {
      w := Patched(w, id, d, content);
      writes := writes + 1;
    }
  }

  const CATALOG_ROW := Art(0, None, CATALOG, "", None, "")

  ghost predicate CatalogAt(rows: seq<Art>, id: nat) {
    exists i :: 0 <= i < |rows| && IsCatalog(rows[i]) && rows[i].id == id
  }

  ghost predicate HasCatalog(rows: seq<Art>) {
    exists i :: 0 <= i < |rows| && IsCatalog(rows[i])
  }

  /** The node once the catalog is sure to be there. */
  ghost function WithCatalog(w: World): World {
    if HasCatalog(w.rows) then w else Posted(w, CATALOG_ROW)
  }

  lemma CatalogPosted(w: World)
    requires OneEach(w) && !HasCatalog(w.rows)
    ensures OneEach(Posted(w, CATALOG_ROW)) && CatalogAt(Posted(w, CATALOG_ROW).rows, w.next)
  {
    var v := Posted(w, CATALOG_ROW);
    assert IsCatalog(v.rows[|w.rows|]);
  }

  /** The first artifact by that name. */
  method FindCatalog(rows: seq<Art>) returns (found: Option<nat>)
    ensures found.Some? <==> HasCatalog(rows)
    ensures found.Some? ==> CatalogAt(rows, found.value)
  {
    var k := 0;
    while k < |rows|
      invariant 0 <= k <= |rows|
      invariant forall i :: 0 <= i < k ==> !IsCatalog(rows[i])
    {
      if rows[k].name == CATALOG {
        return Some(rows[k].id);
      }
      k := k + 1;
    }
    return None;
  }

  lemma {:induction false} FilterAll(rows: seq<Art>)
    ensures Filter(rows, None) == rows
  {
    if rows != [] {
      FilterAll(rows[..|rows| - 1]);
    }
  }

  /** The catalog is no operator: what is stored and known of operators stays. */
  lemma CatalogLeaves(w: World, d: Def, text: string)
    ensures Leaves(WithCatalog(w).rows, d, text) <==> Leaves(w.rows, d, text)
  {
    if i :| 0 <= i < |w.rows| && Carries(w.rows[i], d, text) {
      assert WithCatalog(w).rows[i] == w.rows[i];
    }
  }

  lemma CatalogKnown(w: World, ex: Existing, own: set<string>)
    requires Knows(ex, w.rows, own)
    ensures Knows(ex, WithCatalog(w).rows, own)
  {
    var v := WithCatalog(w);
    forall id | id in ex
      ensures Stored(v.rows, id)
    {
      assert Stored(w.rows, id);
      var i :| 0 <= i < |w.rows| && IsOp(w.rows[i], id);
      assert v.rows[i] == w.rows[i];
    }
  }

  lemma CatalogHoused(w: World, catalog: nat)
    requires Housed(w.rows, catalog)
    ensures Housed(WithCatalog(w).rows, catalog)
  {
  }

  /** What the operators of one listing teach is true of the whole. */
  lemma KnowsFiltered(ex: Existing, rows: seq<Art>)
    requires Knows(ex, Filter(rows, Some(OPERATOR)), {})
    ensures Knows(ex, rows, {})
  {
    var f := Filter(rows, Some(OPERATOR));
    forall id | id in ex
      ensures Stored(rows, id)
    {
      assert Stored(f, id);
      var i :| 0 <= i < |f| && IsOp(f[i], id);
      assert f[i] in rows;
    }
    forall i | 0 <= i < |rows|
      ensures KnowsOne(ex, rows[i], {})
    {
      if rows[i].contentType == OPERATOR {
        assert rows[i] in f;
      }
    }
  }

  lemma KnowsNext(ex: Existing, rows: seq<Art>, r: Art)
    requires Knows(ex, rows, {}) && DefinitionOf(r).Some? && r.contentType == OPERATOR
    requires forall i :: 0 <= i < |rows| ==> Apart(rows[i], r)
    ensures var d := DefinitionOf(r).value; Knows(ex[d.id := (r.id, d)], rows + [r], {})
  {
    var d := DefinitionOf(r).value;
    var next, more := ex[d.id := (r.id, d)], rows + [r];
    forall i | 0 <= i < |rows|
      ensures KnowsOne(next, rows[i], {})
    {
      assert KnowsOne(ex, rows[i], {}) && Apart(rows[i], r);
    }
    forall id | id in next
      ensures Stored(more, id)
    {
      if id == d.id {
        assert IsOp(more[|rows|], id);
      } else {
        assert Stored(rows, id);
        var i :| 0 <= i < |rows| && IsOp(rows[i], id);
        assert more[i] == rows[i];
      }
    }
  }

  lemma KnowsMore(ex: Existing, rows: seq<Art>, r: Art)
    requires Knows(ex, rows, {}) && OpId(r) == None
    ensures Knows(ex, rows + [r], {})
  {
    forall id | id in ex
      ensures Stored(rows + [r], id)
    {
      assert Stored(rows, id);
      var i :| 0 <= i < |rows| && IsOp(rows[i], id);
      assert (rows + [r])[i] == rows[i];
    }
  }

  lemma LearnStep(ex: Existing, rows: seq<Art>, k: nat)
    requires k < |rows| && AllApart(rows) && rows[k].contentType == OPERATOR && Knows(ex, rows[..k], {})
    ensures var d := DefinitionOf(rows[k]);
            Knows(if d.Some? then ex[d.value.id := (rows[k].id, d.value)] else ex, rows[..k + 1], {})
  {
    var raw := rows[k];
    assert rows[..k + 1] == rows[..k] + [raw];
    if DefinitionOf(raw).Some? {
      assert forall i :: 0 <= i < k ==> Apart(rows[..k][i], raw);
      KnowsNext(ex, rows[..k], raw);
    } else {
      KnowsMore(ex, rows[..k], raw);
    }
  }

  /** Operator id to artifact id and definition, over one listing. */
  method Learn(rows: seq<Art>) returns (ex: Existing)
    requires AllApart(rows) && forall i :: 0 <= i < |rows| ==> rows[i].contentType == OPERATOR
    ensures Knows(ex, rows, {})
  {
    ex := map[];
    var k := 0;
    assert rows[..0] == [];
    while k < |rows|
      invariant 0 <= k <= |rows|
      invariant Knows(ex, rows[..k], {})
    {
      var raw := rows[k];
      LearnStep(ex, rows, k);
      var d := DefinitionOf(raw);
      if d.Some? {
        ex := ex[d.value.id := (raw.id, d.value)];
      }
      k := k + 1;
    }
    assert rows[..k] == rows;
  }

  lemma CatalogStays(w: World, v: World, id: nat)
    requires CatalogAt(w.rows, id) && |w.rows| <= |v.rows|
    requires forall i :: 0 <= i < |w.rows| ==> SameLabels(w.rows[i], v.rows[i])
    ensures CatalogAt(v.rows, id) && HasCatalog(v.rows)
  {
    var i :| 0 <= i < |w.rows| && IsCatalog(w.rows[i]) && w.rows[i].id == id;
    assert SameLabels(w.rows[i], v.rows[i]);
    assert IsCatalog(v.rows[i]);
  }

  /**
   * What one put does to the node. `own` is what the client had written before and `now` what it has after, `wrote`
   * whether anything was written. A definition without content leaves the content its writer put there before, if
   * that was under the same fields; in every other case the content left is the definition's own.
   */
  ghost predicate PutDid(before: World, after: World, own: set<string>, now: set<string>, d: Def, wrote: bool) {
    && OthersKept(WithCatalog(before), after, d.id) && HasCatalog(after.rows)
    && (d.content.Some? || d.id !in own ==> Holds(after.rows, d))
    && (forall e: Def, text :: d.content == None && d.id in own && e.id == d.id && Leaves(before.rows, e, text) ==>
          Leaves(after.rows, d, if SameFields(e, d) then text else ""))
    && (now == own || now == own + {d.id})
    && (d.id !in own ==> (d.id in now <==> d.content == None || !Holds(before.rows, d)))
    && (d.id !in now ==> after == WithCatalog(before))
    && (d.id !in own ==> (wrote <==> !HasCatalog(before.rows) || d.id in now))
    && (!wrote ==> after == before)
    && forall catalog :: CatalogAt(after.rows, catalog) && Housed(before.rows, catalog) ==> Housed(after.rows, catalog)
  }

  /** What a client believes is so. */
  ghost predicate Coherent(w: World, catalogId: Option<nat>, existing: Option<Existing>, own: set<string>) {
    && OneEach(w)
    && (catalogId.Some? ==> CatalogAt(w.rows, catalogId.value))
    && (existing.Some? ==> Knows(existing.value, w.rows, own))
    && (existing == None ==> own == {})
  }

  /** There is one catalog. */
  lemma OneCatalog(w: World, a: nat, b: nat)
    requires OneEach(w) && CatalogAt(w.rows, a) && CatalogAt(w.rows, b)
    ensures a == b
  {
    var i :| 0 <= i < |w.rows| && IsCatalog(w.rows[i]) && w.rows[i].id == a;
    var j :| 0 <= j < |w.rows| && IsCatalog(w.rows[j]) && w.rows[j].id == b;
    assert i < j ==> Apart(w.rows[i], w.rows[j]);
    assert j < i ==> Apart(w.rows[j], w.rows[i]);
  }

  lemma PutLeaves(before: World, catalog: nat, ex: Existing, own: set<string>, d: Def, e: Def, text: string)
    requires Coherent(WithCatalog(before), Some(catalog), Some(ex), own) && "op." <= d.id
    requires d.content == None && d.id in own && e.id == d.id && Leaves(before.rows, e, text)
    ensures Leaves(Upsert(WithCatalog(before), catalog, ex, d).rows, d, if SameFields(e, d) then text else "")
  {
    var w := WithCatalog(before);
    CatalogLeaves(before, e, text);
    UpsertLeaves(w, catalog, ex, own, d);
    OwnWrites(w, ex, own, d, e, text);
  }

  lemma PutHouses(before: World, catalog: nat, ex: Existing, own: set<string>, d: Def, c: nat)
    requires Coherent(WithCatalog(before), Some(catalog), Some(ex), own) && "op." <= d.id
    requires var v := Upsert(WithCatalog(before), catalog, ex, d);
             OneEach(v) && CatalogAt(v.rows, catalog) && CatalogAt(v.rows, c)
    requires Housed(before.rows, c)
    ensures Housed(Upsert(WithCatalog(before), catalog, ex, d).rows, c)
  {
    OneCatalog(Upsert(WithCatalog(before), catalog, ex, d), c, catalog);
    CatalogHoused(before, catalog);
    UpsertHoused(WithCatalog(before), catalog, ex, own, d);
  }

  lemma PutFacts(before: World, catalog: nat, ex: Existing, own: set<string>, d: Def)
    requires Coherent(WithCatalog(before), Some(catalog), Some(ex), own) && "op." <= d.id
    ensures var w := WithCatalog(before); var v := Upsert(w, catalog, ex, d);
            var now := if Writes(ex, d) then own + {d.id} else own;
            && Coherent(v, Some(catalog), Some(Learned(w, ex, d)), now)
            && PutDid(before, v, own, now, d, !HasCatalog(before.rows) || Writes(ex, d))
  {
    var w := WithCatalog(before);
    var v := Upsert(w, catalog, ex, d);
    UpsertOthers(w, catalog, ex, own, d);
    UpsertOneEach(w, catalog, ex, own, d);
    UpsertKnows(w, catalog, ex, own, d);
    UpsertLeaves(w, catalog, ex, own, d);
    if d.id !in own {
      WritesExactly(w, ex, own, d);
      CatalogLeaves(before, d, Text(d));
    }
    CatalogStays(w, v, catalog);
    forall e: Def, text | d.content == None && d.id in own && e.id == d.id && Leaves(before.rows, e, text)
      ensures Leaves(v.rows, d, if SameFields(e, d) then text else "")
    {
      PutLeaves(before, catalog, ex, own, d, e, text);
    }
    forall c | CatalogAt(v.rows, c) && Housed(before.rows, c)
      ensures Housed(v.rows, c)
    {
      PutHouses(before, catalog, ex, own, d, c);
    }
  }

  lemma NextPage(all: seq<Art>, offset: nat, n: nat)
    requires offset + n <= |all|
    ensures all[..offset] + all[offset..offset + n] == all[..offset + n]
    ensures offset + n == |all| ==> all[..offset + n] == all
  {
  }

  class Client {
    const mantle: Mantle
    var catalogId: Option<nat>
    var existing: Option<Existing>
    ghost var own: set<string>

    ghost predicate Valid()
      reads this, mantle
    {
      Coherent(mantle.w, catalogId, existing, own)
    }

    constructor (mantle: Mantle)
      requires OneEach(mantle.w)
      ensures Valid() && this.mantle == mantle && own == {}
    {
      this.mantle, catalogId, existing, own := mantle, None, None, {};
    }

    /** Every row, once and in order, however the node pages. */
    method List(ct: Option<string>) returns (rows: seq<Art>)
      ensures rows == Filter(mantle.w.rows, ct)
    {
      ghost var all := Filter(mantle.w.rows, ct);
      rows := [];
      var offset := 0;
      while true
        invariant offset == |rows| <= |all| && rows == all[..offset]
        decreases |all| - offset
      {
        var body := mantle.Get(ct, offset, PAGE);
        if body.Bare? {
          return body.items;
        }
        NextPage(all, offset, |body.items|);
        rows := rows + body.items;
        if !body.hasMore || body.items == [] {
          return rows;
        }
        offset := offset + |body.items|;
      }
    }

    method EnsureCatalog() returns (id: nat)
      requires Valid()
      modifies this, mantle
      ensures Valid() && catalogId == Some(id) && existing == old(existing) && own == old(own)
      ensures mantle.w == WithCatalog(old(mantle.w)) && CatalogAt(mantle.w.rows, id)
      ensures mantle.writes == old(mantle.writes) + if HasCatalog(old(mantle.w).rows) then 0 else 1
    {
      if catalogId.Some? {
        return catalogId.value;
      }
      var rows := List(None);
      FilterAll(mantle.w.rows);
      var found := FindCatalog(rows);
      if found.Some? {
        catalogId := found;
        return found.value;
      }
      assert !HasCatalog(mantle.w.rows);
      CatalogPosted(mantle.w);
      if existing.Some? {
        CatalogKnown(mantle.w, existing.value, own);
      }
      id := mantle.Post(CATALOG_ROW);
      catalogId := Some(id);
    }

    method Index() returns (ex: Existing)
      requires Valid()
      modifies this`existing
      ensures Valid() && existing == Some(ex) && (old(existing).Some? ==> existing == old(existing))
    {
      if existing.Some? {
        return existing.value;
      }
      var rows := List(Some(OPERATOR));
      FilterApart(mantle.w.rows, Some(OPERATOR));
      assert forall i :: 0 <= i < |rows| ==> rows[i] in rows;
      ex := Learn(rows);
      KnowsFiltered(ex, mantle.w.rows);
      existing := Some(ex);
    }

    /**
     * The operator's artifact then holds the definition; a client meeting it for the first time writes only if that
     * takes it.
     */
    method PutArtifact(d: Def)
      requires Valid() && "op." <= d.id
      modifies this, mantle
      ensures Valid() && mantle.writes >= old(mantle.writes)
      ensures PutDid(old(mantle.w), mantle.w, old(own), own, d, mantle.writes > old(mantle.writes))
    {
      var catalog := EnsureCatalog();
      var ex := Index();
      PutFacts(old(mantle.w), catalog, ex, own, d);
      if d.id !in ex {
        var id := mantle.Post(Row(catalog, d));
        existing := Some(ex[d.id := (id, d.(content := None))]);
        own := own + {d.id};
      } else if SpecOf(ex[d.id].1) != SpecOf(d) {
        mantle.Patch(ex[d.id].0, d.(content := None), Text(d));
        existing := Some(ex[d.id := (ex[d.id].0, d.(content := None))]);
        own := own + {d.id};
      }
    }
  }

  // ---- whole pushes ----

  /** The registry admits no other ids. */
  predicate AllOperators(docs: seq<Def>) {
    forall k :: 0 <= k < |docs| ==> "op." <= docs[k].id
  }

  predicate DistinctIds(docs: seq<Def>) {
    forall i, j :: 0 <= i < j < |docs| ==> docs[i].id != docs[j].id
  }

  predicate Names(docs: seq<Def>, n: nat, id: string)
    requires n <= |docs|
  {
    exists k :: 0 <= k < n && docs[k].id == id
  }

  /** The definition is the last of the first `n` for its operator. */
  ghost predicate LastOf(docs: seq<Def>, k: nat, n: nat) {
    k < n <= |docs| && forall j :: k < j < n ==> docs[j].id != docs[k].id
  }

  /** The last definition for an operator among the first `n`. */
  function Previous(docs: seq<Def>, n: nat, id: string): (k: Option<nat>)
    requires n <= |docs|
    ensures k.Some? <==> Names(docs, n, id)
    ensures k.Some? ==> k.value < n && docs[k.value].id == id && LastOf(docs, k.value, n)
  {
    if n == 0 then None else if docs[n - 1].id == id then Some(n - 1) else Previous(docs, n - 1, id)
  }

  /**
   * By then a push has written the operator itself: one of the definitions had no content, or was not held at the
   * start.
   */
  ghost predicate Written(start: seq<Art>, docs: seq<Def>, n: nat, id: string)
    requires n <= |docs|
  {
    exists k :: 0 <= k < n && docs[k].id == id && (docs[k].content == None || !Holds(start, docs[k]))
  }

  /**
   * The content a push leaves with a definition: its own, but for a definition without content whose operator the
   * push itself has written already, and last under the same fields, which gets what that one left.
   */
  ghost function TextLeft(start: seq<Art>, docs: seq<Def>, k: nat): string
    requires k < |docs|
    decreases k
  {
    var before := Previous(docs, k, docs[k].id);
    if docs[k].content == None && Written(start, docs, k, docs[k].id) && before.Some? &&
      SameFields(docs[before.value], docs[k])
    then TextLeft(start, docs, before.value)
    else Text(docs[k])
  }

  /**
   * Each operator has the last definition's fields and the content described, so holds the definition exactly when
   * that is its own.
   */
  ghost predicate LeftSoFar(start: seq<Art>, rows: seq<Art>, docs: seq<Def>, n: nat) {
    n <= |docs| && forall k: nat :: LastOf(docs, k, n) ==> LeftAt(start, rows, docs, k)
  }

  ghost predicate LeftAt(start: seq<Art>, rows: seq<Art>, docs: seq<Def>, k: nat)
    requires k < |docs|
  {
    var text := TextLeft(start, docs, k);
    Leaves(rows, docs[k], text) && (Holds(rows, docs[k]) <==> text == Text(docs[k]))
  }

  /** Definitions with content, and any in a manifest of distinct ids, are always held. */
  lemma TextIsOwn(start: seq<Art>, docs: seq<Def>, k: nat)
    requires k < |docs| && (docs[k].content.Some? || DistinctIds(docs))
    ensures TextLeft(start, docs, k) == Text(docs[k])
  {
  }

  /** The catalog is there and every definition, none without content, is held. */
  ghost predicate Settled(rows: seq<Art>, docs: seq<Def>, n: nat)
    requires n <= |docs|
  {
    n > 0 ==> HasCatalog(rows) && forall k :: 0 <= k < n ==> docs[k].content.Some? && Holds(rows, docs[k])
  }

  /** Operators the first `n` definitions do not name are as before. */
  ghost predicate Untouched(before: seq<Art>, after: seq<Art>, docs: seq<Def>, n: nat)
    requires n <= |docs|
  {
    forall d: Def, text :: !Names(docs, n, d.id) ==> (Leaves(before, d, text) <==> Leaves(after, d, text))
  }

  /** Operators the push has not written are as before. */
  ghost predicate OnlyOwn(start: seq<Art>, rows: seq<Art>, own: set<string>) {
    forall d: Def, text :: d.id !in own ==> (Leaves(start, d, text) <==> Leaves(rows, d, text))
  }

  /** A moment of a push: the node, what the client has written, and how often. */
  datatype Stage = Stage(w: World, own: set<string>, writes: nat)

  /** One put leads from one moment to the next. */
  ghost predicate Took(p: Stage, s: Stage, d: Def) {
    s.writes >= p.writes && PutDid(p.w, s.w, p.own, s.own, d, s.writes > p.writes)
  }

  /** What is so after `n` definitions. */
  ghost predicate PushedSoFar(start: Stage, s: Stage, docs: seq<Def>, n: nat) {
    && n <= |docs| && s.writes >= start.writes
    && OnlyOwn(start.w.rows, s.w.rows, s.own)
    && TextsLeft(start.w.rows, s.w.rows, docs, n)
    && (n > 0 ==> HasCatalog(s.w.rows)) && (n == 0 ==> s == start)
    && OwnIsWritten(start.w.rows, docs, n, s.own)
    && (DistinctIds(docs) ==> (s.writes > start.writes <==> !Settled(start.w.rows, docs, n)))
    && (s.writes == start.writes ==> s.w == start.w)
  }

  ghost predicate TextsLeft(start: seq<Art>, rows: seq<Art>, docs: seq<Def>, n: nat)
    requires n <= |docs|
  {
    forall k: nat :: LastOf(docs, k, n) ==> Leaves(rows, docs[k], TextLeft(start, docs, k))
  }

  ghost predicate OwnIsWritten(start: seq<Art>, docs: seq<Def>, n: nat, own: set<string>)
    requires n <= |docs|
  {
    forall id :: id in own <==> Written(start, docs, n, id)
  }

  lemma LeavesAfter(w: World, v: World, id: string, d: Def, text: string)
    requires OthersKept(WithCatalog(w), v, id) && d.id != id
    ensures Leaves(w.rows, d, text) <==> Leaves(v.rows, d, text)
  {
    CatalogLeaves(w, d, text);
    LeavesKept(WithCatalog(w), v, id, d, text);
  }

  lemma WrittenMore(start: seq<Art>, docs: seq<Def>, n: nat, id: string)
    requires n < |docs|
    ensures Written(start, docs, n + 1, id) <==>
              Written(start, docs, n, id) || (docs[n].id == id && (docs[n].content == None || !Holds(start, docs[n])))
  {
  }

  lemma OwnMore(start: seq<Art>, p: Stage, s: Stage, docs: seq<Def>, n: nat)
    requires n < |docs| && Took(p, s, docs[n]) && OnlyOwn(start, p.w.rows, p.own) && OwnIsWritten(start, docs, n, p.own)
    ensures OwnIsWritten(start, docs, n + 1, s.own)
  {
    var d := docs[n];
    forall id
      ensures id in s.own <==> Written(start, docs, n + 1, id)
    {
      WrittenMore(start, docs, n, id);
      if id == d.id && id !in p.own {
        assert Holds(start, d) <==> Holds(p.w.rows, d);
      }
    }
  }

  lemma OnlyOwnMore(start: seq<Art>, p: Stage, s: Stage, d: Def)
    requires Took(p, s, d) && OnlyOwn(start, p.w.rows, p.own)
    ensures OnlyOwn(start, s.w.rows, s.own)
  {
    forall e: Def, text | e.id !in s.own
      ensures Leaves(start, e, text) <==> Leaves(s.w.rows, e, text)
    {
      if e.id == d.id {
        CatalogLeaves(p.w, e, text);
      } else {
        LeavesAfter(p.w, s.w, d.id, e, text);
      }
    }
  }

  /** The definition just put has the content described. */
  lemma LeftHere(start: seq<Art>, p: Stage, s: Stage, docs: seq<Def>, n: nat)
    requires n < |docs| && Took(p, s, docs[n]) && OwnIsWritten(start, docs, n, p.own)
    requires TextsLeft(start, p.w.rows, docs, n)
    ensures Leaves(s.w.rows, docs[n], TextLeft(start, docs, n))
  {
    var d := docs[n];
    var before := Previous(docs, n, d.id);
    assert d.id in p.own <==> Written(start, docs, n, d.id);
    if d.content == None && d.id in p.own {
      assert Names(docs, n, d.id);
      var e := docs[before.value];
      assert LastOf(docs, before.value, n);
      assert Leaves(p.w.rows, e, TextLeft(start, docs, before.value));
    }
  }

  lemma LeftMore(start: seq<Art>, w: World, v: World, docs: seq<Def>, n: nat)
    requires n < |docs| && OthersKept(WithCatalog(w), v, docs[n].id)
    requires TextsLeft(start, w.rows, docs, n) && Leaves(v.rows, docs[n], TextLeft(start, docs, n))
    ensures TextsLeft(start, v.rows, docs, n + 1)
  {
    forall k: nat | LastOf(docs, k, n + 1) && k < n
      ensures Leaves(v.rows, docs[k], TextLeft(start, docs, k))
    {
      assert LastOf(docs, k, n);
      LeftThere(w, v, docs, n, k, TextLeft(start, docs, k));
    }
  }

  lemma LeftThere(w: World, v: World, docs: seq<Def>, n: nat, k: nat, text: string)
    requires n < |docs| && LastOf(docs, k, n + 1) && k < n && OthersKept(WithCatalog(w), v, docs[n].id)
    requires Leaves(w.rows, docs[k], text)
    ensures Leaves(v.rows, docs[k], text)
  {
    LeavesAfter(w, v, docs[n].id, docs[k], text);
  }

  lemma SettledMore(rows: seq<Art>, docs: seq<Def>, n: nat)
    requires n < |docs|
    ensures Settled(rows, docs, n + 1) <==>
            Settled(rows, docs, n) && HasCatalog(rows) && docs[n].content.Some? && Holds(rows, docs[n])
  {
  }

  /** With distinct ids every operator is met for the first time. */
  lemma FirstMet(start: seq<Art>, p: Stage, s: Stage, docs: seq<Def>, n: nat)
    requires n < |docs| && Took(p, s, docs[n]) && OnlyOwn(start, p.w.rows, p.own) && OwnIsWritten(start, docs, n, p.own)
    requires DistinctIds(docs)
    ensures s.writes > p.writes <==> !(HasCatalog(p.w.rows) && docs[n].content.Some? && Holds(start, docs[n]))
  {
    var d := docs[n];
    assert !Written(start, docs, n, d.id);
    assert Holds(start, d) <==> Holds(p.w.rows, d);
  }

  lemma PushStep(start: Stage, p: Stage, s: Stage, docs: seq<Def>, n: nat)
    requires n < |docs| && PushedSoFar(start, p, docs, n) && Took(p, s, docs[n])
    ensures PushedSoFar(start, s, docs, n + 1)
  {
    OwnMore(start.w.rows, p, s, docs, n);
    OnlyOwnMore(start.w.rows, p, s, docs[n]);
    LeftHere(start.w.rows, p, s, docs, n);
    LeftMore(start.w.rows, p.w, s.w, docs, n);
    if DistinctIds(docs) {
      FirstMet(start.w.rows, p, s, docs, n);
      SettledMore(start.w.rows, docs, n);
    }
  }

  function Last(docs: seq<Def>): Def
    requires docs != []
  {
    docs[|docs| - 1]
  }

  function Init(docs: seq<Def>): seq<Def>
    requires docs != []
  {
    docs[..|docs| - 1]
  }

  /** A push got there by putting the definitions one by one. */
  ghost predicate Trail(start: Stage, s: Stage, docs: seq<Def>)
    decreases |docs|
  {
    if docs == [] then s == start else exists p :: Took(p, s, Last(docs)) && Trail(start, p, Init(docs))
  }

  lemma TrailMore(start: Stage, p: Stage, s: Stage, docs: seq<Def>, k: nat)
    requires k < |docs| && Trail(start, p, docs[..k]) && Took(p, s, docs[k])
    ensures Trail(start, s, docs[..k + 1])
  {
    assert Last(docs[..k + 1]) == docs[k] && Init(docs[..k + 1]) == docs[..k];
  }

  lemma StartStands(start: Stage, docs: seq<Def>)
    requires start.own == {}
    ensures PushedSoFar(start, start, docs, 0)
  {
  }

  lemma {:induction false} TrailStands(start: Stage, s: Stage, docs: seq<Def>, n: nat)
    requires n <= |docs| && start.own == {} && Trail(start, s, docs[..n])
    ensures PushedSoFar(start, s, docs, n)
    decreases n
  {
    if n == 0 {
      StartStands(start, docs);
    } else {
      var p := TrailBack(start, s, docs, n);
      TrailStands(start, p, docs, n - 1);
      PushStep(start, p, s, docs, n - 1);
    }
  }

  lemma TrailBack(start: Stage, s: Stage, docs: seq<Def>, n: nat) returns (p: Stage)
    requires 0 < n <= |docs| && Trail(start, s, docs[..n])
    ensures Took(p, s, docs[n - 1]) && Trail(start, p, docs[..n - 1])
  {
    assert Last(docs[..n]) == docs[n - 1] && Init(docs[..n]) == docs[..n - 1];
    p :| Took(p, s, Last(docs[..n])) && Trail(start, p, Init(docs[..n]));
  }

  /** What a push that stands there has come to. */
  lemma PushedFacts(start: Stage, s: Stage, docs: seq<Def>, n: nat)
    requires OneEach(s.w) && PushedSoFar(start, s, docs, n)
    ensures LeftSoFar(start.w.rows, s.w.rows, docs, n) && Untouched(start.w.rows, s.w.rows, docs, n)
  {
    forall k: nat | LastOf(docs, k, n)
      ensures LeftAt(start.w.rows, s.w.rows, docs, k)
    {
      var text := TextLeft(start.w.rows, docs, k);
      assert Leaves(s.w.rows, docs[k], text);
      if Holds(s.w.rows, docs[k]) {
        OneText(s.w, docs[k], text, Text(docs[k]));
      }
    }
    forall d: Def, text | !Names(docs, n, d.id)
      ensures Leaves(start.w.rows, d, text) <==> Leaves(s.w.rows, d, text)
    {
      assert !Written(start.w.rows, docs, n, d.id);
    }
  }

  /**
   * One push by a fresh client, which a failure may cut short: after `n` definitions, or, `torn`, in the middle of
   * the next, the catalog ensured and nothing else of it done. There is never a second catalog or a second artifact
   * for an operator; each operator is left exactly as described, and one not named as it was. For distinct ids
   * nothing is written exactly when everything is there already.
   */
  method PushManifests(mantle: Mantle, docs: seq<Def>, n: nat, torn: bool)
    requires OneEach(mantle.w) && n <= |docs| && AllOperators(docs) && (torn ==> n < |docs|)
    modifies mantle
    ensures OneEach(mantle.w) && LeftSoFar(old(mantle.w).rows, mantle.w.rows, docs, n)
    ensures Untouched(old(mantle.w).rows, mantle.w.rows, docs, n)
    ensures n > 0 || torn ==> HasCatalog(mantle.w.rows)
    ensures mantle.writes >= old(mantle.writes)
    ensures DistinctIds(docs) ==>
              (mantle.writes == old(mantle.writes) <==>
                Settled(old(mantle.w).rows, docs, n) && (torn ==> HasCatalog(old(mantle.w).rows)))
    ensures mantle.writes == old(mantle.writes) ==> mantle.w == old(mantle.w)
  {
    ghost var start := Stage(mantle.w, {}, mantle.writes);
    ghost var s := PushSome(mantle, docs, n, torn);
    TrailStands(start, s, docs, n);
    PushedFacts(start, s, docs, n);
    TornFacts(start.w.rows, s.w, docs, n);
  }

  /** Ensuring the catalog once more leaves every operator as it is. */
  lemma TornFacts(start: seq<Art>, w: World, docs: seq<Def>, n: nat)
    requires LeftSoFar(start, w.rows, docs, n) && Untouched(start, w.rows, docs, n)
    ensures LeftSoFar(start, WithCatalog(w).rows, docs, n) && Untouched(start, WithCatalog(w).rows, docs, n)
    ensures HasCatalog(WithCatalog(w).rows)
  {
    var v := WithCatalog(w);
    forall d: Def, text
      ensures Leaves(v.rows, d, text) <==> Leaves(w.rows, d, text)
    {
      CatalogLeaves(w, d, text);
    }
    if !HasCatalog(w.rows) {
      assert IsCatalog(v.rows[|w.rows|]);
    }
    forall k: nat | LastOf(docs, k, n)
      ensures LeftAt(start, v.rows, docs, k)
    {
      assert LeftAt(start, w.rows, docs, k);
    }
  }

  method PushSome(mantle: Mantle, docs: seq<Def>, n: nat, torn: bool) returns (ghost s: Stage)
    requires OneEach(mantle.w) && n <= |docs| && AllOperators(docs) && (torn ==> n < |docs|)
    modifies mantle
    ensures OneEach(mantle.w) && OneEach(s.w) && mantle.w == if torn then WithCatalog(s.w) else s.w
    ensures mantle.writes == s.writes + if torn && !HasCatalog(s.w.rows) then 1 else 0
    ensures Trail(Stage(old(mantle.w), {}, old(mantle.writes)), s, docs[..n])
  {
    var client := new Client(mantle);
    ghost var start := Stage(mantle.w, {}, mantle.writes);
    s := start;
    var k := 0;
    while k < n
      invariant 0 <= k <= n && client.Valid() && client.mantle == mantle && fresh(client)
      invariant s == Stage(mantle.w, client.own, mantle.writes) && Trail(start, s, docs[..k])
    {
      ghost var p := s;
      client.PutArtifact(docs[k]);
      s := Stage(mantle.w, client.own, mantle.writes);
      TrailMore(start, p, s, docs, k);
      k := k + 1;
    }
    if torn {
      var _ := client.EnsureCatalog();
    }
  }

  /**
   * The same manifest pushed again, by a client that starts afresh, writes nothing exactly when every definition
   * carries content.
   */
  method PushTwice(mantle: Mantle, docs: seq<Def>) returns (ghost between: World, ghost wrote: nat)
    requires OneEach(mantle.w) && DistinctIds(docs) && AllOperators(docs)
    modifies mantle
    ensures OneEach(mantle.w)
    ensures forall k :: 0 <= k < |docs| ==> Holds(mantle.w.rows, docs[k]) && Holds(between.rows, docs[k])
    ensures wrote == 0 <==> forall k :: 0 <= k < |docs| ==> docs[k].content.Some?
    ensures wrote == 0 ==> mantle.w == between
  {
    ghost var start := mantle.w;
    PushManifests(mantle, docs, |docs|, false);
    between := mantle.w;
    AllHeld(start.rows, between.rows, docs);
    ghost var before := mantle.writes;
    PushManifests(mantle, docs, |docs|, false);
    AllHeld(between.rows, mantle.w.rows, docs);
    wrote := mantle.writes - before;
  }

  lemma AllHeld(start: seq<Art>, rows: seq<Art>, docs: seq<Def>)
    requires LeftSoFar(start, rows, docs, |docs|) && DistinctIds(docs)
    ensures forall k :: 0 <= k < |docs| ==> Holds(rows, docs[k])
  {
    forall k | 0 <= k < |docs|
      ensures Holds(rows, docs[k])
    {
      assert LastOf(docs, k, |docs|);
      assert LeftAt(start, rows, docs, k);
      TextIsOwn(start, docs, k);
    }
  }

  // ---- any number of pushes ----

  /** A manifest, after how many of its definitions the push ended, and whether it had begun on the next. */
  datatype Attempt = Attempt(docs: seq<Def>, cut: nat, torn: bool)

  predicate Valid(a: Attempt) {
    a.cut <= |a.docs| && AllOperators(a.docs) && (a.torn ==> a.cut < |a.docs|)
  }

  /** The operator is not named by the attempts from `m` up to `upto`, as far as they got. */
  ghost predicate Unnamed(attempts: seq<Attempt>, m: nat, upto: nat, id: string)
    requires upto <= |attempts|
  {
    forall i :: m <= i < upto ==> !NamedBy(attempts[i], id)
  }

  predicate NamedBy(a: Attempt, id: string) {
    Valid(a) && Names(a.docs, a.cut, id)
  }

  /** Definition `k` of attempt `m` is the last word on its operator. */
  ghost predicate Final(attempts: seq<Attempt>, m: nat, k: nat) {
    && m < |attempts| && LastOf(attempts[m].docs, k, attempts[m].cut)
    && Unnamed(attempts, m + 1, |attempts|, attempts[m].docs[k].id)
  }

  /** Each push so far began where the one before it ended, and the last ended here. */
  ghost predicate Follows(starts: seq<World>, w: World, attempts: seq<Attempt>, upto: nat)
    requires upto <= |attempts| && upto <= |starts|
  {
    forall m: nat :: m < upto ==> Pushed(starts[m], EndOf(starts, w, m, upto), attempts[m])
  }

  /** Where push `m` of `upto` ended: where the next began, or here. */
  function EndOf(starts: seq<World>, w: World, m: nat, upto: nat): World
    requires m < upto <= |starts|
  {
    if m + 1 < upto then starts[m + 1] else w
  }

  /** What one push makes of the world it begins in. */
  ghost predicate Pushed(before: World, after: World, a: Attempt) {
    && Valid(a) && OneEach(before) && OneEach(after)
    && LeftSoFar(before.rows, after.rows, a.docs, a.cut) && Untouched(before.rows, after.rows, a.docs, a.cut)
    && (a.cut > 0 || a.torn ==> HasCatalog(after.rows))
  }

  /** What every push so far left for the operators no later push named is still so. */
  ghost predicate AllLeft(starts: seq<World>, w: World, attempts: seq<Attempt>, upto: nat)
    requires upto <= |attempts| && upto <= |starts|
  {
    forall m: nat, k: nat ::
      m < upto && LastOf(attempts[m].docs, k, attempts[m].cut) &&
        Unnamed(attempts, m + 1, upto, attempts[m].docs[k].id) ==>
        LeftAt(starts[m].rows, w.rows, attempts[m].docs, k)
  }

  lemma StillLeft(start: World, w: World, v: World, docs: seq<Def>, k: nat, later: Attempt)
    requires k < |docs| && Valid(later) && LeftAt(start.rows, w.rows, docs, k)
    requires Untouched(w.rows, v.rows, later.docs, later.cut) && !Names(later.docs, later.cut, docs[k].id)
    ensures LeftAt(start.rows, v.rows, docs, k)
  {
    assert Holds(w.rows, docs[k]) <==> Holds(v.rows, docs[k]);
  }

  lemma AllLeftMore(starts: seq<World>, w: World, v: World, attempts: seq<Attempt>, upto: nat)
    requires upto < |attempts| && upto == |starts| && forall i :: 0 <= i < |attempts| ==> Valid(attempts[i])
    requires AllLeft(starts, w, attempts, upto) && Pushed(w, v, attempts[upto])
    ensures AllLeft(starts + [w], v, attempts, upto + 1)
  {
    var more := starts + [w];
    forall m: nat, k: nat | m < upto + 1 && LastOf(attempts[m].docs, k, attempts[m].cut) &&
                            Unnamed(attempts, m + 1, upto + 1, attempts[m].docs[k].id)
      ensures LeftAt(more[m].rows, v.rows, attempts[m].docs, k)
    {
      if m < upto {
        assert Unnamed(attempts, m + 1, upto, attempts[m].docs[k].id);
        assert LeftAt(starts[m].rows, w.rows, attempts[m].docs, k);
        StillLeft(starts[m], w, v, attempts[m].docs, k, attempts[upto]);
      }
    }
  }

  lemma FollowsMore(starts: seq<World>, w: World, v: World, attempts: seq<Attempt>, upto: nat)
    requires upto < |attempts| && upto == |starts|
    requires Follows(starts, w, attempts, upto) && Pushed(w, v, attempts[upto])
    ensures Follows(starts + [w], v, attempts, upto + 1)
  {
    var more := starts + [w];
    forall m: nat | m < upto + 1
      ensures Pushed(more[m], EndOf(more, v, m, upto + 1), attempts[m])
    {
      if m < upto {
        assert Pushed(starts[m], EndOf(starts, w, m, upto), attempts[m]);
      }
    }
  }

  /**
   * Any number of pushes, each by a fresh client and each perhaps cut short, leave one catalog and one artifact per
   * operator; and each operator as the last push that named it left it, which is holding the definition pushed
   * whenever that had content or the manifest's ids were distinct.
   */
  method PushMany(mantle: Mantle, attempts: seq<Attempt>) returns (ghost starts: seq<World>)
    requires OneEach(mantle.w) && forall i :: 0 <= i < |attempts| ==> Valid(attempts[i])
    modifies mantle
    ensures OneEach(mantle.w) && |starts| == |attempts| && (starts != [] ==> starts[0] == old(mantle.w))
    ensures Follows(starts, mantle.w, attempts, |attempts|) && AllLeft(starts, mantle.w, attempts, |attempts|)
    ensures forall m: nat, k: nat :: Final(attempts, m, k) ==>
              attempts[m].docs[k].content.Some? || DistinctIds(attempts[m].docs) ==>
                Holds(mantle.w.rows, attempts[m].docs[k])
  {
    starts := [];
    var m := 0;
    while m < |attempts|
      invariant 0 <= m <= |attempts| && OneEach(mantle.w) && |starts| == m
      invariant if m == 0 then mantle.w == old(mantle.w) else starts[0] == old(mantle.w)
      invariant AllLeft(starts, mantle.w, attempts, m) && Follows(starts, mantle.w, attempts, m)
    {
      ghost var w, a := mantle.w, attempts[m];
      PushManifests(mantle, attempts[m].docs, attempts[m].cut, attempts[m].torn);
      assert Pushed(w, mantle.w, a);
      AllLeftMore(starts, w, mantle.w, attempts, m);
      FollowsMore(starts, w, mantle.w, attempts, m);
      starts := starts + [w];
      m := m + 1;
    }
    AllLeftHolds(starts, mantle.w, attempts);
  }

  lemma AllLeftHolds(starts: seq<World>, w: World, attempts: seq<Attempt>)
    requires |starts| == |attempts| && AllLeft(starts, w, attempts, |attempts|)
    ensures forall m: nat, k: nat :: Final(attempts, m, k) ==>
              attempts[m].docs[k].content.Some? || DistinctIds(attempts[m].docs) ==> Holds(w.rows, attempts[m].docs[k])
  {
    forall m: nat, k: nat | Final(attempts, m, k)
      ensures attempts[m].docs[k].content.Some? || DistinctIds(attempts[m].docs) ==> Holds(w.rows, attempts[m].docs[k])
    {
      assert LeftAt(starts[m].rows, w.rows, attempts[m].docs, k);
      if attempts[m].docs[k].content.Some? || DistinctIds(attempts[m].docs) {
        TextIsOwn(starts[m].rows, attempts[m].docs, k);
      }
    }
  }
}
