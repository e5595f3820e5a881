/** Pushing operator manifests to Mantle: the paged scan, and the client-side upsert. */
module Push {
  import opened Outcomes

  const PAGE: nat := 200
  const CATALOG := "Operator Catalog"
  const OPERATOR := "application/vnd.agience.operator+json"

  /** An operator definition: its spec, the fields carried beside it (`rest`), and its pattern. */
  datatype Def = Def(id: string, offer: Option<string>, needs: Option<string>, contentRef: Option<string>,
                     entry: Option<string>, rest: Option<string>, content: Option<string>)

  /** An artifact as Mantle lists it; `context` is the definition its context JSON holds, if it holds one. */
  datatype Art = Art(id: nat, container: Option<nat>, name: string, contentType: string, context: Option<Def>,
                     content: string)

  datatype Spec = Spec(id: string, offer: Option<string>, needs: Option<string>, content: Option<string>,
                       contentRef: Option<string>, entry: Option<string>)

  /** What `spec_hash` hashes. */
  function SpecOf(d: Def): Spec {
    Spec(d.id, d.offer, d.needs, d.content, d.contentRef, d.entry)
  }

  function Text(d: Def): string {
    if d.content == None then "" else d.content.value
  }

  /** The definition a stored artifact carries; its content is always a string, never absent. */
  function DefinitionOf(raw: Art): Option<Def> {
    if raw.context.Some? && "op." <= raw.context.value.id then
      Some(raw.context.value.(content := Some(raw.content)))
    else None
  }

  /** The operator an artifact is, if it is one. */
  function OpId(r: Art): (id: Option<string>)
    ensures id.Some? ==> DefinitionOf(r).Some? && DefinitionOf(r).value.id == id.value
  {
    if r.contentType == OPERATOR && DefinitionOf(r).Some? then Some(r.context.value.id) else None
  }

  predicate IsOp(r: Art, id: string) {
    OpId(r) == Some(id)
  }

  predicate IsCatalog(r: Art) {
    r.name == CATALOG
  }

  // ---- what Mantle holds ----

  datatype World = World(rows: seq<Art>, next: nat)

  /** The artifacts differ in id, and neither both are catalogs nor both the same operator. */
  predicate Apart(a: Art, b: Art) {
    a.id != b.id && !(IsCatalog(a) && IsCatalog(b)) && (OpId(a).Some? ==> OpId(a) != OpId(b))
  }

  /** One catalog and one artifact per operator id at most, each artifact under an id of its own. */
  ghost predicate OneEach(w: World) {
    && (forall i, j :: 0 <= i < j < |w.rows| ==> Apart(w.rows[i], w.rows[j]))
    && (forall i :: 0 <= i < |w.rows| ==> w.rows[i].id < w.next && (OpId(w.rows[i]).Some? ==> !IsCatalog(w.rows[i])))
  }

  function Posted(w: World, a: Art): World {
    World(w.rows + [a.(id := w.next)], w.next + 1)
  }

  function Patched(w: World, id: nat, d: Def, content: string): (p: World)
    ensures |p.rows| == |w.rows| && p.next == w.next
    ensures forall i :: 0 <= i < |w.rows| ==>
            p.rows[i] == if w.rows[i].id == id then w.rows[i].(context := Some(d), content := content) else w.rows[i]
  {
    World(seq(|w.rows|, i requires 0 <= i < |w.rows| =>
      if w.rows[i].id == id then w.rows[i].(context := Some(d), content := content) else w.rows[i]), w.next)
  }

  /** The same spec, content aside. */
  predicate SameFields(d: Def, e: Def) {
    d.id == e.id && d.offer == e.offer && d.needs == e.needs && d.contentRef == e.contentRef && d.entry == e.entry
  }

  predicate Carries(r: Art, d: Def, text: string) {
    IsOp(r, d.id) && SameFields(DefinitionOf(r).value, d) && r.content == text
  }

  /** The artifact for the definition's id has its spec, with `text` for content. */
  ghost predicate Leaves(rows: seq<Art>, d: Def, text: string) {
    exists i :: 0 <= i < |rows| && Carries(rows[i], d, text)
  }

  /** The artifact for the definition's id holds its spec, content and all. */
  ghost predicate Holds(rows: seq<Art>, d: Def) {
    Leaves(rows, d, Text(d))
  }

  lemma OneText(w: World, d: Def, text: string, other: string)
    requires OneEach(w) && Leaves(w.rows, d, text) && Leaves(w.rows, d, other)
    ensures text == other
  {
    var i :| 0 <= i < |w.rows| && Carries(w.rows[i], d, text);
    var j :| 0 <= j < |w.rows| && Carries(w.rows[j], d, other);
    assert i < j ==> Apart(w.rows[i], w.rows[j]);
    assert j < i ==> Apart(w.rows[j], w.rows[i]);
  }

  /** Operator artifacts all live in the catalog. */
  ghost predicate Housed(rows: seq<Art>, catalog: nat) {
    forall i, id :: 0 <= i < |rows| && IsOp(rows[i], id) ==> rows[i].container == Some(catalog)
  }

  // ---- what a client knows ----

  type Existing = map<string, (nat, Def)>

  /**
   * An operator artifact is known under its id; of one the client wrote itself (`own`) it has forgotten the content.
   */
  predicate KnowsOne(ex: Existing, r: Art, own: set<string>) {
    OpId(r).Some? ==> var id := OpId(r).value; id in ex && ex[id] == (r.id, Remembered(r, id in own))
  }

  ghost predicate Stored(rows: seq<Art>, id: string) {
    exists i :: 0 <= i < |rows| && IsOp(rows[i], id)
  }

  /** The client knows the operator artifacts there are, and no others. */
  ghost predicate Knows(ex: Existing, rows: seq<Art>, own: set<string>) {
    && (forall id :: id in ex ==> Stored(rows, id))
    && (forall i :: 0 <= i < |rows| ==> KnowsOne(ex, rows[i], own))
  }

  function Remembered(r: Art, own: bool): Def
    requires DefinitionOf(r).Some?
  {
    if own then DefinitionOf(r).value.(content := None) else DefinitionOf(r).value
  }

  predicate Writes(ex: Existing, d: Def) {
    d.id !in ex || SpecOf(ex[d.id].1) != SpecOf(d)
  }

  function Row(catalog: nat, d: Def): Art {
    Art(0, Some(catalog), d.id, OPERATOR, Some(d.(content := None)), Text(d))
  }

  /** The upsert. */
  function Upsert(w: World, catalog: nat, ex: Existing, d: Def): World {
    if d.id !in ex then Posted(w, Row(catalog, d))
    else if Writes(ex, d) then Patched(w, ex[d.id].0, d.(content := None), Text(d))
    else w
  }

  function Learned(w: World, ex: Existing, d: Def): Existing {
    if d.id !in ex then ex[d.id := (w.next, d.(content := None))]
    else if Writes(ex, d) then ex[d.id := (ex[d.id].0, d.(content := None))]
    else ex
  }

  /** Artifacts other than the operator's own are left as they were. */
  ghost predicate OthersKept(w: World, v: World, id: string) {
    && |w.rows| <= |v.rows|
    && (forall i :: 0 <= i < |w.rows| && !IsOp(w.rows[i], id) ==> v.rows[i] == w.rows[i])
    && (forall i :: 0 <= i < |v.rows| && (i < |w.rows| ==> IsOp(w.rows[i], id)) ==> IsOp(v.rows[i], id))
  }

  /** What an artifact is, whatever it holds. */
  predicate SameLabels(a: Art, b: Art) {
    a.id == b.id && a.name == b.name && a.container == b.container && OpId(a) == OpId(b)
  }

  /**
   * Where the operator's artifact is, the upsert replaces what it holds, if it writes at all; where there is none it
   * adds one.
   */
  lemma UpsertAt(w: World, catalog: nat, ex: Existing, own: set<string>, d: Def) returns (k: nat)
    requires OneEach(w) && Knows(ex, w.rows, own) && "op." <= d.id
    ensures k <= |w.rows| && (forall i :: 0 <= i < |w.rows| && i != k ==> !IsOp(w.rows[i], d.id))
    ensures k < |w.rows| <==> d.id in ex
    ensures k < |w.rows| ==> IsOp(w.rows[k], d.id) && ex[d.id] == (w.rows[k].id, Remembered(w.rows[k], d.id in own))
    ensures Upsert(w, catalog, ex, d).rows ==
            if k == |w.rows| then w.rows + [Row(catalog, d).(id := w.next)]
            else if Writes(ex, d) then w.rows[k := w.rows[k].(context := Some(d.(content := None)), content := Text(d))]
            else w.rows
  {
    if d.id !in ex {
      k := |w.rows|;
      forall i | 0 <= i < |w.rows|
        ensures !IsOp(w.rows[i], d.id)
      {
        assert KnowsOne(ex, w.rows[i], own);
      }
    } else {
      assert Stored(w.rows, d.id);
      k :| 0 <= k < |w.rows| && IsOp(w.rows[k], d.id);
      assert KnowsOne(ex, w.rows[k], own);
      forall i | 0 <= i < |w.rows| && i != k
        ensures w.rows[i].id != w.rows[k].id && !IsOp(w.rows[i], d.id)
      {
        assert if i < k then Apart(w.rows[i], w.rows[k]) else Apart(w.rows[k], w.rows[i]);
      }
    }
  }

  lemma RowIsOp(catalog: nat, next: nat, d: Def)
    requires "op." <= d.id
    ensures var r := Row(catalog, d).(id := next);
            && Carries(r, d, Text(d)) && !IsCatalog(r) && Remembered(r, true) == d.(content := None)
            && r.name == d.id && r.contentType == OPERATOR && r.container == Some(catalog)
            && r.context == Some(d.(content := None)) && r.id == next
  {
    assert d.id[0] == 'o' && CATALOG[0] == 'O';
  }

  lemma PatchIsOp(r: Art, d: Def)
    requires IsOp(r, d.id) && "op." <= d.id
    ensures var p := r.(context := Some(d.(content := None)), content := Text(d));
            SameLabels(r, p) && Carries(p, d, Text(d)) && Remembered(p, true) == d.(content := None)
  {
  }

  lemma UpsertOthers(w: World, catalog: nat, ex: Existing, own: set<string>, d: Def)
    requires OneEach(w) && Knows(ex, w.rows, own) && "op." <= d.id
    ensures OthersKept(w, Upsert(w, catalog, ex, d), d.id)
    ensures forall i :: 0 <= i < |w.rows| ==> SameLabels(w.rows[i], Upsert(w, catalog, ex, d).rows[i])
  {
    var k := UpsertAt(w, catalog, ex, own, d);
    if k < |w.rows| {
      PatchIsOp(w.rows[k], d);
    } else {
      RowIsOp(catalog, w.next, d);
    }
  }

  lemma UpsertOneEach(w: World, catalog: nat, ex: Existing, own: set<string>, d: Def)
    requires OneEach(w) && Knows(ex, w.rows, own) && "op." <= d.id
    ensures OneEach(Upsert(w, catalog, ex, d))
  {
    var v := Upsert(w, catalog, ex, d);
    var k := UpsertAt(w, catalog, ex, own, d);
    UpsertOthers(w, catalog, ex, own, d);
    RowIsOp(catalog, w.next, d);
    forall i, j | 0 <= i < j < |v.rows|
      ensures Apart(v.rows[i], v.rows[j])
    {
      assert SameLabels(w.rows[i], v.rows[i]);
      if j < |w.rows| {
        assert Apart(w.rows[i], w.rows[j]) && SameLabels(w.rows[j], v.rows[j]);
      }
    }
  }

  lemma UpsertKnows(w: World, catalog: nat, ex: Existing, own: set<string>, d: Def)
    requires OneEach(w) && Knows(ex, w.rows, own) && "op." <= d.id
    ensures Knows(Learned(w, ex, d), Upsert(w, catalog, ex, d).rows, if Writes(ex, d) then own + {d.id} else own)
  {
    var v, learned := Upsert(w, catalog, ex, d), Learned(w, ex, d);
    var k := UpsertAt(w, catalog, ex, own, d);
    if Writes(ex, d) {
      if k < |w.rows| {
        PatchIsOp(w.rows[k], d);
      } else {
        RowIsOp(catalog, w.next, d);
      }
      assert KnowsOne(learned, v.rows[k], own + {d.id}) && IsOp(v.rows[k], d.id);
      forall i | 0 <= i < |v.rows| && i != k
        ensures KnowsOne(learned, v.rows[i], own + {d.id})
      {
        assert v.rows[i] == w.rows[i] && KnowsOne(ex, w.rows[i], own) && !IsOp(w.rows[i], d.id);
      }
      forall id | id in learned
        ensures Stored(v.rows, id)
      {
        if id != d.id {
          StoredKept(w.rows, v.rows, id, d.id, k);
        }
      }
    }
  }

  lemma StoredKept(rows: seq<Art>, more: seq<Art>, id: string, other: string, k: nat)
    requires Stored(rows, id) && id != other && |rows| <= |more|
    requires forall i :: 0 <= i < |rows| && i != k ==> more[i] == rows[i]
    requires k < |rows| ==> IsOp(rows[k], other)
    ensures Stored(more, id)
  {
    var i :| 0 <= i < |rows| && IsOp(rows[i], id);
    assert more[i] == rows[i];
  }

  /**
   * The content the upsert leaves: the definition's, but for one without content whose fields its own writer still
   * finds in place.
   */
  lemma UpsertLeaves(w: World, catalog: nat, ex: Existing, own: set<string>, d: Def)
    requires OneEach(w) && Knows(ex, w.rows, own) && "op." <= d.id
    ensures var v := Upsert(w, catalog, ex, d);
            && (d.content.Some? || d.id !in own || Writes(ex, d) ==> Leaves(v.rows, d, Text(d)))
            && (d.content == None && d.id in own && !Writes(ex, d) ==> v == w && exists text :: Leaves(w.rows, d, text))
  {
    var v := Upsert(w, catalog, ex, d);
    var k := UpsertAt(w, catalog, ex, own, d);
    if k == |w.rows| {
      RowIsOp(catalog, w.next, d);
      assert Carries(v.rows[k], d, Text(d));
    } else if Writes(ex, d) {
      PatchIsOp(w.rows[k], d);
      assert Carries(v.rows[k], d, Text(d));
    } else {
      assert Carries(w.rows[k], d, w.rows[k].content);
      assert Leaves(w.rows, d, w.rows[k].content);
    }
  }

  /**
   * The artifact then holds the definition's spec exactly when the definition has content, or the client did not
   * write the operator itself before, or its fields changed, or there was no content to go stale.
   */
  lemma UpsertHolds(w: World, catalog: nat, ex: Existing, own: set<string>, d: Def)
    requires OneEach(w) && Knows(ex, w.rows, own) && "op." <= d.id
    ensures Holds(Upsert(w, catalog, ex, d).rows, d) <==>
              d.content.Some? || d.id !in own || Writes(ex, d) ||
              forall i :: 0 <= i < |w.rows| && IsOp(w.rows[i], d.id) ==> w.rows[i].content == ""
  {
    var k := UpsertAt(w, catalog, ex, own, d);
    UpsertLeaves(w, catalog, ex, own, d);
    if d.content == None && d.id in own && !Writes(ex, d) {
      assert Carries(w.rows[k], d, w.rows[k].content);
      if Holds(w.rows, d) {
        OneText(w, d, "", w.rows[k].content);
      }
    }
  }

  /**
   * For a client that wrote the operator itself, a definition without content is written exactly when its fields are
   * new.
   */
  lemma OwnWrites(w: World, ex: Existing, own: set<string>, d: Def, e: Def, text: string)
    requires OneEach(w) && Knows(ex, w.rows, own) && "op." <= d.id && d.id in own && d.content == None
    requires e.id == d.id && Leaves(w.rows, e, text)
    ensures Writes(ex, d) <==> !SameFields(e, d)
    ensures SameFields(e, d) ==> Leaves(w.rows, d, text)
  {
    var k := UpsertAt(w, 0, ex, own, d);
    var i :| 0 <= i < |w.rows| && Carries(w.rows[i], e, text);
    assert i == k;
    if SameFields(e, d) {
      assert Carries(w.rows[i], d, text);
    }
  }

  /**
   * A client that has not written the operator writes exactly when the definition has no content, or the artifact
   * does not hold it.
   */
  lemma WritesExactly(w: World, ex: Existing, own: set<string>, d: Def)
    requires OneEach(w) && Knows(ex, w.rows, own) && "op." <= d.id && d.id !in own
    ensures Writes(ex, d) <==> d.content == None || !Holds(w.rows, d)
  {
    var k := UpsertAt(w, 0, ex, own, d);
    if k < |w.rows| {
      assert Carries(w.rows[k], d, Text(d)) ==> Holds(w.rows, d);
    }
  }

  /** What the world holds of other operators it still holds. */
  lemma LeavesKept(w: World, v: World, id: string, d: Def, text: string)
    requires OthersKept(w, v, id) && d.id != id
    ensures Leaves(w.rows, d, text) <==> Leaves(v.rows, d, text)
  {
    if i :| 0 <= i < |w.rows| && Carries(w.rows[i], d, text) {
      assert v.rows[i] == w.rows[i];
    }
    if i :| 0 <= i < |v.rows| && Carries(v.rows[i], d, text) {
      assert i < |w.rows| && !IsOp(w.rows[i], id);
    }
  }

  lemma UpsertHoused(w: World, catalog: nat, ex: Existing, own: set<string>, d: Def)
    requires OneEach(w) && Knows(ex, w.rows, own) && "op." <= d.id && Housed(w.rows, catalog)
    ensures Housed(Upsert(w, catalog, ex, d).rows, catalog)
  {
    UpsertOthers(w, catalog, ex, own, d);
  }

  /**
   * One client, the same operator first with content and then by reference alone: the second push is lost, and the
   * old content stays.
   */
  lemma ForgottenContent(w: World, catalog: nat, d: Def)
    requires OneEach(w) && (forall i :: 0 <= i < |w.rows| ==> !IsOp(w.rows[i], d.id)) && "op." <= d.id
    requires d.content.Some? && d.content.value != "" && d.contentRef.Some?
    ensures var v := Upsert(w, catalog, map[], d); var ex := Learned(w, map[], d); var bare := d.(content := None);
            Upsert(v, catalog, ex, bare) == v && !Holds(v.rows, bare)
  {
    var v := Upsert(w, catalog, map[], d);
    forall i | 0 <= i < |v.rows| && IsOp(v.rows[i], d.id)
      ensures v.rows[i].content != ""
    {
      assert i == |w.rows|;
    }
  }
}
