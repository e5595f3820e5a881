/** The lexicon twice over: the in-memory word index, and the entry edges the build lays for keyed reads. */
module Lexicon {
  import opened Outcomes
  import opened Names
  import opened Sums
  import opened Sorting

  /** One ontology doc, as the lexicon reads it. `ranks` keeps the written form of each lemma; `forms` lists, for a
      lemma, its irregular inflections. */
  datatype SynDoc = SynDoc(name: string, lang: Option<string>, pos: string, lemmas: seq<string>,
                           ranks: seq<(string, Option<real>)>, forms: seq<(string, seq<string>)>)

  /** A sense of a surface form: common before proper, then sense rank, an unstored rank last. */
  datatype Item = Item(proper: nat, rank: Option<real>, name: string)

  datatype Entry = Entry(surface: string, pos: string, item: Item)

  /** `lower().replace(" ", "_")`. */
  function Surface(s: string): (l: string)
    ensures |l| == |s|
  {
    seq(|s|, k requires 0 <= k < |s| => if s[k] == ' ' then '_' else LowerChar(s[k]))
  }

  /** The written form and rank filed under a lemma, whatever its case; a later filing replaces an earlier one. */
  function Filed(ranks: seq<(string, Option<real>)>, lm: string): (f: (string, Option<real>)) {
    if ranks == [] then (lm, None)
    else
      var last := ranks[|ranks| - 1];
      if Lower(last.0) == Lower(lm) then last else Filed(ranks[..|ranks| - 1], lm)
  }

  function EntryOf(d: SynDoc, lm: string): Entry {
    var (written, rank) := Filed(d.ranks, lm);
    Entry(Surface(lm), d.pos, Item(if written != Lower(written) then 1 else 0, rank, d.name))
  }

  function DocEntries(d: SynDoc, lemmas: seq<string>): seq<Entry> {
    if lemmas == [] then [] else DocEntries(d, lemmas[..|lemmas| - 1]) + [EntryOf(d, lemmas[|lemmas| - 1])]
  }

  function Entries(docs: seq<SynDoc>): seq<Entry> {
    if docs == [] then []
    else
      var d := docs[|docs| - 1];
      Entries(docs[..|docs| - 1]) + DocEntries(d, d.lemmas)
  }

  // ---- the simple form: word -> items, each list sorted ----

  function ItemsAt(es: seq<Entry>, w: string, p: string): seq<Item> {
    if es == [] then []
    else
      var e := es[|es| - 1];
      ItemsAt(es[..|es| - 1], w, p) + if e.surface == w && e.pos == p then [e.item] else []
  }

  predicate RankLe(a: Option<real>, b: Option<real>) {
    b == None || (a.Some? && a.value <= b.value)
  }

  predicate ItemLe(a: Item, b: Item) {
    a.proper < b.proper ||
    (a.proper == b.proper && (RankLe(a.rank, b.rank) && (a.rank == b.rank ==> StrLe(a.name, b.name))))
  }

  function NamesOf(items: seq<Item>): (names: seq<string>)
    ensures |names| == |items|
  {
    seq(|items|, k requires 0 <= k < |items| => items[k].name)
  }

  const ITEM_ORDER: (Item, Item) -> bool := (a: Item, b: Item) => ItemLe(a, b)

  function Senses(es: seq<Entry>, w: string, p: string): seq<string> {
    NamesOf(SortBy(ITEM_ORDER, ItemsAt(es, w, p)))
  }

  type Words = map<(string, string), seq<Item>>

  function WordsAt<T>(words: map<(string, string), seq<T>>, w: string, p: string): seq<T> {
    if (w, p) in words then words[(w, p)] else []
  }

  ghost predicate Files(words: Words, es: seq<Entry>) {
    forall w, p :: WordsAt(words, w, p) == ItemsAt(es, w, p) && ((w, p) in words ==> words[(w, p)] != [])
  }

  lemma FileOne(words: Words, es: seq<Entry>, e: Entry)
    requires Files(words, es)
    ensures Files(words[(e.surface, e.pos) := WordsAt(words, e.surface, e.pos) + [e.item]], es + [e])
  {
    var more := words[(e.surface, e.pos) := WordsAt(words, e.surface, e.pos) + [e.item]];
    assert (es + [e])[..|es|] == es;
    forall w, p
      ensures WordsAt(more, w, p) == ItemsAt(es + [e], w, p)
    {
      assert WordsAt(words, w, p) == ItemsAt(es, w, p);
    }
  }

  lemma DocEntriesStep(d: SynDoc, lemmas: seq<string>, i: nat, es: seq<Entry>)
    requires i < |lemmas|
    ensures es + DocEntries(d, lemmas[..i + 1]) == es + DocEntries(d, lemmas[..i]) + [EntryOf(d, lemmas[i])]
  {
    assert lemmas[..i + 1][..i] == lemmas[..i];
  }

  method IndexDoc(d: SynDoc, words: Words, ghost es: seq<Entry>) returns (more: Words)
    requires Files(words, es)
    ensures Files(more, es + DocEntries(d, d.lemmas))
  {
    more := words;
    assert es + DocEntries(d, d.lemmas[..0]) == es;
    for i := 0 to |d.lemmas|
      invariant Files(more, es + DocEntries(d, d.lemmas[..i]))
    {
      var e := EntryOf(d, d.lemmas[i]);
      ghost var before := es + DocEntries(d, d.lemmas[..i]);
      FileOne(more, before, e);
      DocEntriesStep(d, d.lemmas, i, es);
      more := more[(e.surface, e.pos) := WordsAt(more, e.surface, e.pos) + [e.item]];
    }
    assert d.lemmas[..|d.lemmas|] == d.lemmas;
  }

  method LoadWords(docs: seq<SynDoc>) returns (words: Words)
    ensures Files(words, Entries(docs))
  {
    words := map[];
    for i := 0 to |docs|
      invariant Files(words, Entries(docs[..i]))
    {
      assert docs[..i + 1][..i] == docs[..i];
      words := IndexDoc(docs[i], words, Entries(docs[..i]));
    }
    assert docs[..|docs|] == docs;
  }

  /** `_load_index`'s word index: every list sorted, then reduced to its names. */
  method LoadIndex(docs: seq<SynDoc>) returns (index: map<(string, string), seq<string>>)
    ensures forall w, p :: WordsAt(index, w, p) == Senses(Entries(docs), w, p)
    ensures forall w, p :: (w, p) in index ==> index[(w, p)] != []
  {
    var words := LoadWords(docs);
    index := map k | k in words :: NamesOf(SortBy(ITEM_ORDER, words[k]));
    forall w, p
      ensures WordsAt(index, w, p) == Senses(Entries(docs), w, p)
      ensures (w, p) in index ==> index[(w, p)] != []
    {
      assert WordsAt(words, w, p) == ItemsAt(Entries(docs), w, p);
      SortLength(ITEM_ORDER, WordsAt(words, w, p));
    }
  }

  lemma {:induction false} InsertLength<T>(le: (T, T) -> bool, x: T, s: seq<T>)
    ensures |Insert(le, x, s)| == |s| + 1
  {
    if s != [] && !le(x, s[0]) {
      InsertLength(le, x, s[1..]);
    }
  }

  lemma {:induction false} SortLength<T>(le: (T, T) -> bool, s: seq<T>)
    ensures |SortBy(le, s)| == |s|
  {
    if s != [] {
      SortLength(le, s[1..]);
      InsertLength(le, s[0], SortBy(le, s[1..]));
    }
  }

  // ---- the fast form: entry edges, read by surface and sorted by part of speech first ----

  /** What identifies an edge to the graph store. */
  function EdgeKey(e: Entry): (k: (string, string)) {
    (e.surface, e.item.name)
  }

  /** The store keeps one edge a key: an edge whose key is held already is not laid again. */
  function Lay(table: seq<Entry>, e: Entry): seq<Entry> {
    if exists i :: 0 <= i < |table| && EdgeKey(table[i]) == EdgeKey(e) then table else table + [e]
  }

  /** Entries laid in order; an empty lemma lays none. */
  function LaidAll(es: seq<Entry>): seq<Entry> {
    if es == [] then []
    else
      var before, e := LaidAll(es[..|es| - 1]), es[|es| - 1];
      if e.surface == "" then before else Lay(before, e)
  }

  lemma LaidOneMore(before: seq<Entry>, e: Entry)
    ensures LaidAll(before + [e]) == if e.surface == "" then LaidAll(before) else Lay(LaidAll(before), e)
  {
    assert (before + [e])[..|before|] == before;
  }

  method LayDoc(d: SynDoc, lang: string, table: seq<Entry>, ghost es: seq<Entry>) returns (more: seq<Entry>)
    requires table == LaidAll(es)
    ensures more == if OfLanguage(d, lang) then LaidAll(es + DocEntries(d, d.lemmas)) else table
  {
    more := table;
    if d.lang.Some? && d.lang.value != "" && d.lang.value != lang {
      return;
    }
    assert es + DocEntries(d, d.lemmas[..0]) == es;
    for i := 0 to |d.lemmas|
      invariant more == LaidAll(es + DocEntries(d, d.lemmas[..i]))
    {
      ghost var before := es + DocEntries(d, d.lemmas[..i]);
      DocEntriesStep(d, d.lemmas, i, es);
      LaidOneMore(before, EntryOf(d, d.lemmas[i]));
      if d.lemmas[i] != "" {
        more := Lay(more, EntryOf(d, d.lemmas[i]));
      }
    }
    assert d.lemmas[..|d.lemmas|] == d.lemmas;
  }

  /** A doc of the language being built, or of none. */
  predicate OfLanguage(d: SynDoc, lang: string) {
    d.lang == None || d.lang == Some("") || d.lang == Some(lang)
  }

  /** The docs a build of one language reads. */
  function Spoken(docs: seq<SynDoc>, lang: string): seq<SynDoc> {
    if docs == [] then []
    else
      var d := docs[|docs| - 1];
      Spoken(docs[..|docs| - 1], lang) + if OfLanguage(d, lang) then [d] else []
  }

  predicate OneLanguage(docs: seq<SynDoc>, lang: string) {
    forall k :: 0 <= k < |docs| ==> OfLanguage(docs[k], lang)
  }

  lemma {:induction false} AllSpoken(docs: seq<SynDoc>, lang: string)
    requires OneLanguage(docs, lang)
    ensures Spoken(docs, lang) == docs
  {
    if docs != [] {
      var init, d := docs[..|docs| - 1], docs[|docs| - 1];
      assert OneLanguage(init, lang) by {
        assert forall k :: 0 <= k < |init| ==> init[k] == docs[k];
      }
      AllSpoken(init, lang);
      assert init + [d] == docs;
    }
  }

  /** `_lex_edges` with the store's own deduplication; docs of another language are passed by. */
  method LayEdges(docs: seq<SynDoc>, lang: string) returns (table: seq<Entry>)
    ensures table == LaidAll(Entries(Spoken(docs, lang)))
  {
    table := [];
    for i := 0 to |docs|
      invariant table == LaidAll(Entries(Spoken(docs[..i], lang)))
    {
      assert docs[..i + 1][..i] == docs[..i];
      ghost var before := Spoken(docs[..i], lang);
      assert before + [] == before && (before + [docs[i]])[..|before|] == before;
      table := LayDoc(docs[i], lang, table, Entries(before));
    }
    assert docs[..|docs|] == docs;
  }

  /** No two entries share a surface and a synset: no synset lists one lemma in two cases. */
  predicate NoClash(es: seq<Entry>) {
    forall i, j :: 0 <= i < j < |es| ==> EdgeKey(es[i]) != EdgeKey(es[j])
  }

  /** Entry `i` is the first with its key. */
  predicate FirstWithKey(es: seq<Entry>, i: nat) {
    i < |es| && forall j :: 0 <= j < i ==> EdgeKey(es[j]) != EdgeKey(es[i])
  }

  /** Of a lemma that is not empty, and the first with its key. */
  ghost predicate IsLaid(es: seq<Entry>, e: Entry) {
    e.surface != "" && exists i: nat :: FirstWithKey(es, i) && es[i] == e
  }

  /** The edges laid are exactly those entries, one a key. */
  lemma {:induction false} LaidOnce(es: seq<Entry>)
    ensures NoClash(LaidAll(es))
    ensures forall e :: e in LaidAll(es) <==> IsLaid(es, e)
  {
    if es != [] {
      var init, last := es[..|es| - 1], es[|es| - 1];
      LaidOnce(init);
      FirstsOneMore(init, last);
      assert es == init + [last];
      if last.surface != "" {
        HeldKey(init, last);
        LayKeeps(LaidAll(init), last);
      }
    }
  }

  lemma LayKeeps(table: seq<Entry>, e: Entry)
    requires NoClash(table)
    ensures NoClash(Lay(table, e))
    ensures forall x :: x in Lay(table, e) <==> x in table || (x == e && !KeyHeld(table, e))
  {
  }

  ghost predicate KeyHeld(es: seq<Entry>, e: Entry) {
    exists i :: 0 <= i < |es| && EdgeKey(es[i]) == EdgeKey(e)
  }

  lemma FirstsOneMore(es: seq<Entry>, e: Entry)
    ensures forall x :: IsLaid(es + [e], x) <==> IsLaid(es, x) || (x == e && e.surface != "" && !KeyHeld(es, e))
  {
    var more := es + [e];
    assert forall j :: 0 <= j < |es| ==> more[j] == es[j];
    forall i: nat
      ensures i < |es| ==> (FirstWithKey(more, i) <==> FirstWithKey(es, i)) && more[i] == es[i]
    {
    }
    assert FirstWithKey(more, |es|) <==> !KeyHeld(es, e);
    assert more[|es|] == e;
    forall x
      ensures IsLaid(more, x) <==> IsLaid(es, x) || (x == e && e.surface != "" && !KeyHeld(es, e))
    {
      if i: nat :| FirstWithKey(more, i) && more[i] == x {
        assert i < |es| || i == |es|;
      }
      if i: nat :| FirstWithKey(es, i) && es[i] == x {
        assert FirstWithKey(more, i) && more[i] == x;
      }
    }
  }

  lemma {:induction false} FirstExists(es: seq<Entry>, k: nat) returns (i: nat)
    requires k < |es|
    ensures FirstWithKey(es, i) && EdgeKey(es[i]) == EdgeKey(es[k])
    decreases k
  {
    if j :| 0 <= j < k && EdgeKey(es[j]) == EdgeKey(es[k]) {
      i := FirstExists(es, j);
    } else {
      i := k;
    }
  }

  /** A key is held in the table exactly when some entry had it. */
  lemma HeldKey(es: seq<Entry>, e: Entry)
    requires e.surface != "" && forall x :: x in LaidAll(es) <==> IsLaid(es, x)
    ensures KeyHeld(LaidAll(es), e) <==> KeyHeld(es, e)
  {
    if k :| 0 <= k < |es| && EdgeKey(es[k]) == EdgeKey(e) {
      var i := FirstExists(es, k);
      assert IsLaid(es, es[i]);
      assert es[i] in LaidAll(es);
    }
    if k :| 0 <= k < |LaidAll(es)| && EdgeKey(LaidAll(es)[k]) == EdgeKey(e) {
      assert IsLaid(es, LaidAll(es)[k]);
    }
  }

  /** Where no lemma is empty and no synset lists one lemma in two cases, every entry is laid. */
  lemma {:induction false} AllLaid(es: seq<Entry>)
    requires NoClash(es) && forall e :: e in es ==> e.surface != ""
    ensures LaidAll(es) == es
  {
    if es != [] {
      var init := es[..|es| - 1];
      PrefixNoClash(init, [es[|es| - 1]]);
      assert init + [es[|es| - 1]] == es;
      AllLaid(init);
    }
  }

  lemma PrefixNoClash(es: seq<Entry>, fs: seq<Entry>)
    requires NoClash(es + fs)
    ensures NoClash(es)
  {
    var all := es + fs;
    assert forall i :: 0 <= i < |es| ==> all[i] == es[i];
  }

  // ---- docs of another language: the in-memory index reads them, the build does not ----

  predicate Lists(d: SynDoc, w: string, p: string) {
    d.pos == p && exists lm :: lm in d.lemmas && Surface(lm) == w
  }

  ghost predicate NoForeign(docs: seq<SynDoc>, lang: string, w: string, p: string) {
    forall d :: d in docs && !OfLanguage(d, lang) ==> !Lists(d, w, p)
  }

  lemma {:induction false} ItemsAppend(es: seq<Entry>, fs: seq<Entry>, w: string, p: string)
    ensures ItemsAt(es + fs, w, p) == ItemsAt(es, w, p) + ItemsAt(fs, w, p)
  {
    if fs == [] {
      assert es + fs == es;
    } else {
      assert (es + fs)[..|es + fs| - 1] == es + fs[..|fs| - 1];
      ItemsAppend(es, fs[..|fs| - 1], w, p);
    }
  }

  lemma {:induction false} DocItems(d: SynDoc, lemmas: seq<string>, w: string, p: string)
    ensures ItemsAt(DocEntries(d, lemmas), w, p) != [] <==> d.pos == p && exists lm :: lm in lemmas && Surface(lm) == w
  {
    if lemmas != [] {
      var init, lm := lemmas[..|lemmas| - 1], lemmas[|lemmas| - 1];
      DocItems(d, init, w, p);
      ItemsAppend(DocEntries(d, init), [EntryOf(d, lm)], w, p);
      assert forall x :: x in lemmas <==> x in init || x == lm;
    }
  }

  lemma {:induction false} ForeignItems(docs: seq<SynDoc>, lang: string, w: string, p: string)
    ensures var all, own := ItemsAt(Entries(docs), w, p), ItemsAt(Entries(Spoken(docs, lang)), w, p);
            if NoForeign(docs, lang, w, p) then all == own else |all| > |own|
  {
    if docs != [] {
      var init, d := docs[..|docs| - 1], docs[|docs| - 1];
      var own := Spoken(init, lang);
      ForeignItems(init, lang, w, p);
      ItemsAppend(Entries(init), DocEntries(d, d.lemmas), w, p);
      DocItems(d, d.lemmas, w, p);
      assert forall x :: x in docs <==> x in init || x == d;
      if OfLanguage(d, lang) {
        assert (own + [d])[..|own|] == own;
        ItemsAppend(Entries(own), DocEntries(d, d.lemmas), w, p);
      } else {
        assert own + [] == own;
      }
    }
  }

  /** A surface and part of speech stand for the same synsets in the docs of one language as in all of them exactly
      when no doc of another language lists that surface in that part of speech. */
  lemma ForeignExactly(docs: seq<SynDoc>, lang: string, w: string, p: string)
    ensures Senses(Entries(docs), w, p) == Senses(Entries(Spoken(docs, lang)), w, p) <==> NoForeign(docs, lang, w, p)
  {
    ForeignItems(docs, lang, w, p);
    SortLength(ITEM_ORDER, ItemsAt(Entries(docs), w, p));
    SortLength(ITEM_ORDER, ItemsAt(Entries(Spoken(docs, lang)), w, p));
  }

  datatype Key = Key(group: nat, item: Item)

  predicate KeyLe(a: Key, b: Key) {
    a.group < b.group || (a.group == b.group && ItemLe(a.item, b.item))
  }

  const KEY_ORDER: (Key, Key) -> bool := (a: Key, b: Key) => KeyLe(a, b)

  /** Where a part of speech stands in the spec's order; one it does not name comes after all of them. */
  function PosRank(order: seq<string>, p: string): nat {
    if order == [] then 0 else if order[0] == p then 0 else 1 + PosRank(order[1..], p)
  }

  /** The rows whose source is `lemma:<w>`. */
  function RowsAt(table: seq<Entry>, w: string): seq<Entry> {
    if table == [] then []
    else
      var e := table[|table| - 1];
      RowsAt(table[..|table| - 1], w) + if e.surface == w then [e] else []
  }

  /** A row's sort key, if it is of the part of speech asked for. */
  function KeyOf(order: seq<string>, pos: Option<string>): Entry -> Option<Key> {
    (e: Entry) => if pos == None || e.pos == pos.value then Some(Key(PosRank(order, e.pos), e.item)) else None
  }

  function KeyNames(keys: seq<Key>): (names: seq<string>)
    ensures |names| == |keys|
  {
    seq(|keys|, k requires 0 <= k < |keys| => keys[k].item.name)
  }

  datatype NoRank = RankUnavailable

  predicate AllUnranked(keys: seq<Key>) {
    keys != [] && forall k :: k in keys ==> k.item.rank == None
  }

  /** `_entry_names`: the rows come in whatever order the store gives them; without one rank among them there is no
      order to answer in. */
  function EntryNames(order: seq<string>, rows: seq<Entry>, pos: Option<string>): Result<seq<string>, NoRank> {
    var keys := Collect(KeyOf(order, pos), rows);
    if AllUnranked(keys) then Err(RankUnavailable) else Ok(KeyNames(SortBy(KEY_ORDER, keys)))
  }

  method ReadEntries(order: seq<string>, rows: seq<Entry>, pos: Option<string>) returns (r: Result<seq<string>, NoRank>)
    ensures r == EntryNames(order, rows, pos)
  {
    var out: seq<Key>, ranked := [], false;
    for i := 0 to |rows|
      invariant out == Collect(KeyOf(order, pos), rows[..i])
      invariant ranked <==> exists k :: k in out && k.item.rank.Some?
    {
      assert rows[..i + 1][..i] == rows[..i];
      var e := rows[i];
      if pos == None || e.pos == pos.value {
        out := out + [Key(PosRank(order, e.pos), e.item)];
        ranked := ranked || e.item.rank.Some?;
      }
    }
    assert rows[..|rows|] == rows;
    if out != [] && !ranked {
      return Err(RankUnavailable);
    }
    return Ok(KeyNames(SortBy(KEY_ORDER, out)));
  }

  // ---- the fast form answers what the simple form answers ----

  lemma ItemOrder()
    ensures TotalPreorder(ITEM_ORDER) && Antisymmetric(ITEM_ORDER)
  {
    forall a: Item, b: Item
      ensures ITEM_ORDER(a, b) || ITEM_ORDER(b, a)
      ensures ITEM_ORDER(a, b) && ITEM_ORDER(b, a) ==> a == b
    {
      StrLeTotal(a.name, b.name);
      if StrLe(a.name, b.name) && StrLe(b.name, a.name) {
        StrLeAntisym(a.name, b.name);
      }
    }
    forall a: Item, b: Item, c: Item | ITEM_ORDER(a, b) && ITEM_ORDER(b, c)
      ensures ITEM_ORDER(a, c)
    {
      if StrLe(a.name, b.name) && StrLe(b.name, c.name) {
        StrLeTrans(a.name, b.name, c.name);
      }
    }
  }

  lemma KeyOrder()
    ensures TotalPreorder(KEY_ORDER) && Antisymmetric(KEY_ORDER)
  {
    ItemOrder();
    forall a: Key, b: Key
      ensures KEY_ORDER(a, b) || KEY_ORDER(b, a)
      ensures KEY_ORDER(a, b) && KEY_ORDER(b, a) ==> a == b
    {
      assert ITEM_ORDER(a.item, b.item) || ITEM_ORDER(b.item, a.item);
    }
    forall a: Key, b: Key, c: Key | KEY_ORDER(a, b) && KEY_ORDER(b, c)
      ensures KEY_ORDER(a, c)
    {
      if ITEM_ORDER(a.item, b.item) && ITEM_ORDER(b.item, c.item) {
        assert ITEM_ORDER(a.item, c.item);
      }
    }
  }

  function Wrap(g: nat): Item -> Option<Key> {
    (i: Item) => Some(Key(g, i))
  }

  lemma {:induction false} WrapNames(g: nat, items: seq<Item>)
    ensures var keys := Collect(Wrap(g), items);
            && |keys| == |items| && KeyNames(keys) == NamesOf(items)
            && forall k :: 0 <= k < |keys| ==> keys[k] == Key(g, items[k])
  {
    if items != [] {
      WrapNames(g, items[..|items| - 1]);
    }
  }

  lemma {:induction false} RowsAreItems(order: seq<string>, es: seq<Entry>, w: string, p: string)
    ensures Collect(KeyOf(order, Some(p)), RowsAt(es, w)) == Collect(Wrap(PosRank(order, p)), ItemsAt(es, w, p))
  {
    if es != [] {
      var init, e := es[..|es| - 1], es[|es| - 1];
      var f, g := KeyOf(order, Some(p)), Wrap(PosRank(order, p));
      RowsAreItems(order, init, w, p);
      assert RowsAt(init, w) + [] == RowsAt(init, w) && ItemsAt(init, w, p) + [] == ItemsAt(init, w, p);
      if e.surface == w {
        CollectAppend(f, RowsAt(init, w), [e]);
        CollectOne(f, e);
      }
      if e.surface == w && e.pos == p {
        CollectAppend(g, ItemsAt(init, w, p), [e.item]);
        CollectOne(g, e.item);
      }
    }
  }

  /** One part of speech's senses, as sort keys in order. */
  function Group(order: seq<string>, es: seq<Entry>, w: string, p: string): seq<Key> {
    Collect(Wrap(PosRank(order, p)), SortBy(ITEM_ORDER, ItemsAt(es, w, p)))
  }

  function Groups(order: seq<string>, es: seq<Entry>, w: string, ps: seq<string>): seq<Key> {
    if ps == [] then [] else Group(order, es, w, ps[0]) + Groups(order, es, w, ps[1..])
  }

  /** The simple form's answer: the one list asked for, or every list in the order of the parts of speech. */
  function IndexNames(es: seq<Entry>, w: string, ps: seq<string>): seq<string> {
    if ps == [] then [] else Senses(es, w, ps[0]) + IndexNames(es, w, ps[1..])
  }

  lemma {:induction false} GroupNames(order: seq<string>, es: seq<Entry>, w: string, ps: seq<string>)
    ensures KeyNames(Groups(order, es, w, ps)) == IndexNames(es, w, ps)
  {
    if ps != [] {
      OneGroupNames(order, es, w, ps[0]);
      GroupNames(order, es, w, ps[1..]);
      KeyNamesAppend(Group(order, es, w, ps[0]), Groups(order, es, w, ps[1..]));
    }
  }

  lemma OneGroupNames(order: seq<string>, es: seq<Entry>, w: string, p: string)
    ensures KeyNames(Group(order, es, w, p)) == Senses(es, w, p)
  {
    WrapNames(PosRank(order, p), SortBy(ITEM_ORDER, ItemsAt(es, w, p)));
  }

  lemma KeyNamesAppend(g: seq<Key>, rest: seq<Key>)
    ensures KeyNames(g + rest) == KeyNames(g) + KeyNames(rest)
  {
  }

  lemma GroupFacts(order: seq<string>, es: seq<Entry>, w: string, p: string)
    ensures Sorted(KEY_ORDER, Group(order, es, w, p))
    ensures forall k :: k in Group(order, es, w, p) ==> k.group == PosRank(order, p)
    ensures multiset(Group(order, es, w, p)) == multiset(Collect(KeyOf(order, Some(p)), RowsAt(es, w)))
  {
    var items := ItemsAt(es, w, p);
    ItemOrder();
    SortSorts(ITEM_ORDER, items);
    WrapNames(PosRank(order, p), SortBy(ITEM_ORDER, items));
    CollectMultiset(Wrap(PosRank(order, p)), SortBy(ITEM_ORDER, items), items);
    RowsAreItems(order, es, w, p);
    var keys, sorted := Group(order, es, w, p), SortBy(ITEM_ORDER, items);
    forall i, j | 0 <= i < j < |keys|
      ensures KEY_ORDER(keys[i], keys[j])
    {
      assert ITEM_ORDER(sorted[i], sorted[j]);
    }
  }

  function KeyIn(order: seq<string>, ps: seq<string>): Entry -> Option<Key> {
    (e: Entry) => if e.pos in ps then Some(Key(PosRank(order, e.pos), e.item)) else None
  }

  lemma {:induction false} GroupsMultiset(order: seq<string>, es: seq<Entry>, w: string, ps: seq<string>)
    requires Distinct(ps)
    ensures multiset(Groups(order, es, w, ps)) == multiset(Collect(KeyIn(order, ps), RowsAt(es, w)))
  {
    var rows := RowsAt(es, w);
    if ps == [] {
      NoneCollected(KeyIn(order, ps), rows);
    } else {
      DistinctTail(ps);
      GroupFacts(order, es, w, ps[0]);
      GroupsMultiset(order, es, w, ps[1..]);
      CollectSplit(KeyIn(order, ps), KeyOf(order, Some(ps[0])), KeyIn(order, ps[1..]), rows);
    }
  }

  lemma {:induction false} NoneCollected(f: Entry -> Option<Key>, rows: seq<Entry>)
    requires forall e :: f(e) == None
    ensures Collect(f, rows) == []
  {
    if rows != [] {
      NoneCollected(f, rows[..|rows| - 1]);
    }
  }

  lemma {:induction false} PosRankInOrder(order: seq<string>, i: nat)
    requires Distinct(order) && i < |order|
    ensures PosRank(order, order[i]) == i
  {
    if i > 0 {
      DistinctTail(order);
      PosRankInOrder(order[1..], i - 1);
    }
  }

  lemma {:induction false} GroupsSorted(order: seq<string>, es: seq<Entry>, w: string, i: nat)
    requires Distinct(order) && i <= |order|
    ensures Sorted(KEY_ORDER, Groups(order, es, w, order[i..]))
    ensures forall k :: k in Groups(order, es, w, order[i..]) ==> i <= k.group
    decreases |order| - i
  {
    if i < |order| {
      GroupsSorted(order, es, w, i + 1);
      GroupFacts(order, es, w, order[i]);
      PosRankInOrder(order, i);
      assert order[i..][1..] == order[i + 1..];
      SortedJoin(Group(order, es, w, order[i]), Groups(order, es, w, order[i + 1..]), i);
    }
  }

  lemma SortedJoin(s: seq<Key>, t: seq<Key>, i: nat)
    requires Sorted(KEY_ORDER, s) && Sorted(KEY_ORDER, t)
    requires (forall k :: k in s ==> k.group == i) && forall k :: k in t ==> i + 1 <= k.group
    ensures Sorted(KEY_ORDER, s + t)
    ensures forall k :: k in s + t ==> i <= k.group
  {
    var u := s + t;
    forall j, k | 0 <= j < k < |u|
      ensures KEY_ORDER(u[j], u[k])
    {
      if j < |s| <= k {
        assert u[j] in s && u[k] in t;
      }
    }
  }

  predicate KnownPos(order: seq<string>, es: seq<Entry>) {
    forall e :: e in es ==> e.pos in order
  }

  lemma {:induction false} RowsKnown(order: seq<string>, es: seq<Entry>, w: string)
    requires KnownPos(order, es)
    ensures KnownPos(order, RowsAt(es, w))
  {
    if es != [] {
      RowsKnown(order, es[..|es| - 1], w);
    }
  }

  /** The parts of speech a query ranges over. */
  function Asked(order: seq<string>, pos: Option<string>): seq<string> {
    if pos == None then order else [pos.value]
  }

  lemma GroupsAreRows(order: seq<string>, es: seq<Entry>, w: string, pos: Option<string>)
    requires Distinct(order) && KnownPos(order, es)
    ensures Sorted(KEY_ORDER, Groups(order, es, w, Asked(order, pos)))
    ensures multiset(Groups(order, es, w, Asked(order, pos))) == multiset(Collect(KeyOf(order, pos), RowsAt(es, w)))
  {
    if pos == None {
      GroupsMultiset(order, es, w, order);
      RowsKnown(order, es, w);
      CollectAgree(KeyOf(order, None), KeyIn(order, order), RowsAt(es, w));
      GroupsSorted(order, es, w, 0);
      assert order[0..] == order;
    } else {
      GroupFacts(order, es, w, pos.value);
      var p := [pos.value];
      assert p[1..] == [];
      assert Groups(order, es, w, p) == Group(order, es, w, pos.value) + [];
    }
  }

  lemma SortedNames(got: seq<Key>, keys: seq<Key>)
    requires multiset(got) == multiset(keys) && Sorted(KEY_ORDER, keys)
    ensures SortBy(KEY_ORDER, got) == keys
  {
    KeyOrder();
    SortSorts(KEY_ORDER, got);
    SortedIsUnique(KEY_ORDER, SortBy(KEY_ORDER, got), keys);
  }

  /** Sorting the rows by (part of speech, proper, rank, name) gives the index's lists end to end, unless no row
      carries a rank, and then nothing is answered. */
  lemma KeyedRefinesIndex(order: seq<string>, es: seq<Entry>, rows: seq<Entry>, w: string, pos: Option<string>)
    requires Distinct(order) && KnownPos(order, es) && multiset(rows) == multiset(RowsAt(es, w))
    ensures EntryNames(order, rows, pos) ==
              if AllUnranked(Collect(KeyOf(order, pos), RowsAt(es, w))) then Err(RankUnavailable)
              else Ok(IndexNames(es, w, Asked(order, pos)))
  {
    var got := Collect(KeyOf(order, pos), rows);
    CollectMultiset(KeyOf(order, pos), rows, RowsAt(es, w));
    UnrankedAlike(got, Collect(KeyOf(order, pos), RowsAt(es, w)));
    GroupsAreRows(order, es, w, pos);
    SortedNames(got, Groups(order, es, w, Asked(order, pos)));
    GroupNames(order, es, w, Asked(order, pos));
  }

  lemma UnrankedAlike(s: seq<Key>, t: seq<Key>)
    requires multiset(s) == multiset(t)
    ensures AllUnranked(s) <==> AllUnranked(t)
  {
    assert |multiset(s)| == |multiset(t)|;
    forall k
      ensures k in s <==> k in t
    {
      assert k in multiset(s) <==> k in multiset(t);
    }
  }
}
