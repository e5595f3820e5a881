/** The senses of a word, told by the docs that list it. */
module WordSenses {
  import opened Outcomes
  import opened Names
  import opened Sorting
  import opened Lexicon

  predicate HasUpper(s: string) {
    exists k :: 0 <= k < |s| && 'A' <= s[k] <= 'Z'
  }

  /** The same word but for the case of its letters. */
  predicate SameWord(a: string, b: string) {
    |a| == |b| && forall k :: 0 <= k < |a| ==> SameLetter(a[k], b[k])
  }

  predicate SameLetter(a: char, b: char) {
    || a == b
    || ('A' <= a <= 'Z' && b as int == a as int + 32)
    || ('A' <= b <= 'Z' && a as int == b as int + 32)
  }

  /** `w` is the lower-case form of `lm`, with its blanks written as underscores. */
  predicate Spells(lm: string, w: string) {
    |w| == |lm| && !HasUpper(w)
    && forall k :: 0 <= k < |lm| ==> if lm[k] == ' ' then w[k] == '_' else SameLetter(lm[k], w[k])
  }

  lemma SurfaceSpells(lm: string, w: string)
    ensures Surface(lm) == w <==> Spells(lm, w)
  {
    assert !HasUpper(Surface(lm));
  }

  lemma SameWordByCase(a: string, b: string)
    ensures Lower(a) == Lower(b) <==> SameWord(a, b)
  {
    if Lower(a) == Lower(b) {
      forall k | 0 <= k < |a|
        ensures SameLetter(a[k], b[k])
      {
        assert Lower(a)[k] == Lower(b)[k];
      }
    }
  }

  lemma UpperIsLowered(s: string)
    ensures s != Lower(s) <==> HasUpper(s)
  {
    if k :| 0 <= k < |s| && 'A' <= s[k] <= 'Z' {
      assert Lower(s)[k] != s[k];
    }
  }

  predicate LastFiled(ranks: seq<(string, Option<real>)>, lm: string, i: nat) {
    && i < |ranks| && SameWord(ranks[i].0, lm) && forall j :: i < j < |ranks| ==> !SameWord(ranks[j].0, lm)
  }

  /** How a doc writes a lemma and ranks it: as it last files that word, else as the lemma stands and without a rank. */
  ghost predicate FiledAs(ranks: seq<(string, Option<real>)>, lm: string, f: (string, Option<real>)) {
    || (exists i: nat :: LastFiled(ranks, lm, i) && f == ranks[i])
    || (f == (lm, None) && NotFiled(ranks, lm))
  }

  predicate NotFiled(ranks: seq<(string, Option<real>)>, lm: string) {
    forall i :: 0 <= i < |ranks| ==> !SameWord(ranks[i].0, lm)
  }

  lemma {:induction false} FiledIs(ranks: seq<(string, Option<real>)>, lm: string)
    ensures FiledAs(ranks, lm, Filed(ranks, lm))
  {
    if ranks != [] {
      var init, last := ranks[..|ranks| - 1], ranks[|ranks| - 1];
      SameWordByCase(last.0, lm);
      if SameWord(last.0, lm) {
        assert LastFiled(ranks, lm, |init|);
      } else {
        FiledIs(init, lm);
        FiledBefore(ranks, lm, Filed(init, lm));
      }
    }
  }

  lemma FiledBefore(ranks: seq<(string, Option<real>)>, lm: string, f: (string, Option<real>))
    requires ranks != [] && !SameWord(ranks[|ranks| - 1].0, lm) && FiledAs(ranks[..|ranks| - 1], lm, f)
    ensures FiledAs(ranks, lm, f)
  {
    var init := ranks[..|ranks| - 1];
    assert forall j :: 0 <= j < |init| ==> init[j] == ranks[j];
    if i: nat :| LastFiled(init, lm, i) && f == init[i] {
      assert LastFiled(ranks, lm, i);
    } else {
      assert NotFiled(ranks, lm);
    }
  }

  lemma FiledOnce(ranks: seq<(string, Option<real>)>, lm: string, f: (string, Option<real>), g: (string, Option<real>))
    requires FiledAs(ranks, lm, f) && FiledAs(ranks, lm, g)
    ensures f == g
  {
  }

  /** One sense: `d` lists a lemma spelt `w` in part of speech `p`. */
  ghost predicate SenseOf(d: SynDoc, lm: string, w: string, p: string, item: Item) {
    && lm in d.lemmas && d.pos == p && Spells(lm, w) && item.name == d.name
    && exists f :: FiledAs(d.ranks, lm, f) && item.rank == f.1 && item.proper == if HasUpper(f.0) then 1 else 0
  }

  lemma EntrySense(d: SynDoc, lm: string, w: string, p: string, item: Item)
    requires lm in d.lemmas
    ensures EntryOf(d, lm) == Entry(w, p, item) <==> SenseOf(d, lm, w, p, item)
  {
    var f := Filed(d.ranks, lm);
    FiledIs(d.ranks, lm);
    SurfaceSpells(lm, w);
    UpperIsLowered(f.0);
    if g :| FiledAs(d.ranks, lm, g) && item.rank == g.1 && item.proper == if HasUpper(g.0) then 1 else 0 {
      FiledOnce(d.ranks, lm, f, g);
    }
  }

  lemma {:induction false} DocEntriesAre(d: SynDoc, lemmas: seq<string>, e: Entry)
    ensures e in DocEntries(d, lemmas) <==> exists lm :: lm in lemmas && EntryOf(d, lm) == e
  {
    if lemmas != [] {
      var init, last := lemmas[..|lemmas| - 1], lemmas[|lemmas| - 1];
      DocEntriesAre(d, init, e);
      assert forall lm :: lm in lemmas <==> lm in init || lm == last;
    }
  }

  lemma {:induction false} EntriesAre(docs: seq<SynDoc>, e: Entry)
    ensures e in Entries(docs) <==> exists d, lm :: d in docs && lm in d.lemmas && EntryOf(d, lm) == e
  {
    if docs != [] {
      var init, last := docs[..|docs| - 1], docs[|docs| - 1];
      EntriesAre(init, e);
      DocEntriesAre(last, last.lemmas, e);
      assert forall d :: d in docs <==> d in init || d == last;
    }
  }

  lemma {:induction false} ItemsAre(es: seq<Entry>, w: string, p: string, item: Item)
    ensures item in ItemsAt(es, w, p) <==> Entry(w, p, item) in es
  {
    if es != [] {
      var init, e := es[..|es| - 1], es[|es| - 1];
      ItemsAre(init, w, p, item);
      assert forall f :: f in es <==> f in init || f == e;
    }
  }

  /** Common before proper; then by rank, the unranked last; then by name. */
  ghost predicate InOrder(a: Item, b: Item) {
    && (b.proper == 0 ==> a.proper == 0)
    && (a.proper == b.proper && a.rank == None ==> b.rank == None)
    && (a.proper == b.proper && a.rank.Some? && b.rank.Some? ==> a.rank.value <= b.rank.value)
    && (a.proper == b.proper && a.rank == b.rank ==> exists k: nat :: SortsAt(a.name, b.name, k))
  }

  ghost predicate Meant(docs: seq<SynDoc>, w: string, p: string, item: Item) {
    exists d, lm :: d in docs && SenseOf(d, lm, w, p, item)
  }

  lemma ItemsAreMeant(docs: seq<SynDoc>, w: string, p: string, item: Item)
    ensures item in ItemsAt(Entries(docs), w, p) <==> Meant(docs, w, p, item)
  {
    ItemsAre(Entries(docs), w, p, item);
    EntriesAre(docs, Entry(w, p, item));
    forall d, lm | d in docs && lm in d.lemmas
      ensures EntryOf(d, lm) == Entry(w, p, item) <==> SenseOf(d, lm, w, p, item)
    {
      EntrySense(d, lm, w, p, item);
    }
  }

  ghost predicate AllInOrder(items: seq<Item>) {
    forall i, j :: 0 <= i < j < |items| ==> InOrder(items[i], items[j])
  }

  lemma SortedIsInOrder(items: seq<Item>)
    requires Sorted(ITEM_ORDER, items) && forall k :: 0 <= k < |items| ==> items[k].proper <= 1
    ensures AllInOrder(items)
  {
    forall i, j | 0 <= i < j < |items|
      ensures InOrder(items[i], items[j])
    {
      assert ITEM_ORDER(items[i], items[j]);
      ItemLeIsInOrder(items[i], items[j]);
    }
  }

  /** The senses of a word are exactly those its docs list, in that order. */
  lemma SensesExactly(docs: seq<SynDoc>, w: string, p: string) returns (items: seq<Item>)
    ensures Senses(Entries(docs), w, p) == NamesOf(items) && AllInOrder(items)
    ensures forall item :: item in items <==> Meant(docs, w, p, item)
  {
    var all := ItemsAt(Entries(docs), w, p);
    items := SortBy(ITEM_ORDER, all);
    ItemOrder();
    SortSorts(ITEM_ORDER, all);
    forall item
      ensures item in items <==> Meant(docs, w, p, item)
    {
      assert item in items <==> item in multiset(items);
      ItemsAreMeant(docs, w, p, item);
    }
    forall k | 0 <= k < |items|
      ensures items[k].proper <= 1
    {
      assert Meant(docs, w, p, items[k]);
    }
    SortedIsInOrder(items);
  }

  /** A word has senses exactly where some doc lists it. */
  lemma HasSenses(docs: seq<SynDoc>, w: string, p: string)
    ensures Senses(Entries(docs), w, p) != [] <==> exists d :: d in docs && Lists(d, w, p)
  {
    var items := SensesExactly(docs, w, p);
    if items != [] {
      assert Meant(docs, w, p, items[0]);
      var d, lm :| d in docs && SenseOf(d, lm, w, p, items[0]);
      SurfaceSpells(lm, w);
      assert Lists(d, w, p);
    }
    if d :| d in docs && Lists(d, w, p) {
      var lm :| lm in d.lemmas && Surface(lm) == w;
      var item := EntryOf(d, lm).item;
      EntrySense(d, lm, w, p, item);
      assert Meant(docs, w, p, item);
    }
  }

  lemma ItemLeIsInOrder(a: Item, b: Item)
    requires ItemLe(a, b) && a.proper <= 1 && b.proper <= 1
    ensures InOrder(a, b)
  {
    StrLeByCode(a.name, b.name);
  }
}
