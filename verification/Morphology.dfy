/** `synsets` and `morphy` on both paths. */
module Morphology {
  import opened Outcomes
  import opened Sums
  import opened Sorting
  import opened Lexicon

  // ---- detachment rules ----

  function Rules(p: string): seq<(string, string)> {
    if p == "n" then [("s", ""), ("ses", "s"), ("xes", "x"), ("zes", "z"), ("ches", "ch"), ("shes", "sh"),
                      ("men", "man"), ("ies", "y")]
    else if p == "v" then [("s", ""), ("ies", "y"), ("es", "e"), ("es", ""), ("ed", "e"), ("ed", ""),
                           ("ing", "e"), ("ing", "")]
    else if p == "a" then [("er", ""), ("est", ""), ("er", "e"), ("est", "e")]
    else []
  }

  predicate HasRules(p: string) {
    p == "n" || p == "v" || p == "a" || p == "r"
  }

  function Ruled(order: seq<string>): seq<string> {
    if order == [] then [] else (if HasRules(order[0]) then [order[0]] else []) + Ruled(order[1..])
  }

  function PartsToTry(order: seq<string>, pos: Option<string>): seq<string> {
    if pos.Some? && pos.value != "" then [pos.value] else Ruled(order)
  }

  predicate EndsWith(w: string, suffix: string) {
    |suffix| <= |w| && w[|w| - |suffix|..] == suffix
  }

  function Detach(w: string, rule: (string, string)): string
    requires EndsWith(w, rule.0)
  {
    w[..|w| - |rule.0|] + rule.1
  }

  // ---- irregular forms: each doc's, as (form, part of speech, base) ----

  type Irregular = (string, string, string)

  function FormsOf(pos: string, base: string, fs: seq<string>): seq<Irregular> {
    if fs == [] then [] else [(Surface(fs[0]), pos, Surface(base))] + FormsOf(pos, base, fs[1..])
  }

  function DocForms(d: SynDoc, forms: seq<(string, seq<string>)>): seq<Irregular> {
    if forms == [] then [] else FormsOf(d.pos, forms[0].0, forms[0].1) + DocForms(d, forms[1..])
  }

  function Irregulars(docs: seq<SynDoc>): seq<Irregular> {
    if docs == [] then []
    else
      var d := docs[|docs| - 1];
      Irregulars(docs[..|docs| - 1]) + DocForms(d, d.forms)
  }

  /** The index keeps the first base of a form and part of speech. */
  method LoadExceptions(docs: seq<SynDoc>) returns (exc: map<(string, string), string>)
    ensures forall f, p :: Lookup(exc, (f, p)) == FirstBase(Irregulars(docs), f, p)
  {
    exc := map[];
    var all := Irregulars(docs);
    for i := 0 to |all|
      invariant forall f, p :: Lookup(exc, (f, p)) == FirstBase(all[..i], f, p)
    {
      var (form, pos, base) := all[i];
      FirstBaseAppend(all[..i], all[i]);
      assert all[..i + 1] == all[..i] + [all[i]];
      if (form, pos) !in exc {
        exc := exc[(form, pos) := base];
      }
    }
    assert all[..|all|] == all;
  }

  /**
   * The build keeps the last, under the form and part of speech joined by a bar; docs of another language are passed
   * by.
   */
  method BuildExceptions(docs: seq<SynDoc>, lang: string) returns (exc: map<string, string>)
    ensures forall k :: Lookup(exc, k) == LastBase(Irregulars(Spoken(docs, lang)), k)
  {
    exc := map[];
    for i := 0 to |docs|
      invariant forall k :: Lookup(exc, k) == LastBase(Irregulars(Spoken(docs[..i], lang)), k)
    {
      ghost var before := Spoken(docs[..i], lang);
      assert before + [] == before;
      var d := docs[i];
      assert docs[..i + 1][..i] == docs[..i];
      if OfLanguage(d, lang) {
        assert (before + [d])[..|before|] == before;
        exc := FileForms(DocForms(d, d.forms), exc, Irregulars(before));
      }
    }
    assert docs[..|docs|] == docs;
  }

  method FileForms(forms: seq<Irregular>, filed: map<string, string>, ghost before: seq<Irregular>)
    returns (exc: map<string, string>)
    requires forall k :: Lookup(filed, k) == LastBase(before, k)
    ensures forall k :: Lookup(exc, k) == LastBase(before + forms, k)
  {
    exc := filed;
    assert before + forms[..0] == before;
    for i := 0 to |forms|
      invariant forall k :: Lookup(exc, k) == LastBase(before + forms[..i], k)
    {
      ghost var now := before + forms[..i];
      assert before + forms[..i + 1] == now + [forms[i]];
      assert (now + [forms[i]])[..|now|] == now;
      exc := exc[Joined(forms[i].0, forms[i].1) := forms[i].2];
    }
    assert before + forms[..|forms|] == before + forms;
  }

  function Lookup<K, V>(m: map<K, V>, k: K): Option<V> {
    if k in m then Some(m[k]) else None
  }

  function Joined(f: string, p: string): string {
    f + "|" + p
  }

  function FirstBase(all: seq<Irregular>, f: string, p: string): Option<string> {
    if all == [] then None
    else if all[0].0 == f && all[0].1 == p then Some(all[0].2)
    else FirstBase(all[1..], f, p)
  }

  function LastBase(all: seq<Irregular>, k: string): Option<string> {
    if all == [] then None
    else
      var last := all[|all| - 1];
      if Joined(last.0, last.1) == k then Some(last.2) else LastBase(all[..|all| - 1], k)
  }

  lemma {:induction false} FirstBaseAppend(all: seq<Irregular>, x: Irregular)
    ensures forall f, p :: FirstBase(all + [x], f, p) ==
              if FirstBase(all, f, p) == None && x.0 == f && x.1 == p then Some(x.2) else FirstBase(all, f, p)
  {
    if all == [] {
      assert [x][1..] == [];
    } else {
      FirstBaseAppend(all[1..], x);
      assert (all + [x])[1..] == all[1..] + [x];
    }
  }

  // ---- what the source data must be for the two tables of exceptions to agree ----

  ghost predicate OneBase(all: seq<Irregular>) {
    forall x, y :: x in all && y in all && x.0 == y.0 && x.1 == y.1 ==> x.2 == y.2
  }

  predicate NoBar(s: string) {
    '|' !in s
  }

  lemma JoinedInjective(f: string, p: string, g: string, q: string)
    requires NoBar(f) && NoBar(g)
    ensures Joined(f, p) == Joined(g, q) <==> f == g && p == q
  {
    var s, t := Joined(f, p), Joined(g, q);
    assert s[|f|] == '|' && t[|g|] == '|';
    if s == t {
      assert |f| == |g|;
      assert f == s[..|f|] && g == t[..|g|];
      assert p == s[|f| + 1..] && q == t[|g| + 1..];
    }
  }

  lemma {:induction false} BaseFound(all: seq<Irregular>, f: string, p: string)
    ensures FirstBase(all, f, p).Some? ==> (f, p, FirstBase(all, f, p).value) in all
    ensures FirstBase(all, f, p) == None ==> forall x :: x in all ==> x.0 != f || x.1 != p
  {
    if all != [] {
      BaseFound(all[1..], f, p);
    }
  }

  lemma {:induction false} LastBaseFound(all: seq<Irregular>, k: string)
    ensures LastBase(all, k).Some? ==> exists x :: x in all && Joined(x.0, x.1) == k && x.2 == LastBase(all, k).value
    ensures LastBase(all, k) == None ==> forall x :: x in all ==> Joined(x.0, x.1) != k
  {
    if all != [] {
      LastBaseFound(all[..|all| - 1], k);
    }
  }

  /** No other irregular is filed under what the query is looked up by: joined to the part of speech, or bare. */
  ghost predicate ClearAt(all: seq<Irregular>, w: string, p: string) {
    forall x :: x in all ==> Joined(x.0, x.1) != w && (Joined(x.0, x.1) == Joined(w, p) ==> x.0 == w && x.1 == p)
  }

  ghost predicate Clear(all: seq<Irregular>, w: string, ps: seq<string>) {
    forall p :: p in ps ==> ClearAt(all, w, p)
  }

  /**
   * With one base a form the two tables answer alike for every query that is clear, bars in forms or queries or not.
   */
  lemma ExceptionsAgree(all: seq<Irregular>, w: string, p: string)
    requires OneBase(all) && ClearAt(all, w, p)
    ensures LastBase(all, Joined(w, p)) == FirstBase(all, w, p)
    ensures LastBase(all, w) == None
  {
    BaseFound(all, w, p);
    LastBaseFound(all, Joined(w, p));
    LastBaseFound(all, w);
    if LastBase(all, Joined(w, p)).Some? && FirstBase(all, w, p).Some? {
      assert (w, p, FirstBase(all, w, p).value) in all;
    }
    if FirstBase(all, w, p).Some? {
      assert (w, p, FirstBase(all, w, p).value) in all;
    }
  }

  /** What the keyed path looks up: the form and part of speech joined, else the bare form. */
  function KeyedBase(all: seq<Irregular>, w: string, p: string): Option<string> {
    if Usable(LastBase(all, Joined(w, p))).Some? then LastBase(all, Joined(w, p)) else LastBase(all, w)
  }

  /** An empty base counts as none. */
  function Usable(base: Option<string>): Option<string> {
    if base == Some("") then None else base
  }

  /** Where no form has a bar in it and no base is empty, that is exactly when they do. */
  lemma ExceptionsAgreeExactly(all: seq<Irregular>, w: string, p: string)
    requires OneBase(all) && forall x :: x in all ==> NoBar(x.0) && x.2 != ""
    ensures Usable(KeyedBase(all, w, p)) == Usable(FirstBase(all, w, p)) <==> ClearAt(all, w, p)
  {
    BaseFound(all, w, p);
    LastBaseFound(all, Joined(w, p));
    LastBaseFound(all, w);
    if ClearAt(all, w, p) {
      ExceptionsAgree(all, w, p);
    } else {
      var x :| x in all && (Joined(x.0, x.1) == w || (Joined(x.0, x.1) == Joined(w, p) && !(x.0 == w && x.1 == p)));
      assert Joined(x.0, x.1)[|x.0|] == '|';
      if NoBar(w) {
        JoinedInjective(x.0, x.1, w, p);
      } else {
        assert FirstBase(all, w, p) == None;
        assert Usable(KeyedBase(all, w, p)).Some?;
      }
    }
  }

  function FromKeyed(all: seq<Irregular>): (string, string) -> Option<string> {
    (w: string, p: string) => KeyedBase(all, w, p)
  }

  function FromIndex(all: seq<Irregular>): (string, string) -> Option<string> {
    (w: string, p: string) => FirstBase(all, w, p)
  }

  lemma TriesOfOne(known: Known, irregular: (string, string) -> Option<string>, w: string, p: string)
    requires known(w, p) == Ok(false) && TryRules(known, w, p, Rules(p)) == Ok(None) && Surface(w) == w
    ensures irregular(w, p) == None ==> Morphy(known, irregular, w, [p]) == Ok(None)
    ensures irregular(w, p).Some? && irregular(w, p).value != "" && known(irregular(w, p).value, p) == Ok(true) ==>
              Morphy(known, irregular, w, [p]) == Ok(irregular(w, p))
  {
    assert [p][1..] == [];
    assert TryWord(known, w, [p]) == Ok(None);
    assert TryAllRules(known, w, [p]) == Ok(None);
    assert irregular(w, p) == None ==> TryIrregular(known, irregular, w, [p]) == Ok(None);
  }

  /**
   * An unknown query that is some irregular's form, a bar and its part of speech is that irregular on the keyed path,
   * and nothing in memory.
   */
  lemma KeyedTakesBars(known: Known, f: string, p: string, base: string)
    requires NoBar(f) && base != "" && Surface(Joined(f, p)) == Joined(f, p)
    requires known(Joined(f, p), p) == Ok(false) && known(base, p) == Ok(true)
    requires TryRules(known, Joined(f, p), p, Rules(p)) == Ok(None)
    ensures var all := [(f, p, base)]; var w := Joined(f, p);
            && !ClearAt(all, w, p)
            && Morphy(known, FromKeyed(all), w, [p]) == Ok(Some(base))
            && Morphy(known, FromIndex(all), w, [p]) == Ok(None)
  {
    var all, w, x := [(f, p, base)], Joined(f, p), (f, p, base);
    assert x in all && all[0] == x;
    assert |Joined(w, p)| > |w| > |f|;
    assert LastBase(all, w) == Some(base);
    assert all[..0] == [] && all[1..] == [];
    assert LastBase(all, Joined(w, p)) == None;
    assert FirstBase(all, w, p) == None;
    TriesOfOne(known, FromKeyed(all), w, p);
    TriesOfOne(known, FromIndex(all), w, p);
  }

  lemma BarSurface(f: string, w: string)
    requires f == "went" && w == "went|v"
    ensures Joined(f, "v") == w && Surface(w) == w && NoBar(f) && w != "go"
  {
  }

  /** For instance "went|v", which comes out as "go". */
  lemma BarMisleads(known: Known)
    requires known("went|v", "v") == Ok(false) && known("go", "v") == Ok(true)
    ensures var all := [("went", "v", "go")];
            && Morphy(known, FromKeyed(all), "went|v", ["v"]) == Ok(Some("go"))
            && Morphy(known, FromIndex(all), "went|v", ["v"]) == Ok(None)
  {
    var f, w := "went", "went|v";
    BarSurface(f, w);
    NoRuleFits(known, w);
    KeyedTakesBars(known, f, "v", "go");
  }

  lemma NoRuleFits(known: Known, w: string)
    requires w == "went|v"
    ensures TryRules(known, w, "v", Rules("v")) == Ok(None)
  {
    var rules := Rules("v");
    assert w[|w| - 1] == 'v';
    forall r | r in rules
      ensures r.0 != "" && !EndsWith(w, r.0)
    {
      assert r.0[|r.0| - 1] != 'v';
    }
    NoneFits(known, w, "v", rules);
  }

  lemma {:induction false} NoneFits(known: Known, w: string, p: string, rules: seq<(string, string)>)
    requires forall r :: r in rules ==> !EndsWith(w, r.0)
    ensures TryRules(known, w, p, rules) == Ok(None)
  {
    if rules != [] {
      assert rules[0] in rules;
      NoneFits(known, w, p, rules[1..]);
    }
  }

  // ---- morphy: a known word, else the source's irregulars, else the rules; every candidate must be known ----

  type Known = (string, string) -> Result<bool, NoRank>

  function TryWord(known: Known, w: string, ps: seq<string>): Result<Option<string>, NoRank> {
    if ps == [] then Ok(None)
    else match known(w, ps[0])
      case Err(e) => Err(e)
      case Ok(yes) => if yes then Ok(Some(w)) else TryWord(known, w, ps[1..])
  }

  function TryIrregular(known: Known, irregular: (string, string) -> Option<string>, w: string, ps: seq<string>)
    : Result<Option<string>, NoRank>
  {
    if ps == [] then Ok(None)
    else
      var base := irregular(w, ps[0]);
      if base == None || base.value == "" then TryIrregular(known, irregular, w, ps[1..])
      else match known(base.value, ps[0])
        case Err(e) => Err(e)
        case Ok(yes) => if yes then Ok(base) else TryIrregular(known, irregular, w, ps[1..])
  }

  function TryRules(known: Known, w: string, p: string, rules: seq<(string, string)>): Result<Option<string>, NoRank> {
    if rules == [] then Ok(None)
    else if rules[0].0 == "" || !EndsWith(w, rules[0].0) then TryRules(known, w, p, rules[1..])
    else
      var cand := Detach(w, rules[0]);
      match known(cand, p)
      case Err(e) => Err(e)
      case Ok(yes) => if yes then Ok(Some(cand)) else TryRules(known, w, p, rules[1..])
  }

  function TryAllRules(known: Known, w: string, ps: seq<string>): Result<Option<string>, NoRank> {
    if ps == [] then Ok(None)
    else
      var r := TryRules(known, w, ps[0], Rules(ps[0]));
      if r == Ok(None) then TryAllRules(known, w, ps[1..]) else r
  }

  function Morphy(known: Known, irregular: (string, string) -> Option<string>, word: string, ps: seq<string>)
    : Result<Option<string>, NoRank>
  {
    var w := Surface(word);
    var asIs := TryWord(known, w, ps);
    if asIs != Ok(None) then asIs
    else
      var listed := TryIrregular(known, irregular, w, ps);
      if listed != Ok(None) then listed else TryAllRules(known, w, ps)
  }

  /** The names a word and part of speech stand for, and the base form's where the word itself has none. */
  function Synsets(names: (string, Option<string>) -> Result<seq<string>, NoRank>, known: Known,
                   irregular: (string, string) -> Option<string>, order: seq<string>, word: string, pos: Option<string>)
    : Result<seq<string>, NoRank>
  {
    var w := Surface(word);
    if names(w, pos) != Ok([]) then names(w, pos)
    else match Morphy(known, irregular, w, PartsToTry(order, pos))
      case Err(e) => Err(e)
      case Ok(base) => if base.Some? && base.value != "" && base.value != w then names(base.value, pos) else Ok([])
  }

  // ---- the keyed path and the in-memory path ----

  type RowsOf = string -> seq<Entry>

  function KeyedNames(order: seq<string>, rowsOf: RowsOf): (string, Option<string>) -> Result<seq<string>, NoRank> {
    (w: string, pos: Option<string>) => EntryNames(order, rowsOf(w), pos)
  }

  function KeyedKnown(order: seq<string>, rowsOf: RowsOf): Known {
    (w: string, p: string) => match EntryNames(order, rowsOf(w), Some(p))
      case Err(e) => Err(e)
      case Ok(names) => Ok(names != [])
  }

  function KeyedIrregular(exc: map<string, string>): (string, string) -> Option<string> {
    (w: string, p: string) =>
      var base := Lookup(exc, Joined(w, p));
      if base.Some? && base.value != "" then base else Lookup(exc, w)
  }

  type Senses = map<(string, string), seq<string>>

  function AllParts(index: Senses, w: string, ps: seq<string>): seq<string> {
    if ps == [] then [] else WordsAt(index, w, ps[0]) + AllParts(index, w, ps[1..])
  }

  function IndexedNames(order: seq<string>, index: Senses): (string, Option<string>) -> Result<seq<string>, NoRank> {
    (w: string, pos: Option<string>) =>
      Ok(if pos.Some? then WordsAt(index, w, pos.value) else AllParts(index, w, order))
  }

  function IndexedKnown(index: Senses): Known {
    (w: string, p: string) => Ok((w, p) in index)
  }

  function IndexedIrregular(exc: map<(string, string), string>): (string, string) -> Option<string> {
    (w: string, p: string) => Lookup(exc, (w, p))
  }

  /**
   * What the corpus must be: of one language, as the in-memory index reads every doc; known parts of speech, one
   * base a form, and for every surface and part of speech that has senses at least one stored rank.
   */
  ghost predicate WellFormed(order: seq<string>, docs: seq<SynDoc>, lang: string) {
    && OneLanguage(docs, lang) && Distinct(order) && KnownPos(order, Entries(docs))
    && OneBase(Irregulars(docs))
    && forall w, p :: !AllUnranked(Collect(KeyOf(order, Some(p)), RowsAt(Entries(docs), w)))
  }

  /** The two substrates as the build and the load leave them. */
  ghost predicate Laid(docs: seq<SynDoc>, lang: string, rowsOf: RowsOf, keyedExc: map<string, string>, index: Senses,
                       indexExc: map<(string, string), string>) {
    && (forall w :: multiset(rowsOf(w)) == multiset(RowsAt(Entries(Spoken(docs, lang)), w)))
    && (forall k :: Lookup(keyedExc, k) == LastBase(Irregulars(Spoken(docs, lang)), k))
    && (forall w, p :: WordsAt(index, w, p) == Lexicon.Senses(Entries(docs), w, p))
    && (forall w, p :: (w, p) in index ==> index[(w, p)] != [])
    && (forall w, p :: Lookup(indexExc, (w, p)) == FirstBase(Irregulars(docs), w, p))
  }

  lemma {:induction false} CollectHas(f: Entry -> Option<Key>, rows: seq<Entry>, k: Key)
    ensures k in Collect(f, rows) <==> exists e :: e in rows && f(e) == Some(k)
  {
    if rows != [] {
      CollectHas(f, rows[..|rows| - 1], k);
      assert rows == rows[..|rows| - 1] + [rows[|rows| - 1]];
    }
  }

  /** A rank in every part of speech is a rank overall. */
  lemma RankedOverall(order: seq<string>, rows: seq<Entry>, pos: Option<string>)
    requires forall p :: !AllUnranked(Collect(KeyOf(order, Some(p)), rows))
    ensures !AllUnranked(Collect(KeyOf(order, pos), rows))
  {
    var all := Collect(KeyOf(order, None), rows);
    if pos == None && all != [] {
      CollectHas(KeyOf(order, None), rows, all[0]);
      var e :| e in rows && KeyOf(order, None)(e) == Some(all[0]);
      var some := Collect(KeyOf(order, Some(e.pos)), rows);
      CollectHas(KeyOf(order, Some(e.pos)), rows, all[0]);
      var k :| k in some && k.item.rank.Some?;
      CollectHas(KeyOf(order, Some(e.pos)), rows, k);
      CollectHas(KeyOf(order, None), rows, k);
    }
  }

  lemma {:induction false} AllPartsAre(index: Senses, es: seq<Entry>, w: string, ps: seq<string>)
    requires forall w, p :: WordsAt(index, w, p) == Lexicon.Senses(es, w, p)
    ensures AllParts(index, w, ps) == IndexNames(es, w, ps)
  {
    if ps != [] {
      AllPartsAre(index, es, w, ps[1..]);
    }
  }

  lemma KeyedAnswer(order: seq<string>, es: seq<Entry>, rows: seq<Entry>, w: string, pos: Option<string>)
    requires Distinct(order) && KnownPos(order, es) && multiset(rows) == multiset(RowsAt(es, w))
    requires forall p :: !AllUnranked(Collect(KeyOf(order, Some(p)), RowsAt(es, w)))
    ensures EntryNames(order, rows, pos) == Ok(IndexNames(es, w, Asked(order, pos)))
  {
    RankedOverall(order, RowsAt(es, w), pos);
    KeyedRefinesIndex(order, es, rows, w, pos);
  }

  lemma IndexedAnswer(order: seq<string>, index: Senses, es: seq<Entry>, w: string, pos: Option<string>)
    requires forall w, p :: WordsAt(index, w, p) == Lexicon.Senses(es, w, p)
    ensures IndexedNames(order, index)(w, pos) == Ok(IndexNames(es, w, Asked(order, pos)))
  {
    if pos == None {
      AllPartsAre(index, es, w, order);
    } else {
      AllPartsAre(index, es, w, [pos.value]);
      assert [pos.value][1..] == [];
      assert AllParts(index, w, [pos.value]) == WordsAt(index, w, pos.value);
    }
  }

  lemma NamesAgree(order: seq<string>, docs: seq<SynDoc>, lang: string, rowsOf: RowsOf, keyedExc: map<string, string>,
                   index: Senses, indexExc: map<(string, string), string>, w: string, pos: Option<string>)
    requires WellFormed(order, docs, lang) && Laid(docs, lang, rowsOf, keyedExc, index, indexExc)
    ensures KeyedNames(order, rowsOf)(w, pos) == IndexedNames(order, index)(w, pos)
  {
    AllSpoken(docs, lang);
    KeyedAnswer(order, Entries(docs), rowsOf(w), w, pos);
    IndexedAnswer(order, index, Entries(docs), w, pos);
  }

  lemma KnownAgree(order: seq<string>, docs: seq<SynDoc>, lang: string, rowsOf: RowsOf, keyedExc: map<string, string>,
                   index: Senses, indexExc: map<(string, string), string>, w: string, p: string)
    requires WellFormed(order, docs, lang) && Laid(docs, lang, rowsOf, keyedExc, index, indexExc)
    ensures KeyedKnown(order, rowsOf)(w, p) == IndexedKnown(index)(w, p)
  {
    NamesAgree(order, docs, lang, rowsOf, keyedExc, index, indexExc, w, Some(p));
    assert KeyedNames(order, rowsOf)(w, Some(p)) == EntryNames(order, rowsOf(w), Some(p));
  }

  lemma {:induction false} SameTries(known: Known, known': Known, irregular: (string, string) -> Option<string>,
                                     irregular': (string, string) -> Option<string>, w: string, ps: seq<string>)
    requires forall c, p :: known(c, p) == known'(c, p)
    requires forall p :: p in ps ==> Usable(irregular(w, p)) == Usable(irregular'(w, p))
    ensures TryWord(known, w, ps) == TryWord(known', w, ps)
    ensures TryIrregular(known, irregular, w, ps) == TryIrregular(known', irregular', w, ps)
    ensures TryAllRules(known, w, ps) == TryAllRules(known', w, ps)
  {
    if ps != [] {
      assert forall p :: p in ps[1..] ==> p in ps;
      SameTries(known, known', irregular, irregular', w, ps[1..]);
      assert Usable(irregular(w, ps[0])) == Usable(irregular'(w, ps[0]));
      SameRules(known, known', w, ps[0], Rules(ps[0]));
    }
  }

  lemma {:induction false} SameRules(known: Known, known': Known, w: string, p: string, rules: seq<(string, string)>)
    requires forall c, p :: known(c, p) == known'(c, p)
    ensures TryRules(known, w, p, rules) == TryRules(known', w, p, rules)
  {
    if rules != [] {
      SameRules(known, known', w, p, rules[1..]);
    }
  }

  lemma SameMorphy(known: Known, known': Known, irregular: (string, string) -> Option<string>,
                   irregular': (string, string) -> Option<string>, word: string, ps: seq<string>)
    requires forall c, p :: known(c, p) == known'(c, p)
    requires forall p :: p in ps ==> Usable(irregular(Surface(word), p)) == Usable(irregular'(Surface(word), p))
    ensures Morphy(known, irregular, word, ps) == Morphy(known', irregular', word, ps)
  {
    SameTries(known, known', irregular, irregular', Surface(word), ps);
  }

  /** What the keyed path looks up is what the stored table was filed with. */
  lemma KeyedIsFiled(all: seq<Irregular>, keyedExc: map<string, string>, w: string, p: string)
    requires forall k :: Lookup(keyedExc, k) == LastBase(all, k)
    ensures Usable(KeyedIrregular(keyedExc)(w, p)) == Usable(KeyedBase(all, w, p))
  {
  }

  lemma SameIrregular(all: seq<Irregular>, keyedExc: map<string, string>, indexExc: map<(string, string), string>,
                      w: string, p: string)
    requires OneBase(all) && ClearAt(all, w, p)
    requires forall k :: Lookup(keyedExc, k) == LastBase(all, k)
    requires forall w, p :: Lookup(indexExc, (w, p)) == FirstBase(all, w, p)
    ensures Usable(KeyedIrregular(keyedExc)(w, p)) == Usable(IndexedIrregular(indexExc)(w, p))
  {
    ExceptionsAgree(all, w, p);
    KeyedIsFiled(all, keyedExc, w, p);
  }

  lemma MorphyAgrees(order: seq<string>, docs: seq<SynDoc>, lang: string, rowsOf: RowsOf, keyedExc: map<string, string>,
                     index: Senses, indexExc: map<(string, string), string>, word: string, ps: seq<string>)
    requires WellFormed(order, docs, lang) && Laid(docs, lang, rowsOf, keyedExc, index, indexExc)
    requires Clear(Irregulars(docs), Surface(word), ps)
    ensures Morphy(KeyedKnown(order, rowsOf), KeyedIrregular(keyedExc), word, ps)
         == Morphy(IndexedKnown(index), IndexedIrregular(indexExc), word, ps)
  {
    AllSpoken(docs, lang);
    forall c, p
      ensures KeyedKnown(order, rowsOf)(c, p) == IndexedKnown(index)(c, p)
    {
      KnownAgree(order, docs, lang, rowsOf, keyedExc, index, indexExc, c, p);
    }
    forall p | p in ps
      ensures Usable(KeyedIrregular(keyedExc)(Surface(word), p)) == Usable(IndexedIrregular(indexExc)(Surface(word), p))
    {
      SameIrregular(Irregulars(docs), keyedExc, indexExc, Surface(word), p);
    }
    SameMorphy(KeyedKnown(order, rowsOf), IndexedKnown(index), KeyedIrregular(keyedExc), IndexedIrregular(indexExc),
               word, ps);
  }

  lemma SurfaceTwice(s: string)
    ensures Surface(Surface(s)) == Surface(s)
  {
  }

  /** Once the edges are laid, every word, in every part of speech or in all, stands for the same synsets in the same
      order as in the in-memory index, inflected forms included. */
  lemma SynsetsAgree(order: seq<string>, docs: seq<SynDoc>, lang: string, rowsOf: RowsOf, keyedExc: map<string, string>,
                     index: Senses, indexExc: map<(string, string), string>, word: string, pos: Option<string>)
    requires WellFormed(order, docs, lang) && Laid(docs, lang, rowsOf, keyedExc, index, indexExc)
    requires Clear(Irregulars(docs), Surface(word), PartsToTry(order, pos))
    ensures Synsets(KeyedNames(order, rowsOf), KeyedKnown(order, rowsOf), KeyedIrregular(keyedExc), order, word, pos)
         == Synsets(IndexedNames(order, index), IndexedKnown(index), IndexedIrregular(indexExc), order, word, pos)
  {
    forall c
      ensures KeyedNames(order, rowsOf)(c, pos) == IndexedNames(order, index)(c, pos)
    {
      NamesAgree(order, docs, lang, rowsOf, keyedExc, index, indexExc, c, pos);
    }
    SurfaceTwice(word);
    MorphyAgrees(order, docs, lang, rowsOf, keyedExc, index, indexExc, Surface(word), PartsToTry(order, pos));
    SameSynsets(KeyedNames(order, rowsOf), IndexedNames(order, index), KeyedKnown(order, rowsOf), IndexedKnown(index),
                KeyedIrregular(keyedExc), IndexedIrregular(indexExc), order, word, pos);
  }

  lemma SameSynsets(names: (string, Option<string>) -> Result<seq<string>, NoRank>,
                    names': (string, Option<string>) -> Result<seq<string>, NoRank>, known: Known, known': Known,
                    irregular: (string, string) -> Option<string>, irregular': (string, string) -> Option<string>,
                    order: seq<string>, word: string, pos: Option<string>)
    requires forall c :: names(c, pos) == names'(c, pos)
    requires Morphy(known, irregular, Surface(word), PartsToTry(order, pos))
          == Morphy(known', irregular', Surface(word), PartsToTry(order, pos))
    ensures Synsets(names, known, irregular, order, word, pos) == Synsets(names', known', irregular', order, word, pos)
  {
  }
}
